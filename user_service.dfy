/** User accounts: registration, look-up, update and deletion. Passwords are
    stored only in encoded form and never leave the service. */
module UserService {

  import opened Wrappers
  import opened Errors
  import opened Users
  import opened Store
  import opened Requests

  /** The response shapes; none of them carries the password. */
  datatype UserSummary = UserSummary(userId: Id, name: string, email: string)
  datatype UserDetails = UserDetails(userId: Id, name: string, email: string, role: Role)

  function Summary(u: UserModel): (r: UserSummary)
    ensures r.userId == u.userId && r.name == u.name && r.email == u.email
  {
    UserSummary(u.userId, u.name, u.email)
  }

  function Details(u: UserModel): (r: UserDetails)
    ensures r.userId == u.userId && r.name == u.name && r.email == u.email && r.role == u.role
  {
    UserDetails(u.userId, u.name, u.email, u.role)
  }

  const EMAIL_TAKEN: Exception := UserExists("A user with the provided email address already exists.")

  function IdNotFoundError(id: Id): Exception {
    UserNotFound("User not found with id: " + id)
  }

  function EmailNotFoundError(email: string): Exception {
    UserNotFound("User not found with email: " + email)
  }

  // ----------------------------------------------------------- look-up

  /** `findModelByEmail` and `loadUserByUsername`: the account with that email. */
  function FindModelByEmail(users: map<Id, UserModel>, email: string): (r: Result<UserModel, Exception>)
    requires EmailsUnique(users)
    ensures r.Ok? <==> ExistsByEmail(users, email)
    ensures r.Err? ==> r.error == EmailNotFoundError(email)
    ensures r.Ok? ==> r.value.email == email && exists k :: k in users && users[k] == r.value
  {
    match FindByEmail(users, email)
    case None => Err(EmailNotFoundError(email))
    case Some(u) => Ok(u)
  }

  /** `findByEmail`: the same look-up, answered as details. */
  function FindDetailsByEmail(users: map<Id, UserModel>, email: string): (r: Result<UserDetails, Exception>)
    requires EmailsUnique(users)
    ensures r.Ok? <==> ExistsByEmail(users, email)
    ensures r.Err? ==> r.error == EmailNotFoundError(email)
    ensures r.Ok? ==> r.value.email == email
    ensures r.Ok? ==> exists k :: k in users && users[k].email == email && r.value == Details(users[k])
  {
    var u :- FindModelByEmail(users, email);
    Ok(Details(u))
  }

  function FindById(users: map<Id, UserModel>, id: Id): (r: Result<UserDetails, Exception>)
    ensures r.Ok? <==> id in users
    ensures r.Err? ==> r.error == IdNotFoundError(id)
    ensures r.Ok? ==> r.value == Details(users[id])
  {
    if id !in users then Err(IdNotFoundError(id)) else Ok(Details(users[id]))
  }

  /** In a consistent store the account found by id is found again by its email. */
  lemma FindByIdThenEmail(users: map<Id, UserModel>, id: Id)
    requires EmailsUnique(users) && KeysAreIds(users) && id in users
    ensures FindModelByEmail(users, users[id].email) == Ok(users[id])
  {
    var u := FindModelByEmail(users, users[id].email).value;
    var k :| k in users && users[k] == u;
  }

  // ------------------------------------------------------ registration

  /** `save`: a new account with role USER and the encoded password. */
  function SaveStep(t: Tables, request: UserCreationRequest, newId: Id, encode: string -> string): (s: Step<UserSummary>)
    requires request.Valid() && newId !in t.users
    ensures s.result.Err? <==> ExistsByEmail(t.users, request.email.value)
    ensures s.result.Err? ==> s == Step(t, Err(EMAIL_TAKEN))
    ensures s.result.Ok? ==> s.result.value == UserSummary(newId, request.name.value, request.email.value)
    ensures s.result.Ok? ==> s.state == t.(users := t.users[newId :=
      UserModel(newId, request.name.value, encode(request.password.value), request.email.value, User)])
  {
    var email := request.email.value;
    if ExistsByEmail(t.users, email) then Step(t, Err(EMAIL_TAKEN))
    else
      var user := UserModel(newId, request.name.value, encode(request.password.value), email, User);
      Step(t.(users := t.users[newId := user]), Ok(Summary(user)))
  }

  /** Registration keeps emails unique, and a registered account is a plain
      user found by its email. */
  lemma SaveProperties(t: Tables, request: UserCreationRequest, newId: Id, encode: string -> string)
    requires Consistent(t) && request.Valid() && newId !in t.users
    ensures Consistent(SaveStep(t, request, newId, encode).state)
    ensures var s := SaveStep(t, request, newId, encode);
      s.result.Ok? ==> FindModelByEmail(s.state.users, request.email.value) == Ok(s.state.users[newId])
    ensures var s := SaveStep(t, request, newId, encode);
      s.result.Ok? ==> Authorities(s.state.users[newId]) == [ROLE_USER]
  {
    var s := SaveStep(t, request, newId, encode);
    if s.result.Ok? {
      FindByIdThenEmail(s.state.users, newId);
    }
  }

  method Save(db: Database, request: UserCreationRequest, newId: Id, encode: string -> string) returns (r: Result<UserSummary, Exception>)
    requires db.Valid() && request.Valid() && newId !in db.users
    modifies db
    ensures db.Valid()
    ensures db.State() == SaveStep(old(db.State()), request, newId, encode).state
    ensures r == SaveStep(old(db.State()), request, newId, encode).result
  {
    SaveProperties(db.State(), request, newId, encode);
    var email := request.email.value;
    if ExistsByEmail(db.users, email) {
      return Err(EMAIL_TAKEN);
    }
    var user := UserModel(newId, request.name.value, encode(request.password.value), email, User);
    db.users := db.users[newId := user];
    r := Ok(Summary(user));
  }

  // ------------------------------------------------------------ update

  function InvalidRoleError(role: Role): Exception {
    InvalidRole("Invalid role received: " + RoleName(role) + ". Allowed roles: ADMIN, USER.")
  }

  /** `update`: id first, then the email, then the role; the password is kept. */
  function UpdateStep(t: Tables, request: UserUpdateRequest, id: Id): (s: Step<UserDetails>)
    requires request.Valid()
    ensures id !in t.users ==> s == Step(t, Err(IdNotFoundError(id)))
    ensures s.result.Ok? <==>
      (id in t.users &&
       (t.users[id].email == request.email.value || !ExistsByEmail(t.users, request.email.value)) &&
       request.role.value in {Admin, User})
    ensures s.result.Err? ==> s.state == t
    ensures id in t.users && t.users[id].email != request.email.value && ExistsByEmail(t.users, request.email.value) ==>
      s.result == Err(EMAIL_TAKEN)
    ensures (id in t.users && (t.users[id].email == request.email.value || !ExistsByEmail(t.users, request.email.value)) &&
             request.role.value !in {Admin, User}) ==> s == Step(t, Err(InvalidRoleError(request.role.value)))
    ensures s.result.Ok? ==> s.state == t.(users := t.users[id :=
      t.users[id].(name := request.name.value, email := request.email.value, role := request.role.value)])
    ensures s.result.Ok? ==> s.result.value == Details(s.state.users[id])
  {
    if id !in t.users then Step(t, Err(IdNotFoundError(id)))
    else
      var user := t.users[id];
      var email := request.email.value;
      if ExistsByEmail(t.users, email) && user.email != email then Step(t, Err(EMAIL_TAKEN))
      else if request.role.value !in [Admin, User] then Step(t, Err(InvalidRoleError(request.role.value)))
      else
        var updated := user.(name := request.name.value, email := email, role := request.role.value);
        Step(t.(users := t.users[id := updated]), Ok(Details(updated)))
  }

  /** Replacing one account keeps emails unique when the new email is its own
      or nobody's. */
  lemma ReplaceKeepsEmailsUnique(users: map<Id, UserModel>, id: Id, updated: UserModel)
    requires EmailsUnique(users) && id in users
    requires updated.email == users[id].email || !ExistsByEmail(users, updated.email)
    ensures EmailsUnique(users[id := updated])
  {
    var u := users[id := updated];
    forall a, b | a in u && b in u && a != b
      ensures u[a].email != u[b].email
    {
      if a == id {
        assert b in users && u[b] == users[b];
      } else if b == id {
        assert a in users && u[a] == users[a];
      }
    }
  }

  /** Updating keeps emails unique and never changes the stored password. */
  lemma UpdateProperties(t: Tables, request: UserUpdateRequest, id: Id)
    requires Consistent(t) && request.Valid()
    ensures Consistent(UpdateStep(t, request, id).state)
    ensures id in t.users ==> UpdateStep(t, request, id).state.users[id].password == t.users[id].password
  {
    var s := UpdateStep(t, request, id);
    if s.result.Ok? {
      ReplaceKeepsEmailsUnique(t.users, id, s.state.users[id]);
    }
  }

  method Update(db: Database, request: UserUpdateRequest, id: Id) returns (r: Result<UserDetails, Exception>)
    requires db.Valid() && request.Valid()
    modifies db
    ensures db.Valid()
    ensures db.State() == UpdateStep(old(db.State()), request, id).state
    ensures r == UpdateStep(old(db.State()), request, id).result
  {
    UpdateProperties(db.State(), request, id);
    if id !in db.users {
      return Err(IdNotFoundError(id));
    }
    var user := db.users[id];
    var email := request.email.value;
    if ExistsByEmail(db.users, email) && user.email != email {
      return Err(EMAIL_TAKEN);
    }
    var role := request.role.value;
    if role !in [Admin, User] {
      return Err(InvalidRoleError(role));
    }
    user := user.(name := request.name.value, email := email, role := role);
    db.users := db.users[id := user];
    r := Ok(Details(user));
  }

  // ------------------------------------------------------------ delete

  function DeleteStep(t: Tables, id: Id): (s: Step<()>)
    ensures s.result.Ok? <==> id in t.users
    ensures s.result.Err? ==> s == Step(t, Err(IdNotFoundError(id)))
    ensures s.result.Ok? ==> s.state == t.(users := t.users - {id})
  {
    if id !in t.users then Step(t, Err(IdNotFoundError(id)))
    else Step(t.(users := t.users - {id}), Ok(()))
  }

  /** After a deletion the account is no longer found by id nor by its email. */
  lemma DeletedUserIsGone(t: Tables, id: Id)
    requires Consistent(t) && id in t.users
    ensures FindById(DeleteStep(t, id).state.users, id).Err?
    ensures EmailsUnique(DeleteStep(t, id).state.users)
    ensures FindModelByEmail(DeleteStep(t, id).state.users, t.users[id].email).Err?
  {
  }

  method Delete(db: Database, id: Id) returns (r: Result<(), Exception>)
    requires db.Valid()
    modifies db
    ensures db.Valid()
    ensures db.State() == DeleteStep(old(db.State()), id).state
    ensures r == DeleteStep(old(db.State()), id).result
  {
    if id !in db.users {
      return Err(IdNotFoundError(id));
    }
    db.users := db.users - {id};
    r := Ok(());
  }
}
