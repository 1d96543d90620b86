/** The start-up task that seeds the default administrator account. */
module DefaultAdmin {

  import opened Wrappers
  import opened Users
  import opened Store
  import UserService

  const ADMIN_EMAIL := "john.doe@example.com"
  const ADMIN_NAME := "John Doe"
  const ADMIN_PASSWORD := "pwd123"

  /** The seeding: an ADMIN account is added unless one with the default email exists. */
  function Seed(t: Tables, adminId: Id, encode: string -> string): (s: Tables)
    requires adminId !in t.users
    ensures ExistsByEmail(s.users, ADMIN_EMAIL)
    ensures ExistsByEmail(t.users, ADMIN_EMAIL) ==> s == t
    ensures !ExistsByEmail(t.users, ADMIN_EMAIL) ==>
      s == t.(users := t.users[adminId := UserModel(adminId, ADMIN_NAME, encode(ADMIN_PASSWORD), ADMIN_EMAIL, Admin)])
  {
    if ExistsByEmail(t.users, ADMIN_EMAIL) then t
    else
      var users := t.users[adminId := UserModel(adminId, ADMIN_NAME, encode(ADMIN_PASSWORD), ADMIN_EMAIL, Admin)];
      assert users[adminId].email == ADMIN_EMAIL;
      t.(users := users)
  }

  /** Seeding twice is seeding once, whatever id the second run would use. */
  lemma SeedIdempotent(t: Tables, first: Id, second: Id, encode: string -> string)
    requires first !in t.users && second !in Seed(t, first, encode).users
    ensures Seed(Seed(t, first, encode), second, encode) == Seed(t, first, encode)
  {
  }

  /** Seeding keeps the store consistent, and on a store without that email the
      default account then logs in by it with both roles. */
  lemma SeedProperties(t: Tables, adminId: Id, encode: string -> string)
    requires Consistent(t) && adminId !in t.users
    ensures Consistent(Seed(t, adminId, encode))
    ensures !ExistsByEmail(t.users, ADMIN_EMAIL) ==>
      var u := UserService.FindModelByEmail(Seed(t, adminId, encode).users, ADMIN_EMAIL);
      u.Ok? && u.value.role == Admin && HasRole(Authorities(u.value), "ADMIN") && HasRole(Authorities(u.value), "USER")
  {
    var s := Seed(t, adminId, encode);
    if !ExistsByEmail(t.users, ADMIN_EMAIL) {
      assert s.users[adminId].email == ADMIN_EMAIL;
      UserService.FindByIdThenEmail(s.users, adminId);
      RoleHierarchy(s.users[adminId]);
    }
  }

  method Run(db: Database, adminId: Id, encode: string -> string)
    requires db.Valid() && adminId !in db.users
    modifies db
    ensures db.Valid()
    ensures db.State() == Seed(old(db.State()), adminId, encode)
  {
    SeedProperties(db.State(), adminId, encode);
    if !ExistsByEmail(db.users, ADMIN_EMAIL) {
      var admin := UserModel(adminId, ADMIN_NAME, encode(ADMIN_PASSWORD), ADMIN_EMAIL, Admin);
      db.users := db.users[adminId := admin];
    }
  }
}
