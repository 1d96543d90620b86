/** The REST endpoints: who may call each, what status a success answers with,
    and the controller actions that do more than delegate to one service call. */
module Controllers {

  import opened Wrappers
  import opened Errors
  import opened Users
  import opened Store
  import opened SecurityFilter
  import UserService
  import PhotoService

  datatype Endpoint =
    // departments
    | ListDepartments | GetDepartment | CreateDepartment | UpdateDepartment | DeleteDepartment
    // employees
    | ListEmployees | GetEmployee | GetEmployeePhoto | CreateEmployee | UpdateEmployee | DeleteEmployee
    | UploadEmployeePhoto | DeleteEmployeePhoto
    // users
    | ListUsers | GetUser | GetCurrentUser | RegisterUser | UpdateUser | DeleteUser
    // authentication
    | Login | RefreshTokens | Logout

  /** A `@PreAuthorize` expression: `permitAll()` or `hasRole(role)`. */
  datatype Requirement = PermitAll | RequiresRole(role: string)

  const USER := "USER"
  const ADMIN := "ADMIN"

  /** The access table. */
  function RequirementOf(e: Endpoint): (r: Requirement)
    ensures r.PermitAll? <==> e in {Login, RegisterUser}
    ensures r.RequiresRole? ==> r.role in {USER, ADMIN}
  {
    match e
    case ListDepartments => RequiresRole(USER)
    case GetDepartment => RequiresRole(USER)
    case CreateDepartment => RequiresRole(ADMIN)
    case UpdateDepartment => RequiresRole(ADMIN)
    case DeleteDepartment => RequiresRole(ADMIN)
    case ListEmployees => RequiresRole(USER)
    case GetEmployee => RequiresRole(USER)
    case GetEmployeePhoto => RequiresRole(USER)
    case CreateEmployee => RequiresRole(ADMIN)
    case UpdateEmployee => RequiresRole(ADMIN)
    case DeleteEmployee => RequiresRole(ADMIN)
    case UploadEmployeePhoto => RequiresRole(ADMIN)
    case DeleteEmployeePhoto => RequiresRole(ADMIN)
    case ListUsers => RequiresRole(ADMIN)
    case GetUser => RequiresRole(ADMIN)
    case GetCurrentUser => RequiresRole(USER)
    case RegisterUser => PermitAll
    case UpdateUser => RequiresRole(ADMIN)
    case DeleteUser => RequiresRole(ADMIN)
    case Login => PermitAll
    case RefreshTokens => RequiresRole(USER)
    case Logout => RequiresRole(USER)
  }

  /** Whether a principal with these authorities satisfies the endpoint's requirement. */
  predicate Permits(e: Endpoint, authorities: seq<string>) {
    match RequirementOf(e)
    case PermitAll => true
    case RequiresRole(role) => HasRole(authorities, role)
  }

  /** The status of a successful call. */
  function SuccessStatus(e: Endpoint): (s: int)
    ensures s == 201 <==> e in {CreateDepartment, CreateEmployee, RegisterUser}
    ensures s == 204 <==> e in {DeleteDepartment, DeleteEmployee, DeleteEmployeePhoto, DeleteUser, Logout}
    ensures s in {200, 201, 204}
  {
    if e in {CreateDepartment, CreateEmployee, RegisterUser} then 201
    else if e in {DeleteDepartment, DeleteEmployee, DeleteEmployeePhoto, DeleteUser, Logout} then 204
    else 200
  }

  /** Every change to departments, employees, photos or other accounts is for
      administrators; reading is for every user; only login and registration
      are open. */
  lemma AccessTable(e: Endpoint)
    ensures RequirementOf(e) == RequiresRole(ADMIN) <==>
      e in {CreateDepartment, UpdateDepartment, DeleteDepartment, CreateEmployee, UpdateEmployee, DeleteEmployee,
            UploadEmployeePhoto, DeleteEmployeePhoto, ListUsers, GetUser, UpdateUser, DeleteUser}
    ensures RequirementOf(e) == RequiresRole(USER) <==>
      e in {ListDepartments, GetDepartment, ListEmployees, GetEmployee, GetEmployeePhoto, GetCurrentUser,
            RefreshTokens, Logout}
  {
  }

  /** A principal whose role is not ADMIN reaches exactly the endpoints that do
      not require ADMIN; an ADMIN reaches every endpoint. */
  lemma RoleReach(u: UserModel, e: Endpoint)
    ensures u.role != Admin ==> (Permits(e, Authorities(u)) <==> RequirementOf(e) != RequiresRole(ADMIN))
    ensures u.role == Admin ==> Permits(e, Authorities(u))
  {
    RoleHierarchy(u);
  }

  // ---------------------------------------------------------- actions

  /** The URL recorded for an uploaded photo. */
  function PhotoUrl(contextPath: string, employeeId: Id): string {
    contextPath + "/api/v1/employees/" + employeeId + "/photo"
  }

  /** `uploadPhoto`: stores the file, then records its URL on the employee. */
  method UploadPhoto(db: Database, employeeId: Id, file: PhotoService.MultipartFile, contextPath: string)
    returns (r: Result<Saved<Employee>, Exception>)
    requires db.Valid()
    modifies db
    ensures db.Valid()
    ensures var stored := PhotoService.StorePhotoStep(old(db.State()), employeeId, file);
      if stored.result.Err? then db.State() == stored.state && r == Err(stored.result.error)
      else
        var associated := PhotoService.AssociateStep(stored.state, employeeId, PhotoUrl(contextPath, employeeId));
        db.State() == associated.state && r == associated.result
  {
    var stored := PhotoService.StorePhoto(db, employeeId, file);
    if stored.Err? {
      return Err(stored.error);
    }
    r := PhotoService.AssociatePhotoToEmployee(db, employeeId, PhotoUrl(contextPath, employeeId));
  }

  /** A successful store is always followed by a successful association: the
      employee then points at its photo URL and holds the stored file. */
  lemma UploadAssociates(t: Tables, employeeId: Id, file: PhotoService.MultipartFile, contextPath: string)
    requires PhotoService.StorePhotoStep(t, employeeId, file).result.Ok?
    ensures var stored := PhotoService.StorePhotoStep(t, employeeId, file);
      var associated := PhotoService.AssociateStep(stored.state, employeeId, PhotoUrl(contextPath, employeeId));
      && associated.result.Ok?
      && associated.state.employees[employeeId].photo == Some(PhotoUrl(contextPath, employeeId))
      && PhotoService.StoredFilename(file.originalFilename.value) in PhotoService.FilesOf(associated.state, employeeId)
  {
  }

  /** `/me`: the details of the account whose email is the principal's name. */
  function CurrentUser(users: map<Id, UserModel>, authentication: AuthenticationToken): (r: Result<UserService.UserDetails, Exception>)
    requires EmailsUnique(users)
    ensures r.Ok? <==> ExistsByEmail(users, authentication.principal)
    ensures r.Ok? ==> r.value.email == authentication.principal
    ensures r.Ok? ==> exists k :: k in users && users[k].email == authentication.principal &&
                                  r.value == UserService.Details(users[k])
    ensures r.Err? ==> r.error == UserNotFound("User not found with email: " + authentication.principal)
  {
    UserService.FindDetailsByEmail(users, authentication.principal)
  }

  /** Whoever the filter authenticated gets their own record from `/me`, and
      may call it. */
  lemma CurrentUserIsAuthenticated(req: HttpRequest, cfg: JwtService.JwtConfig, codec: JwtService.Codec,
                                   users: map<Id, UserModel>, now: nat)
    requires EmailsUnique(users) && KeysAreIds(users)
    requires Authenticate(req, cfg, codec, users, now).Ok? && Authenticate(req, cfg, codec, users, now).value.Some?
    ensures var a := Authenticate(req, cfg, codec, users, now).value.value;
      && Permits(GetCurrentUser, a.authorities)
      && exists k :: k in users && CurrentUser(users, a) == Ok(UserService.Details(users[k]))
  {
    var a := Authenticate(req, cfg, codec, users, now).value.value;
    var k :| k in users && a == AuthenticationOf(users[k]);
    RoleHierarchy(users[k]);
    UserService.FindByIdThenEmail(users, k);
  }
}
