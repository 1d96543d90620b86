/** The request records. Each compact constructor trims its string fields
    (`String.trim`) and keeps a null field null; the Bean Validation
    annotations on the components become `Valid()`. */
module Requests {

  import opened Wrappers
  import opened JavaStrings
  import opened Users

  /** `(s != null) ? s.trim() : null`. */
  function TrimOrNull(s: Option<string>): (r: Option<string>)
    ensures r.None? <==> s.None?
    ensures r.Some? ==> r.value == Trim(s.value)
  {
    match s
    case None => None
    case Some(v) => Some(Trim(v))
  }

  /** A field as a compact constructor leaves it: null, or without surrounding whitespace. */
  predicate Trimmed(s: Option<string>) {
    s.Some? ==> s.value == [] || (!Trimmable(s.value[0]) && !Trimmable(s.value[|s.value| - 1]))
  }

  /** `@NotBlank`: not null and not empty once trimmed. */
  predicate NotBlank(s: Option<string>) {
    s.Some? && Trim(s.value) != []
  }

  /** `@NotNull @Positive` on a `BigDecimal`. */
  predicate Positive(x: Option<real>) {
    x.Some? && x.value > 0.0
  }

  datatype DepartmentRequest = DepartmentRequest(name: Option<string>) {
    predicate Valid() { NotBlank(name) }
  }

  datatype EmployeeRequest = EmployeeRequest(name: Option<string>, position: Option<string>, salary: Option<real>, departmentId: Option<string>) {
    predicate Valid() { NotBlank(name) && NotBlank(position) && Positive(salary) && departmentId.Some? }
  }

  datatype UserUpdateRequest = UserUpdateRequest(name: Option<string>, email: Option<string>, role: Option<Role>) {
    predicate Valid() { NotBlank(name) && NotBlank(email) && role.Some? }
  }

  /** There is no role component: registration cannot choose a role. */
  datatype UserCreationRequest = UserCreationRequest(name: Option<string>, password: Option<string>, email: Option<string>) {
    predicate Valid() { NotBlank(name) && NotBlank(password) && NotBlank(email) }
  }

  datatype LoginRequest = LoginRequest(email: Option<string>, password: Option<string>) {
    predicate Valid() { NotBlank(email) && NotBlank(password) }
  }

  lemma TrimOrNullTrimmed(s: Option<string>)
    ensures Trimmed(TrimOrNull(s))
    ensures TrimOrNull(TrimOrNull(s)) == TrimOrNull(s)
  {
    if s.Some? {
      TrimIdempotent(s.value);
    }
  }

  function NewDepartmentRequest(name: Option<string>): (r: DepartmentRequest)
    ensures r.name == TrimOrNull(name) && Trimmed(r.name)
  {
    TrimOrNullTrimmed(name);
    DepartmentRequest(TrimOrNull(name))
  }

  function NewEmployeeRequest(name: Option<string>, position: Option<string>, salary: Option<real>, departmentId: Option<string>): (r: EmployeeRequest)
    ensures r.name == TrimOrNull(name) && Trimmed(r.name)
    ensures r.position == TrimOrNull(position) && Trimmed(r.position)
    ensures r.salary == salary && r.departmentId == departmentId
  {
    TrimOrNullTrimmed(name);
    TrimOrNullTrimmed(position);
    EmployeeRequest(TrimOrNull(name), TrimOrNull(position), salary, departmentId)
  }

  function NewUserUpdateRequest(name: Option<string>, email: Option<string>, role: Option<Role>): (r: UserUpdateRequest)
    ensures r.name == TrimOrNull(name) && Trimmed(r.name)
    ensures r.email == TrimOrNull(email) && Trimmed(r.email)
    ensures r.role == role
  {
    TrimOrNullTrimmed(name);
    TrimOrNullTrimmed(email);
    UserUpdateRequest(TrimOrNull(name), TrimOrNull(email), role)
  }

  function NewUserCreationRequest(name: Option<string>, password: Option<string>, email: Option<string>): (r: UserCreationRequest)
    ensures r.name == TrimOrNull(name) && Trimmed(r.name)
    ensures r.password == TrimOrNull(password) && Trimmed(r.password)
    ensures r.email == TrimOrNull(email) && Trimmed(r.email)
  {
    TrimOrNullTrimmed(name);
    TrimOrNullTrimmed(password);
    TrimOrNullTrimmed(email);
    UserCreationRequest(TrimOrNull(name), TrimOrNull(password), TrimOrNull(email))
  }

  function NewLoginRequest(email: Option<string>, password: Option<string>): (r: LoginRequest)
    ensures r.email == TrimOrNull(email) && Trimmed(r.email)
    ensures r.password == TrimOrNull(password) && Trimmed(r.password)
  {
    TrimOrNullTrimmed(email);
    TrimOrNullTrimmed(password);
    LoginRequest(TrimOrNull(email), TrimOrNull(password))
  }

  /** Building a request again from the fields of a built one changes nothing,
      because `trim` is idempotent. */
  lemma ReconstructionIsIdentity(a: Option<string>, b: Option<string>, c: Option<string>, salary: Option<real>, id: Option<string>, role: Option<Role>)
    ensures var d := NewDepartmentRequest(a); NewDepartmentRequest(d.name) == d
    ensures var e := NewEmployeeRequest(a, b, salary, id); NewEmployeeRequest(e.name, e.position, e.salary, e.departmentId) == e
    ensures var u := NewUserUpdateRequest(a, b, role); NewUserUpdateRequest(u.name, u.email, u.role) == u
    ensures var r := NewUserCreationRequest(a, b, c); NewUserCreationRequest(r.name, r.password, r.email) == r
    ensures var l := NewLoginRequest(a, b); NewLoginRequest(l.email, l.password) == l
  {
    TrimOrNullTrimmed(a);
    TrimOrNullTrimmed(b);
    TrimOrNullTrimmed(c);
  }

  /** A trimmed field is a fixed point of the constructor's trimming. */
  lemma TrimmedIsFixedPoint(s: Option<string>)
    requires Trimmed(s)
    ensures TrimOrNull(s) == s
  {
    if s.Some? {
      TrimOfTrimmed(s.value);
    }
  }

  /** A name made only of whitespace is stored empty and fails `@NotBlank`; any
      other present name passes. */
  lemma DepartmentNameBlank(name: string)
    ensures AllTrimmable(name) ==> NewDepartmentRequest(Some(name)).name == Some("")
    ensures NewDepartmentRequest(Some(name)).Valid() <==> !AllTrimmable(name)
  {
    TrimEmpty(name);
    TrimIdempotent(name);
  }

  /** Surrounding whitespace never affects the password compared at login: the
      login request keeps exactly the password that registration stored. */
  lemma LoginPasswordMatchesRegistration(pre: string, password: string, post: string, name: Option<string>, email: Option<string>, loginEmail: Option<string>)
    requires AllTrimmable(pre) && AllTrimmable(post)
    ensures NewLoginRequest(loginEmail, Some(pre + password + post)).password
      == NewUserCreationRequest(name, Some(password), email).password
  {
    TrimPadding(pre, password, post);
  }
}
