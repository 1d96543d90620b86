/** The user entity as Spring Security sees it: its role, the authorities the
    role grants, the username and the account flags. */
module Users {

  /** The stored role. `Other` stands for any role constant besides ADMIN and
      USER; the update operation rejects such roles. */
  datatype Role = Admin | User | Other(name: string)

  /** The role's enum name, as `RoleEnum.toString()` prints it. */
  function RoleName(r: Role): string {
    match r
    case Admin => "ADMIN"
    case User => "USER"
    case Other(n) => n
  }

  datatype UserModel = UserModel(userId: string, name: string, password: string, email: string, role: Role)

  const ROLE_ADMIN: string := "ROLE_ADMIN"
  const ROLE_USER: string := "ROLE_USER"

  /** `getAuthorities()`: ADMIN is granted ROLE_ADMIN and ROLE_USER, every other role ROLE_USER alone. */
  function Authorities(u: UserModel): (r: seq<string>)
    ensures ROLE_USER in r
    ensures ROLE_ADMIN in r <==> u.role == Admin
    ensures forall a :: a in r ==> a == ROLE_ADMIN || a == ROLE_USER
    ensures |r| == if u.role == Admin then 2 else 1
  {
    if u.role == Admin then [ROLE_ADMIN, ROLE_USER] else [ROLE_USER]
  }

  /** `getUsername()`: users log in with their email. */
  function Username(u: UserModel): (r: string)
    ensures r == u.email
  {
    u.email
  }

  /** `isAccountNonExpired`, `isAccountNonLocked`, `isCredentialsNonExpired` and
      `isEnabled` all answer true, whatever the user's state. */
  predicate AccountUsable(u: UserModel)
    ensures AccountUsable(u)
  {
    true
  }

  /** Lombok equality with only `userId` included. */
  predicate SameEntity(a: UserModel, b: UserModel) {
    a.userId == b.userId
  }

  /** The hash code is a function of `userId` alone. */
  function HashKey(u: UserModel): string {
    u.userId
  }

  /** Equality and hashing ignore every field but the id: changing the name,
      password, email or role keeps the entity equal to itself and its hash. */
  lemma EqualityIsById(u: UserModel, name: string, password: string, email: string, role: Role)
    ensures var v := u.(name := name, password := password, email := email, role := role);
      SameEntity(u, v) && HashKey(u) == HashKey(v)
    ensures forall w: UserModel :: SameEntity(u, w) ==> HashKey(u) == HashKey(w)
  {
  }

  /** `hasRole(r)` holds when the authorities contain "ROLE_" followed by `r`. */
  predicate HasRole(authorities: seq<string>, role: string) {
    "ROLE_" + role in authorities
  }

  /** ADMIN implies USER; ADMIN is held exactly by admins. */
  lemma RoleHierarchy(u: UserModel)
    ensures HasRole(Authorities(u), "USER")
    ensures HasRole(Authorities(u), "ADMIN") <==> u.role == Admin
  {
    assert "ROLE_" + "USER" == ROLE_USER;
    assert "ROLE_" + "ADMIN" == ROLE_ADMIN;
  }
}
