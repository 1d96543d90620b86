/** The persisted entities and the repository queries the services use. Each
    JPA table is a map keyed by id; each service call is one atomic step. */
module Store {

  import opened Wrappers
  import opened Errors
  import opened Users

  /** A UUID primary key. */
  type Id = string

  datatype Department = Department(name: string)

  /** `salary` is a `BigDecimal`, which a `real` holds exactly. `departmentId`
      is the `@ManyToOne` department reference. */
  datatype Employee = Employee(name: string, position: string, salary: real, photo: Option<string>, departmentId: Id)

  /** All tables, plus the photo directory: the regular files stored under each
      employee's id, in the order a directory walk meets them. */
  datatype Tables = Tables(
    departments: map<Id, Department>,
    employees: map<Id, Employee>,
    users: map<Id, UserModel>,
    photoDirs: map<Id, seq<string>>)

  /** The state after one service call and what the call returned or threw. */
  datatype Step<T> = Step(state: Tables, result: Result<T, Exception>)

  /** An entity as returned by a mapper after saving: its id and its fields. */
  datatype Saved<T> = Saved(id: Id, entity: T)

  // ---------------------------------------------------- derived queries

  /** `DepartmentRepository.existsByName`. */
  predicate ExistsByName(departments: map<Id, Department>, name: string) {
    exists k :: k in departments && departments[k].name == name
  }

  /** `EmployeeRepository.existsByNameAndDepartment`. */
  predicate ExistsByNameAndDepartment(employees: map<Id, Employee>, name: string, departmentId: Id) {
    exists k :: k in employees && employees[k].name == name && employees[k].departmentId == departmentId
  }

  /** `UserRepository.existsByEmail`. */
  predicate ExistsByEmail(users: map<Id, UserModel>, email: string) {
    exists k :: k in users && users[k].email == email
  }

  /** The `employees` collection of a department (the inverse of `@ManyToOne`). */
  function EmployeesOf(employees: map<Id, Employee>, departmentId: Id): (r: set<Id>)
    ensures forall e :: e in r <==> e in employees && employees[e].departmentId == departmentId
  {
    set e | e in employees && employees[e].departmentId == departmentId
  }

  // ---------------------------------------------------------- invariants

  /** The unique constraint on the department name column. */
  predicate DepartmentNamesUnique(departments: map<Id, Department>) {
    forall a, b :: a in departments && b in departments && departments[a].name == departments[b].name ==> a == b
  }

  /** The unique constraint on the user email column. */
  predicate EmailsUnique(users: map<Id, UserModel>) {
    forall a, b :: a in users && b in users && users[a].email == users[b].email ==> a == b
  }

  /** No two employees of one department share a name: what the employee service's checks aim at. */
  predicate EmployeeNamesUnique(employees: map<Id, Employee>) {
    forall a, b ::
      (a in employees && b in employees && employees[a].name == employees[b].name &&
       employees[a].departmentId == employees[b].departmentId) ==> a == b
  }

  predicate KeysAreIds(users: map<Id, UserModel>) {
    forall k :: k in users ==> users[k].userId == k
  }

  /** Every employee's department exists (the foreign key). */
  predicate EmployeesHaveDepartments(employees: map<Id, Employee>, departments: map<Id, Department>) {
    forall k :: k in employees ==> employees[k].departmentId in departments
  }

  /** What the database schema guarantees of every state. */
  predicate Consistent(t: Tables) {
    && DepartmentNamesUnique(t.departments)
    && EmailsUnique(t.users)
    && KeysAreIds(t.users)
    && EmployeesHaveDepartments(t.employees, t.departments)
  }

  /** `UserRepository.findByEmail`: the unique user with that email, if any. */
  function FindByEmail(users: map<Id, UserModel>, email: string): (r: Option<UserModel>)
    requires EmailsUnique(users)
    ensures r.Some? <==> ExistsByEmail(users, email)
    ensures r.Some? ==> r.value.email == email && exists k :: k in users && users[k] == r.value
  {
    if exists k :: k in users && users[k].email == email then
      var k :| k in users && users[k].email == email; Some(users[k])
    else None
  }

  /** The mutable database the services read and write. */
  class Database {
    var departments: map<Id, Department>
    var employees: map<Id, Employee>
    var users: map<Id, UserModel>
    var photoDirs: map<Id, seq<string>>

    function State(): Tables
      reads this
    {
      Tables(departments, employees, users, photoDirs)
    }

    ghost predicate Valid()
      reads this
    {
      Consistent(State())
    }

    constructor ()
      ensures Valid()
      ensures State() == Tables(map[], map[], map[], map[])
    {
      departments, employees, users, photoDirs := map[], map[], map[], map[];
    }
  }
}
