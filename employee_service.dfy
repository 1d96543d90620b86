/** Employees: create, look up, update and delete (with the stored photo). */
module EmployeeService {

  import opened Wrappers
  import opened Errors
  import opened Store
  import opened Requests
  import PhotoService

  const ALREADY_EXISTS: Exception := EmployeeExists("An employee with this name already exists in the department.")

  function NotFoundError(id: Id): Exception {
    EmployeeNotFound("Employee not found with id: " + id)
  }

  function DepartmentNotFoundError(id: Id): Exception {
    DepartmentNotFound("Department not found with id: " + id)
  }

  /** The row a valid request describes, keeping `photo`. */
  function FromRequest(request: EmployeeRequest, photo: Option<string>): (e: Employee)
    requires request.Valid()
    ensures e.name == request.name.value && e.position == request.position.value
    ensures e.salary == request.salary.value && e.salary > 0.0
    ensures e.departmentId == request.departmentId.value && e.photo == photo
  {
    Employee(request.name.value, request.position.value, request.salary.value, photo, request.departmentId.value)
  }

  // ------------------------------------------------------------- save

  function SaveStep(t: Tables, request: EmployeeRequest, newId: Id): (s: Step<Saved<Employee>>)
    requires request.Valid() && newId !in t.employees
    ensures s.result.Ok? <==>
      (request.departmentId.value in t.departments &&
       !ExistsByNameAndDepartment(t.employees, request.name.value, request.departmentId.value))
    ensures request.departmentId.value !in t.departments ==> s.result == Err(DepartmentNotFoundError(request.departmentId.value))
    ensures request.departmentId.value in t.departments && s.result.Err? ==> s.result.error == ALREADY_EXISTS
    ensures s.result.Err? ==> s.state == t
    ensures s.result.Ok? ==> s.result.value == Saved(newId, FromRequest(request, None))
    ensures s.result.Ok? ==> s.state == t.(employees := t.employees[newId := FromRequest(request, None)])
  {
    var departmentId := request.departmentId.value;
    if departmentId !in t.departments then Step(t, Err(DepartmentNotFoundError(departmentId)))
    else if ExistsByNameAndDepartment(t.employees, request.name.value, departmentId) then Step(t, Err(ALREADY_EXISTS))
    else
      var employee := FromRequest(request, None);
      Step(t.(employees := t.employees[newId := employee]), Ok(Saved(newId, employee)))
  }

  /** Saving keeps the schema consistent and names unique within each department. */
  lemma SavePreservesInvariants(t: Tables, request: EmployeeRequest, newId: Id)
    requires Consistent(t) && EmployeeNamesUnique(t.employees) && request.Valid() && newId !in t.employees
    ensures Consistent(SaveStep(t, request, newId).state)
    ensures EmployeeNamesUnique(SaveStep(t, request, newId).state.employees)
  {
  }

  method Save(db: Database, request: EmployeeRequest, newId: Id) returns (r: Result<Saved<Employee>, Exception>)
    requires db.Valid() && request.Valid() && newId !in db.employees
    modifies db
    ensures db.Valid()
    ensures db.State() == SaveStep(old(db.State()), request, newId).state
    ensures r == SaveStep(old(db.State()), request, newId).result
  {
    var departmentId := request.departmentId.value;
    if departmentId !in db.departments {
      return Err(DepartmentNotFoundError(departmentId));
    }
    if ExistsByNameAndDepartment(db.employees, request.name.value, departmentId) {
      return Err(ALREADY_EXISTS);
    }
    var employee := FromRequest(request, None);
    db.employees := db.employees[newId := employee];
    r := Ok(Saved(newId, employee));
  }

  // ---------------------------------------------------------- look-up

  function FindById(t: Tables, id: Id): (r: Result<Saved<Employee>, Exception>)
    ensures r.Ok? <==> id in t.employees
    ensures r.Err? ==> r.error == NotFoundError(id)
    ensures r.Ok? ==> r.value.id == id && r.value.entity == t.employees[id]
  {
    if id !in t.employees then Err(NotFoundError(id)) else Ok(Saved(id, t.employees[id]))
  }

  // ----------------------------------------------------------- update

  /** `update` as written: the duplicate check is skipped whenever the name is
      unchanged, even when the department changes. */
  function UpdateStep(t: Tables, request: EmployeeRequest, id: Id): (s: Step<Saved<Employee>>)
    requires request.Valid()
    ensures request.departmentId.value !in t.departments ==> s == Step(t, Err(DepartmentNotFoundError(request.departmentId.value)))
    ensures request.departmentId.value in t.departments && id !in t.employees ==> s == Step(t, Err(NotFoundError(id)))
    ensures s.result.Ok? <==>
      (request.departmentId.value in t.departments && id in t.employees &&
       (t.employees[id].name == request.name.value ||
        !ExistsByNameAndDepartment(t.employees, request.name.value, request.departmentId.value)))
    ensures s.result.Err? ==> s.state == t
    ensures request.departmentId.value in t.departments && id in t.employees && s.result.Err? ==> s.result.error == ALREADY_EXISTS
    ensures s.result.Ok? ==> s.result.value == Saved(id, FromRequest(request, t.employees[id].photo))
    ensures s.result.Ok? ==> s.state == t.(employees := t.employees[id := FromRequest(request, t.employees[id].photo)])
  {
    var departmentId := request.departmentId.value;
    if departmentId !in t.departments then Step(t, Err(DepartmentNotFoundError(departmentId)))
    else if id !in t.employees then Step(t, Err(NotFoundError(id)))
    else
      var employee := t.employees[id];
      if ExistsByNameAndDepartment(t.employees, request.name.value, departmentId) && employee.name != request.name.value then
        Step(t, Err(ALREADY_EXISTS))
      else
        var updated := FromRequest(request, employee.photo);
        Step(t.(employees := t.employees[id := updated]), Ok(Saved(id, updated)))
  }

  method Update(db: Database, request: EmployeeRequest, id: Id) returns (r: Result<Saved<Employee>, Exception>)
    requires db.Valid() && request.Valid()
    modifies db
    ensures db.Valid()
    ensures db.State() == UpdateStep(old(db.State()), request, id).state
    ensures r == UpdateStep(old(db.State()), request, id).result
  {
    var departmentId := request.departmentId.value;
    if departmentId !in db.departments {
      return Err(DepartmentNotFoundError(departmentId));
    }
    if id !in db.employees {
      return Err(NotFoundError(id));
    }
    var employee := db.employees[id];
    if ExistsByNameAndDepartment(db.employees, request.name.value, departmentId) && employee.name != request.name.value {
      return Err(ALREADY_EXISTS);
    }
    employee := FromRequest(request, employee.photo);
    db.employees := db.employees[id := employee];
    r := Ok(Saved(id, employee));
  }

  /** Two departments, each with a clerk called Ann. */
  function DuplicateScenario(): Tables {
    Tables(
      map["d1" := Department("Sales"), "d2" := Department("Support")],
      map["e1" := Employee("Ann", "Clerk", 1.0, None, "d1"), "e2" := Employee("Ann", "Clerk", 1.0, None, "d2")],
      map[], map[])
  }

  /** Ann of d1 keeps her name and moves to d2. */
  function MoveToSecond(): EmployeeRequest {
    EmployeeRequest(Some("Ann"), Some("Clerk"), Some(1.0), Some("d2"))
  }

  /** The scenario is a state the schema and the service checks allow. */
  lemma DuplicateScenarioIsConsistent()
    ensures Consistent(DuplicateScenario()) && EmployeeNamesUnique(DuplicateScenario().employees)
  {
    var t := DuplicateScenario();
    assert t.departments.Keys == {"d1", "d2"};
    assert t.employees.Keys == {"e1", "e2"};
  }

  /** The update as written breaks name uniqueness: an employee keeping their
      name but moving into a department that already has that name is accepted. */
  lemma UpdateAllowsDuplicate()
    ensures Consistent(DuplicateScenario()) && EmployeeNamesUnique(DuplicateScenario().employees)
    ensures MoveToSecond().Valid()
    ensures UpdateStep(DuplicateScenario(), MoveToSecond(), "e1").result.Ok?
    ensures !EmployeeNamesUnique(UpdateStep(DuplicateScenario(), MoveToSecond(), "e1").state.employees)
  {
    DuplicateScenarioIsConsistent();
    var t, request := DuplicateScenario(), MoveToSecond();
    assert request.Valid() by {
      assert "Ann"[0] == 'A' && "Clerk"[0] == 'C';
    }
    assert t.employees["e1"].name == request.name.value;
    var s := UpdateStep(t, request, "e1").state;
    assert s.employees == t.employees["e1" := Employee("Ann", "Clerk", 1.0, None, "d2")];
    assert s.employees["e1"].name == s.employees["e2"].name && s.employees["e1"].departmentId == s.employees["e2"].departmentId;
  }

  /** Another employee than `id` in `departmentId` is called `name`. */
  predicate OtherHasName(employees: map<Id, Employee>, id: Id, name: string, departmentId: Id) {
    exists k :: k in employees && k != id && employees[k].name == name && employees[k].departmentId == departmentId
  }

  /** `update` as evidently intended: refused when another employee of the
      target department already has the requested name. */
  function UpdateCheckedStep(t: Tables, request: EmployeeRequest, id: Id): (s: Step<Saved<Employee>>)
    requires request.Valid()
    ensures s.result.Ok? <==>
      (request.departmentId.value in t.departments && id in t.employees &&
       !OtherHasName(t.employees, id, request.name.value, request.departmentId.value))
    ensures s.result.Err? ==> s.state == t
    ensures s.result.Ok? ==> s.state == t.(employees := t.employees[id := FromRequest(request, t.employees[id].photo)])
  {
    var departmentId := request.departmentId.value;
    if departmentId !in t.departments then Step(t, Err(DepartmentNotFoundError(departmentId)))
    else if id !in t.employees then Step(t, Err(NotFoundError(id)))
    else if OtherHasName(t.employees, id, request.name.value, departmentId) then Step(t, Err(ALREADY_EXISTS))
    else
      var updated := FromRequest(request, t.employees[id].photo);
      Step(t.(employees := t.employees[id := updated]), Ok(Saved(id, updated)))
  }

  /** The corrected update keeps the schema consistent and names unique within each department. */
  lemma UpdateCheckedPreservesInvariants(t: Tables, request: EmployeeRequest, id: Id)
    requires Consistent(t) && EmployeeNamesUnique(t.employees) && request.Valid()
    ensures Consistent(UpdateCheckedStep(t, request, id).state)
    ensures EmployeeNamesUnique(UpdateCheckedStep(t, request, id).state.employees)
  {
  }

  /** The correction only adds refusals, and refuses only the duplicates the
      written check lets through. */
  lemma UpdateCheckedAgrees(t: Tables, request: EmployeeRequest, id: Id)
    requires request.Valid()
    ensures UpdateCheckedStep(t, request, id).result.Ok? ==> UpdateCheckedStep(t, request, id) == UpdateStep(t, request, id)
    ensures UpdateStep(t, request, id).result.Ok? && UpdateCheckedStep(t, request, id).result.Err? ==>
      id in t.employees && t.employees[id].name == request.name.value &&
      OtherHasName(t.employees, id, request.name.value, request.departmentId.value)
  {
  }

  // ----------------------------------------------------------- delete

  /** `delete`: the photo, if any, is deleted first; a failure there keeps the row. */
  function DeleteStep(t: Tables, id: Id): (s: Step<()>)
    ensures s.result.Ok? <==>
      (id in t.employees && (t.employees[id].photo.Some? ==> id in t.photoDirs && |t.photoDirs[id]| <= 1))
    ensures id !in t.employees ==> s == Step(t, Err(NotFoundError(id)))
    ensures s.result.Err? ==> s.state.employees == t.employees
    ensures s.result.Ok? ==> s.state.employees == t.employees - {id}
    ensures s.state.departments == t.departments && s.state.users == t.users
    ensures s.result.Ok? && t.employees[id].photo.Some? ==> PhotoService.FilesOf(s.state, id) == []
    ensures id in t.employees && t.employees[id].photo.None? ==> s.state.photoDirs == t.photoDirs
    ensures id in t.employees && t.employees[id].photo.Some? ==>
      s.state.photoDirs == PhotoService.DeletePhotoStep(t, id).state.photoDirs
    ensures id in t.employees && t.employees[id].photo.Some? && s.result.Err? ==> s == PhotoService.DeletePhotoStep(t, id)
  {
    if id !in t.employees then Step(t, Err(NotFoundError(id)))
    else
      var d := if t.employees[id].photo.Some? then PhotoService.DeletePhotoStep(t, id) else Step(t, Ok(()));
      if d.result.Err? then d
      else Step(d.state.(employees := d.state.employees - {id}), Ok(()))
  }

  method Delete(db: Database, id: Id) returns (r: Result<(), Exception>)
    requires db.Valid()
    modifies db
    ensures db.Valid()
    ensures db.State() == DeleteStep(old(db.State()), id).state
    ensures r == DeleteStep(old(db.State()), id).result
  {
    if id !in db.employees {
      return Err(NotFoundError(id));
    }
    var employee := db.employees[id];
    if employee.photo.Some? {
      var deleted := PhotoService.DeletePhoto(db, id);
      if deleted.Err? {
        return deleted;
      }
    }
    db.employees := db.employees - {id};
    r := Ok(());
  }
}
