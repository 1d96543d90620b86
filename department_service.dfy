/** Departments: create, look up, rename, and delete together with their employees. */
module DepartmentService {

  import opened Wrappers
  import opened Errors
  import opened Store
  import opened Requests
  import PhotoService

  datatype DepartmentView = DepartmentView(departmentId: Id, name: string)

  /** A department with its employees. */
  datatype DepartmentDetails = DepartmentDetails(departmentId: Id, name: string, employees: map<Id, Employee>)

  const ALREADY_EXISTS: Exception := DepartmentExists("Department already exists.")

  function NotFoundError(id: Id): Exception {
    DepartmentNotFound("Department not found with id: " + id)
  }

  /** The employees of department `id`, with their rows. */
  function Members(employees: map<Id, Employee>, id: Id): (r: map<Id, Employee>)
    ensures r.Keys == EmployeesOf(employees, id)
    ensures forall e :: e in r ==> r[e] == employees[e]
  {
    map e | e in employees && employees[e].departmentId == id :: employees[e]
  }

  /** The employee rows that do not belong to department `id`. */
  function Others(employees: map<Id, Employee>, id: Id): (r: map<Id, Employee>)
    ensures forall e :: e in r <==> e in employees && employees[e].departmentId != id
    ensures forall e :: e in r ==> r[e] == employees[e]
  {
    map e | e in employees && employees[e].departmentId != id :: employees[e]
  }

  // ------------------------------------------------------------- save

  function SaveStep(t: Tables, request: DepartmentRequest, newId: Id): (s: Step<DepartmentView>)
    requires request.Valid() && newId !in t.departments
    ensures s.result.Err? <==> ExistsByName(t.departments, request.name.value)
    ensures s.result.Err? ==> s == Step(t, Err(ALREADY_EXISTS))
    ensures s.result.Ok? ==> s.result.value == DepartmentView(newId, request.name.value)
    ensures s.result.Ok? ==> s.state == t.(departments := t.departments[newId := Department(request.name.value)])
  {
    var name := request.name.value;
    if ExistsByName(t.departments, name) then Step(t, Err(ALREADY_EXISTS))
    else Step(t.(departments := t.departments[newId := Department(name)]), Ok(DepartmentView(newId, name)))
  }

  /** Saving keeps department names unique and leaves every other table alone. */
  lemma SavePreservesConsistency(t: Tables, request: DepartmentRequest, newId: Id)
    requires Consistent(t) && request.Valid() && newId !in t.departments
    ensures Consistent(SaveStep(t, request, newId).state)
  {
  }

  method Save(db: Database, request: DepartmentRequest, newId: Id) returns (r: Result<DepartmentView, Exception>)
    requires db.Valid() && request.Valid() && newId !in db.departments
    modifies db
    ensures db.Valid()
    ensures db.State() == SaveStep(old(db.State()), request, newId).state
    ensures r == SaveStep(old(db.State()), request, newId).result
  {
    SavePreservesConsistency(db.State(), request, newId);
    var name := request.name.value;
    if ExistsByName(db.departments, name) {
      return Err(ALREADY_EXISTS);
    }
    var department := Department(name);
    db.departments := db.departments[newId := department];
    r := Ok(DepartmentView(newId, name));
  }

  // ---------------------------------------------------------- look-up

  function FindById(t: Tables, id: Id): (r: Result<DepartmentDetails, Exception>)
    ensures r.Ok? <==> id in t.departments
    ensures r.Err? ==> r.error == NotFoundError(id)
    ensures r.Ok? ==> r.value.departmentId == id && r.value.name == t.departments[id].name
    ensures r.Ok? ==> r.value.employees.Keys == EmployeesOf(t.employees, id)
    ensures r.Ok? ==> forall e :: e in r.value.employees ==> r.value.employees[e] == t.employees[e]
  {
    if id !in t.departments then Err(NotFoundError(id))
    else Ok(DepartmentDetails(id, t.departments[id].name, Members(t.employees, id)))
  }

  // ----------------------------------------------------------- update

  /** Renaming is refused only when another department already has the new name. */
  function UpdateStep(t: Tables, request: DepartmentRequest, id: Id): (s: Step<DepartmentDetails>)
    requires request.Valid()
    ensures id !in t.departments ==> s == Step(t, Err(NotFoundError(id)))
    ensures s.result.Ok? <==>
      (id in t.departments && (t.departments[id].name == request.name.value || !ExistsByName(t.departments, request.name.value)))
    ensures s.result.Err? ==> s.state == t
    ensures id in t.departments && s.result.Err? ==> s.result.error == ALREADY_EXISTS
    ensures s.result.Ok? ==> s.state == t.(departments := t.departments[id := Department(request.name.value)])
    ensures s.result.Ok? ==> s.result == FindById(s.state, id)
  {
    if id !in t.departments then Step(t, Err(NotFoundError(id)))
    else
      var name := request.name.value;
      if ExistsByName(t.departments, name) && t.departments[id].name != name then Step(t, Err(ALREADY_EXISTS))
      else
        var s := t.(departments := t.departments[id := t.departments[id].(name := name)]);
        Step(s, FindById(s, id))
  }

  /** Renaming a department to its own name always succeeds, and renaming
      keeps department names unique. */
  lemma UpdatePreservesConsistency(t: Tables, request: DepartmentRequest, id: Id)
    requires Consistent(t) && request.Valid()
    ensures id in t.departments && t.departments[id].name == request.name.value ==> UpdateStep(t, request, id).result.Ok?
    ensures Consistent(UpdateStep(t, request, id).state)
  {
  }

  method Update(db: Database, request: DepartmentRequest, id: Id) returns (r: Result<DepartmentDetails, Exception>)
    requires db.Valid() && request.Valid()
    modifies db
    ensures db.Valid()
    ensures db.State() == UpdateStep(old(db.State()), request, id).state
    ensures r == UpdateStep(old(db.State()), request, id).result
  {
    UpdatePreservesConsistency(db.State(), request, id);
    if id !in db.departments {
      return Err(NotFoundError(id));
    }
    var department := db.departments[id];
    var name := request.name.value;
    if ExistsByName(db.departments, name) && department.name != name {
      return Err(ALREADY_EXISTS);
    }
    department := department.(name := name);
    db.departments := db.departments[id := department];
    r := Ok(DepartmentDetails(id, name, Members(db.employees, id)));
  }

  // ----------------------------------------------------------- delete

  /** Deleting the photo of every employee in `ids` that has one succeeds. */
  predicate PhotosDeletable(t: Tables, ids: set<Id>)
    requires ids <= t.employees.Keys
  {
    forall e :: e in ids && t.employees[e].photo.Some? ==> e in t.photoDirs && |t.photoDirs[e]| <= 1
  }

  /** The directory of `k` is as it was. */
  predicate Untouched(before: Tables, after: Tables, k: Id) {
    (k in after.photoDirs <==> k in before.photoDirs) && PhotoService.FilesOf(after, k) == PhotoService.FilesOf(before, k)
  }

  /** The directory of `e` after its photo, if any, was deleted. */
  predicate PhotoCleared(before: Tables, after: Tables, e: Id)
    requires e in before.employees
  {
    if before.employees[e].photo.Some? then PhotoService.FilesOf(after, e) == [] else Untouched(before, after, e)
  }

  /** Where the deletion loop stands: the photos of the members already
      visited are gone and nothing else has changed. */
  ghost predicate Progress(before: Tables, now: Tables, id: Id, todo: set<Id>) {
    var members := EmployeesOf(before.employees, id);
    && todo <= members
    && now.departments == before.departments && now.users == before.users
    && now.employees.Keys == before.employees.Keys
    && (forall k :: k in now.employees ==> now.employees[k].departmentId == before.employees[k].departmentId)
    && (forall k :: k in now.employees && (k !in members || k in todo) ==> now.employees[k] == before.employees[k])
    && (forall k :: k !in members || k in todo ==> Untouched(before, now, k))
    && PhotosDeletable(before, members - todo)
    && (forall e :: e in members - todo ==> PhotoCleared(before, now, e))
  }

  lemma ProgressStart(before: Tables, id: Id)
    ensures Progress(before, before, id, EmployeesOf(before.employees, id))
  {
    var members := EmployeesOf(before.employees, id);
    assert members - members == {};
  }

  /** Visiting a member without a photo changes nothing. */
  lemma ProgressSkip(before: Tables, now: Tables, id: Id, todo: set<Id>, e: Id)
    requires Progress(before, now, id, todo) && e in todo && now.employees[e].photo.None?
    ensures Progress(before, now, id, todo - {e})
  {
    var members := EmployeesOf(before.employees, id);
    assert members - (todo - {e}) == (members - todo) + {e};
  }

  /** Untouched directories compose. */
  lemma UntouchedTrans(a: Tables, b: Tables, c: Tables, k: Id)
    requires Untouched(a, b, k) && Untouched(b, c, k)
    ensures Untouched(a, c, k)
  {
  }

  /** A successful photo deletion advances the loop. */
  lemma ProgressDeleteOk(before: Tables, now: Tables, id: Id, todo: set<Id>, e: Id)
    requires Progress(before, now, id, todo) && e in todo && now.employees[e].photo.Some?
    requires PhotoService.DeletePhotoStep(now, e).result.Ok?
    ensures Progress(before, PhotoService.DeletePhotoStep(now, e).state, id, todo - {e})
  {
    var members := EmployeesOf(before.employees, id);
    var s := PhotoService.DeletePhotoStep(now, e).state;
    assert PhotoService.OnlyDirectoryOf(now, s, e);
    assert members - (todo - {e}) == (members - todo) + {e};
    assert now.employees[e] == before.employees[e];
    assert Untouched(before, now, e);
    forall k | k != e
      ensures Untouched(now, s, k)
    {
    }
    forall k | k !in members || k in todo - {e}
      ensures Untouched(before, s, k)
    {
      UntouchedTrans(before, now, s, k);
    }
    forall k | k in members - (todo - {e})
      ensures PhotoCleared(before, s, k)
    {
      if k != e {
        assert PhotoCleared(before, now, k);
        if before.employees[k].photo.None? {
          UntouchedTrans(before, now, s, k);
        }
      }
    }
  }

  /** A failed photo deletion fails exactly because that member's photo cannot
      be deleted, and touches no other directory. */
  lemma ProgressDeleteErr(before: Tables, now: Tables, id: Id, todo: set<Id>, e: Id)
    requires Progress(before, now, id, todo) && e in todo && now.employees[e].photo.Some?
    requires PhotoService.DeletePhotoStep(now, e).result.Err?
    ensures PhotoService.DeletePhotoStep(now, e).result.error in {FileTreeWalk, FileDeletion}
    ensures !PhotosDeletable(before, EmployeesOf(before.employees, id))
    ensures forall k :: k != e ==> Untouched(now, PhotoService.DeletePhotoStep(now, e).state, k)
  {
    assert now.employees[e] == before.employees[e];
    assert Untouched(before, now, e);
  }

  /** After a failed deletion, directories outside the department are as they were. */
  lemma RollbackKeepsOthers(before: Tables, now: Tables, after: Tables, id: Id, todo: set<Id>, e: Id)
    requires Progress(before, now, id, todo) && e in todo
    requires forall k :: k != e ==> Untouched(now, after, k)
    ensures forall k :: k !in EmployeesOf(before.employees, id) ==> Untouched(before, after, k)
  {
    forall k | k !in EmployeesOf(before.employees, id)
      ensures Untouched(before, after, k)
    {
      UntouchedTrans(before, now, after, k);
    }
  }

  /** The loop finished: every member's photo was deletable and is gone. */
  lemma ProgressDone(before: Tables, now: Tables, id: Id)
    requires Progress(before, now, id, {})
    ensures PhotosDeletable(before, EmployeesOf(before.employees, id))
    ensures forall e :: e in EmployeesOf(before.employees, id) ==> PhotoCleared(before, now, e)
    ensures forall k :: k !in EmployeesOf(before.employees, id) ==> Untouched(before, now, k)
  {
    var members := EmployeesOf(before.employees, id);
    assert members - {} == members;
  }

  /** The `forEach` of `delete`: the photo of every member that has one is
      deleted, stopping at the first failure. */
  method DeleteMemberPhotos(db: Database, id: Id) returns (r: Result<(), Exception>)
    requires db.Valid()
    modifies db
    ensures db.Valid()
    ensures db.departments == old(db.departments) && db.users == old(db.users)
    ensures r.Ok? <==> PhotosDeletable(old(db.State()), EmployeesOf(old(db.employees), id))
    ensures r.Ok? ==> forall e :: e in EmployeesOf(old(db.employees), id) ==> PhotoCleared(old(db.State()), db.State(), e)
    ensures r.Err? ==> r.error in {FileTreeWalk, FileDeletion}
    ensures forall k :: k !in EmployeesOf(old(db.employees), id) ==> Untouched(old(db.State()), db.State(), k)
  {
    ghost var before := db.State();
    var todo := EmployeesOf(db.employees, id);
    ProgressStart(before, id);
    while todo != {}
      invariant db.Valid()
      invariant Progress(before, db.State(), id, todo)
      decreases todo
    {
      var e :| e in todo;
      if db.employees[e].photo.None? {
        ProgressSkip(before, db.State(), id, todo, e);
      } else {
        ghost var now := db.State();
        r := PhotoService.DeletePhoto(db, e);
        if r.Err? {
          ProgressDeleteErr(before, now, id, todo, e);
          RollbackKeepsOthers(before, now, db.State(), id, todo, e);
          return;
        }
        ProgressDeleteOk(before, now, id, todo, e);
      }
      todo := todo - {e};
    }
    ProgressDone(before, db.State(), id);
    r := Ok(());
  }

  /** `delete`: each employee's photo is deleted, then the department and, by
      orphan removal, its employees. A failure rolls the tables back; files
      already deleted stay deleted. */
  method Delete(db: Database, id: Id) returns (r: Result<(), Exception>)
    requires db.Valid()
    modifies db
    ensures db.Valid()
    ensures r.Ok? <==> id in old(db.departments) && PhotosDeletable(old(db.State()), EmployeesOf(old(db.employees), id))
    ensures id !in old(db.departments) ==> r == Err(NotFoundError(id))
    ensures id in old(db.departments) && r.Err? ==> r.error == FileTreeWalk || r.error == FileDeletion
    ensures db.users == old(db.users)
    ensures r.Err? ==> db.departments == old(db.departments) && db.employees == old(db.employees)
    ensures r.Ok? ==> db.departments == old(db.departments) - {id} && db.employees == Others(old(db.employees), id)
    ensures r.Ok? ==> forall e :: e in EmployeesOf(old(db.employees), id) ==> PhotoCleared(old(db.State()), db.State(), e)
    ensures forall k :: k !in EmployeesOf(old(db.employees), id) ==> Untouched(old(db.State()), db.State(), k)
  {
    if id !in db.departments {
      return Err(NotFoundError(id));
    }
    ghost var before := db.State();
    var departments, employees := db.departments, db.employees;
    r := DeleteMemberPhotos(db, id);
    if r.Err? {
      db.departments, db.employees := departments, employees;
      return;
    }
    db.employees := Others(employees, id);
    db.departments := departments - {id};
  }
}
