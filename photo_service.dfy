/** Photo storage: one directory per employee under the upload root, holding the
    stored file, and the photo URL kept on the employee row. */
module PhotoService {

  import opened Wrappers
  import opened Errors
  import opened JavaStrings
  import opened Store

  /** The content types a photo upload may declare. */
  const ACCEPTED_TYPES: seq<string> := ["image/png", "image/jpeg", "image/jpg"]

  /** An uploaded multipart file; either header may be absent. */
  datatype MultipartFile = MultipartFile(contentType: Option<string>, originalFilename: Option<string>)

  function EmployeeNotFoundError(employeeId: Id): Exception {
    EmployeeNotFound("Employee not found with id: " + employeeId)
  }

  /** The files of an employee's directory, or none when it does not exist. */
  function FilesOf(t: Tables, employeeId: Id): seq<string> {
    if employeeId in t.photoDirs then t.photoDirs[employeeId] else []
  }

  /** Every change to the database tables and to the other employees' directories. */
  predicate OnlyDirectoryOf(t: Tables, s: Tables, employeeId: Id) {
    && s.departments == t.departments
    && s.users == t.users
    && s.employees.Keys == t.employees.Keys
    && (forall k :: k in t.photoDirs && k != employeeId ==> k in s.photoDirs && s.photoDirs[k] == t.photoDirs[k])
    && (forall k :: k in s.photoDirs && k != employeeId ==> k in t.photoDirs)
  }

  // ---------------------------------------------------------- deletion

  /** `deletePhoto`: the directory walk finds the first regular file; it is
      deleted and then the directory, which fails when other files remain.
      The photo URL is cleared only when all of that succeeded. */
  function DeletePhotoStep(t: Tables, employeeId: Id): (s: Step<()>)
    ensures s.result.Ok? <==> employeeId in t.employees && employeeId in t.photoDirs && |t.photoDirs[employeeId]| <= 1
    ensures employeeId !in t.employees ==> s.result == Err(EmployeeNotFoundError(employeeId))
    ensures employeeId in t.employees && employeeId !in t.photoDirs ==> s.result == Err(FileTreeWalk)
    ensures employeeId in t.employees && employeeId in t.photoDirs && |t.photoDirs[employeeId]| >= 2 ==>
      s == Step(t.(photoDirs := t.photoDirs[employeeId := t.photoDirs[employeeId][1..]]), Err(FileDeletion))
    ensures OnlyDirectoryOf(t, s.state, employeeId)
    ensures s.result.Err? ==> s.state.employees == t.employees
    ensures s.result.Ok? ==> s.state.employees == t.employees[employeeId := t.employees[employeeId].(photo := None)]
    ensures s.result.Ok? ==> FilesOf(s.state, employeeId) == []
  {
    if employeeId !in t.employees then Step(t, Err(EmployeeNotFoundError(employeeId)))
    else if employeeId !in t.photoDirs then Step(t, Err(FileTreeWalk))
    else
      var files := t.photoDirs[employeeId];
      var cleared := t.(employees := t.employees[employeeId := t.employees[employeeId].(photo := None)]);
      if |files| == 0 then Step(cleared, Ok(()))
      else if |files| == 1 then Step(cleared.(photoDirs := t.photoDirs - {employeeId}), Ok(()))
      else Step(t.(photoDirs := t.photoDirs[employeeId := files[1..]]), Err(FileDeletion))
  }

  /** Deleting a photo touches neither departments, users nor department links. */
  lemma DeletePhotoKeepsConsistency(t: Tables, employeeId: Id)
    requires Consistent(t)
    ensures Consistent(DeletePhotoStep(t, employeeId).state)
  {
    var s := DeletePhotoStep(t, employeeId).state;
    assert forall k :: k in s.employees ==> s.employees[k].departmentId == t.employees[k].departmentId;
  }

  method DeletePhoto(db: Database, employeeId: Id) returns (r: Result<(), Exception>)
    requires db.Valid()
    modifies db
    ensures db.Valid()
    ensures db.State() == DeletePhotoStep(old(db.State()), employeeId).state
    ensures r == DeletePhotoStep(old(db.State()), employeeId).result
  {
    DeletePhotoKeepsConsistency(db.State(), employeeId);
    if employeeId !in db.employees {
      return Err(EmployeeNotFoundError(employeeId));
    }
    var employee := db.employees[employeeId];
    if employeeId !in db.photoDirs {
      return Err(FileTreeWalk);
    }
    var files := db.photoDirs[employeeId];
    if |files| > 1 {
      // the first file goes, then the directory cannot be removed
      db.photoDirs := db.photoDirs[employeeId := files[1..]];
      return Err(FileDeletion);
    } else if |files| == 1 {
      db.photoDirs := db.photoDirs - {employeeId};
    }
    db.employees := db.employees[employeeId := employee.(photo := None)];
    r := Ok(());
  }

  // ----------------------------------------------------------- loading

  /** `loadPhotoAsResource`: the first regular file in the employee's directory. */
  function LoadPhoto(t: Tables, employeeId: Id): (r: Result<string, Exception>)
    ensures r.Ok? <==> employeeId in t.employees && employeeId in t.photoDirs && t.photoDirs[employeeId] != []
    ensures r.Ok? ==> r.value == t.photoDirs[employeeId][0]
    ensures employeeId !in t.employees ==> r == Err(EmployeeNotFoundError(employeeId))
    ensures employeeId in t.employees && employeeId !in t.photoDirs ==> r == Err(FileTreeWalk)
    ensures employeeId in t.employees && employeeId in t.photoDirs && t.photoDirs[employeeId] == [] ==>
      r == Err(FileNotFoundOrUnreadable("No photo file found for employee: " + employeeId))
  {
    if employeeId !in t.employees then Err(EmployeeNotFoundError(employeeId))
    else if employeeId !in t.photoDirs then Err(FileTreeWalk)
    else if t.photoDirs[employeeId] == [] then
      Err(FileNotFoundOrUnreadable("No photo file found for employee: " + employeeId))
    else Ok(t.photoDirs[employeeId][0])
  }

  /** After a successful deletion there is no photo left to load. */
  lemma DeletedPhotoIsGone(t: Tables, employeeId: Id)
    requires DeletePhotoStep(t, employeeId).result.Ok?
    ensures LoadPhoto(DeletePhotoStep(t, employeeId).state, employeeId).Err?
    ensures DeletePhotoStep(t, employeeId).state.employees[employeeId].photo == None
  {
  }

  // ----------------------------------------------------------- storing

  /** The stored file name: every run of whitespace becomes one `-`. */
  function StoredFilename(originalFilename: string): (r: string)
    ensures r == ReplaceSpaceRuns(originalFilename)
    ensures NoRegexSpace(r)
    ensures |r| <= |originalFilename|
  {
    ReplaceSpaceRuns(originalFilename)
  }

  /** Writing a file into a directory: an existing file of that name is replaced. */
  function WriteFile(files: seq<string>, filename: string): (r: seq<string>)
    ensures filename in r
    ensures forall f :: f in files ==> f in r
    ensures forall f :: f in r ==> f in files || f == filename
    ensures files != [] ==> r[0] == files[0]
  {
    if filename in files then files else files + [filename]
  }

  /** The upload passes every check `storePhoto` makes before touching the disk. */
  predicate Acceptable(t: Tables, employeeId: Id, file: MultipartFile) {
    && employeeId in t.employees
    && file.contentType.Some? && file.contentType.value in ACCEPTED_TYPES
    && file.originalFilename.Some?
    && !Contains(StoredFilename(file.originalFilename.value), "..")
  }

  /** `storePhoto`: the checks in order, then the old photo is deleted and the file written. */
  function StorePhotoStep(t: Tables, employeeId: Id, file: MultipartFile): (s: Step<()>)
    ensures employeeId !in t.employees ==> s == Step(t, Err(EmployeeNotFoundError(employeeId)))
    ensures employeeId in t.employees && file.contentType.None? ==> s == Step(t, Err(NullPointer))
    ensures employeeId in t.employees && file.contentType.Some? && file.contentType.value !in ACCEPTED_TYPES ==>
      s == Step(t, Err(UnsupportedFile("Unsupported file type.")))
    ensures (employeeId in t.employees && file.contentType.Some? && file.contentType.value in ACCEPTED_TYPES &&
             file.originalFilename.None?) ==> s == Step(t, Err(NullPointer))
    ensures (employeeId in t.employees && file.contentType.Some? && file.contentType.value in ACCEPTED_TYPES &&
             file.originalFilename.Some? && Contains(StoredFilename(file.originalFilename.value), "..")) ==>
      s == Step(t, Err(UnsupportedFile("Filename contains invalid path sequence: " + StoredFilename(file.originalFilename.value))))
    ensures s.result.Ok? <==>
      Acceptable(t, employeeId, file) && (t.employees[employeeId].photo.None? || DeletePhotoStep(t, employeeId).result.Ok?)
    ensures Acceptable(t, employeeId, file) && t.employees[employeeId].photo.Some? && s.result.Err? ==>
      s == DeletePhotoStep(t, employeeId)
    ensures Acceptable(t, employeeId, file) && t.employees[employeeId].photo.None? ==>
      s.state.employees == t.employees &&
      FilesOf(s.state, employeeId) == WriteFile(FilesOf(t, employeeId), StoredFilename(file.originalFilename.value))
    ensures Acceptable(t, employeeId, file) && t.employees[employeeId].photo.Some? && s.result.Ok? ==>
      s.state.employees == t.employees[employeeId := t.employees[employeeId].(photo := None)] &&
      FilesOf(s.state, employeeId) == [StoredFilename(file.originalFilename.value)]
    ensures s.result.Ok? ==> employeeId in s.state.photoDirs
    ensures OnlyDirectoryOf(t, s.state, employeeId)
    ensures forall k :: k in s.state.employees && k != employeeId ==> s.state.employees[k] == t.employees[k]
  {
    if employeeId !in t.employees then Step(t, Err(EmployeeNotFoundError(employeeId)))
    else if file.contentType.None? then Step(t, Err(NullPointer))
    else if file.contentType.value !in ACCEPTED_TYPES then Step(t, Err(UnsupportedFile("Unsupported file type.")))
    else if file.originalFilename.None? then Step(t, Err(NullPointer))
    else
      var filename := StoredFilename(file.originalFilename.value);
      if Contains(filename, "..") then
        Step(t, Err(UnsupportedFile("Filename contains invalid path sequence: " + filename)))
      else
        var d := if t.employees[employeeId].photo.Some? then DeletePhotoStep(t, employeeId) else Step(t, Ok(()));
        if d.result.Err? then d
        else Step(d.state.(photoDirs := d.state.photoDirs[employeeId := WriteFile(FilesOf(d.state, employeeId), filename)]), Ok(()))
  }

  method StorePhoto(db: Database, employeeId: Id, file: MultipartFile) returns (r: Result<(), Exception>)
    requires db.Valid()
    modifies db
    ensures db.Valid()
    ensures db.State() == StorePhotoStep(old(db.State()), employeeId, file).state
    ensures r == StorePhotoStep(old(db.State()), employeeId, file).result
  {
    if employeeId !in db.employees {
      return Err(EmployeeNotFoundError(employeeId));
    }
    var employee := db.employees[employeeId];
    if file.contentType.None? {
      return Err(NullPointer);
    }
    if file.contentType.value !in ACCEPTED_TYPES {
      return Err(UnsupportedFile("Unsupported file type."));
    }
    if file.originalFilename.None? {
      return Err(NullPointer);
    }
    var filename := StoredFilename(file.originalFilename.value);
    if Contains(filename, "..") {
      return Err(UnsupportedFile("Filename contains invalid path sequence: " + filename));
    }
    if employee.photo.Some? {
      var deleted := DeletePhoto(db, employeeId);
      if deleted.Err? {
        return deleted;
      }
    }
    var files := if employeeId in db.photoDirs then db.photoDirs[employeeId] else [];
    db.photoDirs := db.photoDirs[employeeId := WriteFile(files, filename)];
    r := Ok(());
  }

  /** A photo stored into a directory that is empty, absent, or holds only the
      photo being replaced is the one loaded afterwards. */
  lemma StoredPhotoIsLoaded(t: Tables, employeeId: Id, file: MultipartFile)
    requires StorePhotoStep(t, employeeId, file).result.Ok?
    requires FilesOf(t, employeeId) == [] || (t.employees[employeeId].photo.Some? && |FilesOf(t, employeeId)| == 1)
    ensures LoadPhoto(StorePhotoStep(t, employeeId, file).state, employeeId) == Ok(StoredFilename(file.originalFilename.value))
  {
  }

  // ------------------------------------------------------- association

  /** `associatePhotoToEmployee`: records the photo URL on the employee. */
  function AssociateStep(t: Tables, employeeId: Id, photoUrl: string): (s: Step<Saved<Employee>>)
    ensures s.result.Ok? <==> employeeId in t.employees
    ensures s.result.Err? ==> s == Step(t, Err(EmployeeNotFoundError(employeeId)))
    ensures s.result.Ok? ==> s.result.value.id == employeeId && s.result.value.entity.photo == Some(photoUrl)
    ensures s.result.Ok? ==> s.state == t.(employees := t.employees[employeeId := s.result.value.entity])
    ensures s.result.Ok? ==> s.result.value.entity == t.employees[employeeId].(photo := Some(photoUrl))
  {
    if employeeId !in t.employees then Step(t, Err(EmployeeNotFoundError(employeeId)))
    else
      var employee := t.employees[employeeId].(photo := Some(photoUrl));
      Step(t.(employees := t.employees[employeeId := employee]), Ok(Saved(employeeId, employee)))
  }

  method AssociatePhotoToEmployee(db: Database, employeeId: Id, photoUrl: string) returns (r: Result<Saved<Employee>, Exception>)
    requires db.Valid()
    modifies db
    ensures db.Valid()
    ensures db.State() == AssociateStep(old(db.State()), employeeId, photoUrl).state
    ensures r == AssociateStep(old(db.State()), employeeId, photoUrl).result
  {
    if employeeId !in db.employees {
      return Err(EmployeeNotFoundError(employeeId));
    }
    var employee := db.employees[employeeId];
    employee := employee.(photo := Some(photoUrl));
    db.employees := db.employees[employeeId := employee];
    r := Ok(Saved(employeeId, employee));
  }
}
