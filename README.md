# staff_manager-api in Dafny

A model of the core of **staff_manager-api**, a Spring Boot REST service that manages
departments, the employees in them (each with an optional photo kept on disk) and the
user accounts that may use the API. Access is guarded by JWT: a short-lived *access*
token travels in the `Authorization: Bearer …` header, and a long-lived *refresh* token
travels in an HTTP-only `refresh-token` cookie.

What is modelled, module by module:

| module | file | models |
|---|---|---|
| `Wrappers` | wrappers.dfy | `Option`, `Result` and `Outcome` (success or an exception) |
| `Errors` | errors.dfy | the application's exceptions, and the JWT verification failures |
| `TokenTypes` | token_type.dfy | the `TokenType` enum and the claim string each constant writes |
| `JavaStrings` | java_strings.dfy | the `java.lang.String` operations the core relies on: `trim()`, `split(" ")` (trailing empty strings dropped), `startsWith`, `contains`, `replaceAll("\\s+", "-")` |
| `Users` | user_model.dfy | `UserModel`: authorities derived from the role, the user name being the e-mail, equality by id |
| `JwtService` | jwt_service.dfy | issuing and validating access and refresh tokens, expiry dates, the expiry in milliseconds |
| `Requests` | requests.dfy | the request records: their compact constructors trim, and their bean-validation constraints |
| `Store` | store.dfy | the JPA repositories as maps keyed by id, the queries the services use, the invariants the unique constraints give, and the `Database` object holding the tables |
| `PhotoService` | photo_service.dfy | storing, loading, deleting and associating employee photos (one directory per employee) |
| `DepartmentService` | department_service.dfy | save, find, update and delete (the delete cascades to employees and their photos) |
| `EmployeeService` | employee_service.dfy | save, find, update and delete of employees |
| `UserService` | user_service.dfy | register, find, update and delete users |
| `DefaultAdmin` | default_admin.dfy | the start-up runner that seeds the default administrator |
| `SecurityFilter` | security_filter.dfy | the per-request filter that extracts the tokens and authenticates the caller |
| `ExceptionHandler` | exception_handler.dfy | the global mapping of exceptions to HTTP status and `ApiError` body |
| `Controllers` | controllers.dfy | the role each endpoint demands, the success status, the photo upload and `/me` |
| `AuthController` | auth_controller.dfy | login, refresh-token and logout with their cookie and token response |

The services follow one pattern.
- A pure function `XStep(tables, …)` returns the new tables together with the result or the exception.
- A method `X(db, …)` on the mutable `Store.Database` is proved to leave exactly that state and return exactly that result.
- Lemmas about the `Step` function prove what the operation promises: the invariant it keeps and what it finds afterwards.

`@Transactional` is modelled as follows.
- An exception restores the database tables.
- Files already deleted stay deleted.

Where the code diverges from its own evident intent, the model keeps the code as
written and adds a corrected twin. See "## Findings".

Salaries are `BigDecimal` in the source. They are modelled as `real`, because both are exact decimal arithmetic without rounding in the operations used.

Paths in the table below are relative to the repository root. All Java paths are under
`src/main/java/com/api/staff_manager/`.

## Model

| member | source | states |
|---|---|---|
| `TokenTypes.ClaimValue` | src/main/java/com/api/staff_manager/enums/TokenType.java:7-14 | `ACCESS` writes "access_token" and `REFRESH` writes "refresh_token", each iff it is that constant |
| `TokenTypes.KindOf` | src/main/java/com/api/staff_manager/enums/TokenType.java:7-14 | reading a claim back yields a kind only for one of the two claim strings, and that kind writes the claim |
| `TokenTypes.ClaimValueInjective` | src/main/java/com/api/staff_manager/enums/TokenType.java:7 | the two token types write different claims |
| `TokenTypes.KindOfClaimValue` | src/main/java/com/api/staff_manager/enums/TokenType.java:12-14 | reading back a written claim recovers the token type |
| `JavaStrings.Trim` | src/main/java/com/api/staff_manager/dtos/requests/DepartmentRequest.java:7 | `trim()` yields a contiguous slice of the input that neither starts nor ends with a character ≤ U+0020 |
| `JavaStrings.TrimIdempotent` | src/main/java/com/api/staff_manager/dtos/requests/DepartmentRequest.java:7 | trimming twice equals trimming once |
| `JavaStrings.TrimAt` | src/main/java/com/api/staff_manager/dtos/requests/DepartmentRequest.java:7 | the trimmed string is fixed by its cut points: trimmable characters before and after, and a non-trimmable character at each end of a non-empty middle |
| `JavaStrings.TrimEmpty` | src/main/java/com/api/staff_manager/dtos/requests/DepartmentRequest.java:7 | trim yields "" exactly when every character is ≤ U+0020, which is what `@NotBlank` then rejects |
| `JavaStrings.TrimPadding` | src/main/java/com/api/staff_manager/dtos/requests/LoginRequest.java:9 | padding added around a trimmed string is removed again by trim |
| `JavaStrings.FirstPieceWithoutSpace` | src/main/java/com/api/staff_manager/configs/security/SecurityFilter.java:60 | a string without a space is its own first `split(" ")` piece |
| `JavaStrings.SplitAfterWord` | src/main/java/com/api/staff_manager/configs/security/SecurityFilter.java:60 | `split(" ")` of "word t" has a second element iff t holds a non-space character, and that element is t's first space-free piece |
| `JavaStrings.ReplaceSpaceRuns` | src/main/java/com/api/staff_manager/services/impl/PhotoServiceImpl.java:52 | `replaceAll("\\s+", "-")` leaves no whitespace and never lengthens the string; `ReplaceSpaceRunsJoin` pins what it writes |
| `JavaStrings.ReplaceSpaceRunsIdentity` | src/main/java/com/api/staff_manager/services/impl/PhotoServiceImpl.java:52 | a name without whitespace is unchanged by the replacement |
| `JavaStrings.ReplaceSpaceRunsJoin` | src/main/java/com/api/staff_manager/services/impl/PhotoServiceImpl.java:52 | a maximal run of whitespace between two texts becomes exactly one `-`, and the texts on either side are rewritten on their own |
| `JavaStrings.ReplaceSpaceRunsAppend` | src/main/java/com/api/staff_manager/services/impl/PhotoServiceImpl.java:52 | the rewrite of a concatenation is the concatenation of the rewrites when no whitespace run spans the joint |
| `JavaStrings.RunThenText` | src/main/java/com/api/staff_manager/services/impl/PhotoServiceImpl.java:52 | a leading whitespace run becomes a single `-` |
| `Users.Authorities` | src/main/java/com/api/staff_manager/models/UserModel.java:46-54 | every user has ROLE_USER; ROLE_ADMIN iff the role is ADMIN; nothing else; two authorities for an admin, one otherwise |
| `Users.Username` | src/main/java/com/api/staff_manager/models/UserModel.java:57-59 | the user name is the e-mail |
| `Users.AccountUsable` | src/main/java/com/api/staff_manager/models/UserModel.java:61-79 | the account is never expired, locked, credential-expired or disabled |
| `Users.EqualityIsById` | src/main/java/com/api/staff_manager/models/UserModel.java:22-32 | two users are equal (and hash alike) iff their ids agree, whatever their other fields |
| `Users.RoleHierarchy` | src/main/java/com/api/staff_manager/models/UserModel.java:46-54 | `hasRole('USER')` holds for every user, `hasRole('ADMIN')` exactly for admins |
| `JwtService.ExpirationDate` | src/main/java/com/api/staff_manager/services/impl/JwtServiceImpl.java:114-116 | the expiry (whole seconds, as JWT stores it) is `now + minutes` truncated to the second |
| `JwtService.Issue` | src/main/java/com/api/staff_manager/services/impl/JwtServiceImpl.java:35-64 | a token carries the configured issuer, the e-mail as subject, its kind's claim, the expiry for its kind's lifetime and the HMAC signature under the secret |
| `JwtService.Verify` | src/main/java/com/api/staff_manager/services/impl/JwtServiceImpl.java:67-96 | a token is accepted iff it decodes, is signed with the secret, has the issuer and the expected kind, and is not expired; every refusal is a verification failure for the expected kind |
| `JwtService.ValidateAccessToken` | src/main/java/com/api/staff_manager/services/impl/JwtServiceImpl.java:67-80 | yields the subject iff the token verifies as an access token |
| `JwtService.ValidateRefreshToken` | src/main/java/com/api/staff_manager/services/impl/JwtServiceImpl.java:83-96 | yields the subject iff the token verifies as a refresh token |
| `JwtService.GetExpirationTimeMillis` | src/main/java/com/api/staff_manager/services/impl/JwtServiceImpl.java:99-112 | for a valid access token yields its expiry in milliseconds, which lies after now |
| `JwtService.VerifyIssued` | src/main/java/com/api/staff_manager/services/impl/JwtServiceImpl.java:35-96 | an issued token verifies for its own kind iff it has not yet expired, with the claims it was issued with |
| `JwtService.AccessRoundTrip` | src/main/java/com/api/staff_manager/services/impl/JwtServiceImpl.java:35-80 | validating a fresh access token yields the user's e-mail |
| `JwtService.RefreshRoundTrip` | src/main/java/com/api/staff_manager/services/impl/JwtServiceImpl.java:51-96 | validating a fresh refresh token yields the user's e-mail |
| `JwtService.KindSeparation` | src/main/java/com/api/staff_manager/services/impl/JwtServiceImpl.java:67-112 | an access token is refused as a refresh token and vice versa (type mismatch), and a refresh token has no access expiry |
| `JwtService.ForeignTokensRejected` | src/main/java/com/api/staff_manager/services/impl/JwtServiceImpl.java:67-96 | a token issued under another secret or issuer is refused |
| `JwtService.ExpirationIsAbsolute` | src/main/java/com/api/staff_manager/services/impl/JwtServiceImpl.java:99-116 | the reported expiry of a fresh access token is the issue time plus its lifetime, to the second, whenever it is asked |
| `JwtService.PairShareIdentity` | src/main/java/com/api/staff_manager/services/impl/JwtServiceImpl.java:35-64 | an access and a refresh token issued together share issuer and subject, and differ in kind |
| `Requests.TrimOrNull` | src/main/java/com/api/staff_manager/dtos/requests/DepartmentRequest.java:7 | null stays null, anything else is trimmed |
| `Requests.TrimOrNullTrimmed` | src/main/java/com/api/staff_manager/dtos/requests/DepartmentRequest.java:7 | the result is trimmed, and normalising twice equals once |
| `Requests.NewDepartmentRequest` | src/main/java/com/api/staff_manager/dtos/requests/DepartmentRequest.java:5-9 | the stored name is `trim` of the given name, or null when it is null |
| `Requests.NewEmployeeRequest` | src/main/java/com/api/staff_manager/dtos/requests/EmployeeRequest.java:11-25 | name and position are `trim` of the given values, null staying null; salary and department id are kept as given |
| `Requests.NewUserUpdateRequest` | src/main/java/com/api/staff_manager/dtos/requests/UserUpdateRequest.java:8-13 | name and e-mail are `trim` of the given values, null staying null; the role is kept |
| `Requests.NewUserCreationRequest` | src/main/java/com/api/staff_manager/dtos/requests/UserCreationRequest.java:6-12 | name, password and e-mail are `trim` of the given values, null staying null |
| `Requests.NewLoginRequest` | src/main/java/com/api/staff_manager/dtos/requests/LoginRequest.java:6-11 | e-mail and password are `trim` of the given values, null staying null |
| `Requests.ReconstructionIsIdentity` | src/main/java/com/api/staff_manager/dtos/requests/EmployeeRequest.java:21-24 | rebuilding any request from its own components gives the same request (the compact constructors are idempotent) |
| `Requests.TrimmedIsFixedPoint` | src/main/java/com/api/staff_manager/dtos/requests/LoginRequest.java:7-10 | normalising an already trimmed component changes nothing |
| `Requests.DepartmentNameBlank` | src/main/java/com/api/staff_manager/dtos/requests/DepartmentRequest.java:5-8 | an all-whitespace name becomes "", and the request is valid iff the name has a non-whitespace character |
| `Requests.LoginPasswordMatchesRegistration` | src/main/java/com/api/staff_manager/dtos/requests/LoginRequest.java:9 | a login password with surrounding whitespace reaches authentication as the registration would have stored it |
| `Store.EmployeesOf` | src/main/java/com/api/staff_manager/services/impl/DepartmentServiceImpl.java:76-88 | the employees of a department are exactly those whose department id is it |
| `Store.FindByEmail` | src/main/java/com/api/staff_manager/services/impl/UserServiceImpl.java:82-86 | finds a user iff one has the e-mail, and the one found is stored and has it |
| `Store.Database.constructor` | src/main/java/com/api/staff_manager/services/impl/DepartmentServiceImpl.java:32-42 | an empty database satisfies the invariants |
| `PhotoService.DeletePhotoStep` | src/main/java/com/api/staff_manager/services/impl/PhotoServiceImpl.java:114-141 | succeeds iff the employee and its directory exist and at most one file is there (a second file makes the directory deletion fail); a missing employee or directory gives its own error; no other directory changes; success clears the photo and empties the directory, failure leaves the employees alone; with two or more files the first is deleted and the answer is `FileDeletion`, the photo URL kept |
| `PhotoService.DeletePhoto` | src/main/java/com/api/staff_manager/services/impl/PhotoServiceImpl.java:114-141 | the database ends in `DeletePhotoStep`'s state with its result, and the invariants are kept |
| `PhotoService.DeletePhotoKeepsConsistency` | src/main/java/com/api/staff_manager/services/impl/PhotoServiceImpl.java:114-141 | deleting a photo keeps every schema invariant |
| `PhotoService.LoadPhoto` | src/main/java/com/api/staff_manager/services/impl/PhotoServiceImpl.java:84-112 | succeeds iff the employee exists and its directory holds a file, and yields the first file; otherwise the not-found, tree-walk or no-file error |
| `PhotoService.DeletedPhotoIsGone` | src/main/java/com/api/staff_manager/services/impl/PhotoServiceImpl.java:84-141 | after a successful delete, loading the photo fails and the employee has no photo |
| `PhotoService.StoredFilename` | src/main/java/com/api/staff_manager/services/impl/PhotoServiceImpl.java:52 | the stored name is the original with each whitespace run replaced by one `-` (`ReplaceSpaceRuns`), so it has no whitespace |
| `PhotoService.WriteFile` | src/main/java/com/api/staff_manager/services/impl/PhotoServiceImpl.java:63-65 | after the copy the file is in the directory, no file is lost, no other name appears, and the first file stays first |
| `PhotoService.StorePhotoStep` | src/main/java/com/api/staff_manager/services/impl/PhotoServiceImpl.java:42-70 | checks in source order: employee, content type (null throws), accepted type, filename (null throws), `..` with the offending name in the message; each of these refusals leaves the tables unchanged; an upload passing them all succeeds exactly when there is no photo or deleting it succeeds, and a failed deletion is returned with its state; without a photo the file is written into the directory as it was; with one the photo field is cleared and the directory holds only the new file; no other employee or directory changes |
| `PhotoService.StorePhoto` | src/main/java/com/api/staff_manager/services/impl/PhotoServiceImpl.java:42-70 | the database ends in `StorePhotoStep`'s state with its result |
| `PhotoService.StoredPhotoIsLoaded` | src/main/java/com/api/staff_manager/services/impl/PhotoServiceImpl.java:42-112 | after a successful store into an empty directory, or one holding only the current photo, loading yields the stored file name |
| `PhotoService.AssociateStep` | src/main/java/com/api/staff_manager/services/impl/PhotoServiceImpl.java:72-82 | the employee's photo becomes the URL and nothing else changes; a missing employee is not found |
| `PhotoService.AssociatePhotoToEmployee` | src/main/java/com/api/staff_manager/services/impl/PhotoServiceImpl.java:72-82 | the database ends in `AssociateStep`'s state with its result |
| `DepartmentService.Members` | src/main/java/com/api/staff_manager/services/impl/DepartmentServiceImpl.java:76-88 | the employee ids belonging to the department |
| `DepartmentService.Others` | src/main/java/com/api/staff_manager/services/impl/DepartmentServiceImpl.java:76-88 | the employee table without the department's employees (orphan removal) |
| `DepartmentService.SaveStep` | src/main/java/com/api/staff_manager/services/impl/DepartmentServiceImpl.java:32-42 | a taken name is refused with "Department already exists."; otherwise the department is stored under a fresh id and returned |
| `DepartmentService.SavePreservesConsistency` | src/main/java/com/api/staff_manager/services/impl/DepartmentServiceImpl.java:32-42 | saving keeps department names unique and all other invariants |
| `DepartmentService.Save` | src/main/java/com/api/staff_manager/services/impl/DepartmentServiceImpl.java:32-42 | the database ends in `SaveStep`'s state with its result |
| `DepartmentService.FindById` | src/main/java/com/api/staff_manager/services/impl/DepartmentServiceImpl.java:51-56 | found iff the id is stored, with its name and exactly its employees, each row as stored; otherwise not found with the id in the message |
| `DepartmentService.UpdateStep` | src/main/java/com/api/staff_manager/services/impl/DepartmentServiceImpl.java:59-72 | not found first, then a name taken by another department; keeping its own name is allowed; the result is what `FindById` then returns |
| `DepartmentService.UpdatePreservesConsistency` | src/main/java/com/api/staff_manager/services/impl/DepartmentServiceImpl.java:59-72 | renaming keeps department names unique and all other invariants |
| `DepartmentService.Update` | src/main/java/com/api/staff_manager/services/impl/DepartmentServiceImpl.java:59-72 | the database ends in `UpdateStep`'s state with its result |
| `DepartmentService.Delete` | src/main/java/com/api/staff_manager/services/impl/DepartmentServiceImpl.java:76-88 | succeeds iff the department exists and every member's photo can be deleted; a missing department is not found, any other failure is a tree-walk or deletion error; success removes the department and its employees and clears their photos; failure restores the department and employee tables (deleted files stay deleted); employees of other departments, their directories and the users are untouched |
| `DepartmentService.ProgressStart` | src/main/java/com/api/staff_manager/services/impl/DepartmentServiceImpl.java:80-84 | the photo-deletion loop's invariant holds before the first member |
| `DepartmentService.ProgressSkip` | src/main/java/com/api/staff_manager/services/impl/DepartmentServiceImpl.java:81-83 | a member without a photo is skipped keeping the invariant |
| `DepartmentService.ProgressDeleteOk` | src/main/java/com/api/staff_manager/services/impl/DepartmentServiceImpl.java:81-83 | a member whose photo is deleted keeps the invariant |
| `DepartmentService.ProgressDeleteErr` | src/main/java/com/api/staff_manager/services/impl/DepartmentServiceImpl.java:81-83 | a failed photo deletion is a tree-walk or deletion error, means the department's photos were not all deletable, and touches no other employee |
| `DepartmentService.RollbackKeepsOthers` | src/main/java/com/api/staff_manager/services/impl/DepartmentServiceImpl.java:74-88 | restoring the tables after a failure keeps the other employees' directories untouched |
| `DepartmentService.ProgressDone` | src/main/java/com/api/staff_manager/services/impl/DepartmentServiceImpl.java:80-84 | once every member is handled, the photos were deletable, each member's photo is cleared and no other directory changed |
| `DepartmentService.UntouchedTrans` | src/main/java/com/api/staff_manager/services/impl/DepartmentServiceImpl.java:80-84 | an employee left untouched by two steps is left untouched by both |
| `DepartmentService.DeleteMemberPhotos` | src/main/java/com/api/staff_manager/services/impl/DepartmentServiceImpl.java:80-84 | succeeds iff every member's photo is deletable, and then every member's photo is cleared; a failure is a tree-walk or deletion error; departments, users and the directories of non-members are untouched |
| `EmployeeService.FromRequest` | src/main/java/com/api/staff_manager/services/impl/EmployeeServiceImpl.java:45-47 | the mapped employee carries the request's name, position, salary and department |
| `EmployeeService.SaveStep` | src/main/java/com/api/staff_manager/services/impl/EmployeeServiceImpl.java:35-51 | an unknown department is not found; a name taken in the department is refused; otherwise the employee is stored under a fresh id without a photo |
| `EmployeeService.SavePreservesInvariants` | src/main/java/com/api/staff_manager/services/impl/EmployeeServiceImpl.java:35-51 | saving keeps names unique per department and all other invariants |
| `EmployeeService.Save` | src/main/java/com/api/staff_manager/services/impl/EmployeeServiceImpl.java:35-51 | the database ends in `SaveStep`'s state with its result |
| `EmployeeService.FindById` | src/main/java/com/api/staff_manager/services/impl/EmployeeServiceImpl.java:61-66 | found iff the id is stored, with that employee; otherwise not found with the id in the message |
| `EmployeeService.UpdateStep` | src/main/java/com/api/staff_manager/services/impl/EmployeeServiceImpl.java:69-96 | as written: department checked before the employee, and the duplicate check skipped whenever the new name equals the employee's current name; the duplicate refusal is "An employee with this name already exists in the department."; every refusal leaves the tables unchanged |
| `EmployeeService.Update` | src/main/java/com/api/staff_manager/services/impl/EmployeeServiceImpl.java:69-96 | the database ends in `UpdateStep`'s state with its result |
| `EmployeeService.DuplicateScenarioIsConsistent` | src/main/java/com/api/staff_manager/services/impl/EmployeeServiceImpl.java:78-79 | the counterexample's starting state (Ann in d1, Ann in d2) satisfies the schema invariants and per-department name uniqueness |
| `EmployeeService.UpdateAllowsDuplicate` | src/main/java/com/api/staff_manager/services/impl/EmployeeServiceImpl.java:78-79 | moving an employee to a department that already has one of the same name succeeds and breaks name uniqueness |
| `EmployeeService.UpdateCheckedStep` | src/main/java/com/api/staff_manager/services/impl/EmployeeServiceImpl.java:69-96 | corrected update: refuses whenever another employee of the target department has the name |
| `EmployeeService.UpdateCheckedPreservesInvariants` | src/main/java/com/api/staff_manager/services/impl/EmployeeServiceImpl.java:69-96 | the corrected update keeps names unique per department and all other invariants |
| `EmployeeService.UpdateCheckedAgrees` | src/main/java/com/api/staff_manager/services/impl/EmployeeServiceImpl.java:69-96 | whenever the corrected update succeeds the written one does the same; they differ only when the employee keeps its name while another employee of the target department already has it |
| `EmployeeService.DeleteStep` | src/main/java/com/api/staff_manager/services/impl/EmployeeServiceImpl.java:99-109 | a missing employee is not found; the photo is deleted first iff the employee has one, so without a photo the directories are untouched and with one they are as `DeletePhotoStep` leaves them; a failed photo deletion is returned with its state and keeps the row; otherwise the employee is removed |
| `EmployeeService.Delete` | src/main/java/com/api/staff_manager/services/impl/EmployeeServiceImpl.java:99-109 | the database ends in `DeleteStep`'s state with its result |
| `UserService.Summary` | src/main/java/com/api/staff_manager/services/impl/UserServiceImpl.java:55-57 | the summary response carries the user's id, name and e-mail |
| `UserService.Details` | src/main/java/com/api/staff_manager/services/impl/UserServiceImpl.java:74-79 | the detail response carries id, name, e-mail and role, never the password |
| `UserService.FindModelByEmail` | src/main/java/com/api/staff_manager/services/impl/UserServiceImpl.java:82-86 | found iff a user has the e-mail, and then it is that stored user; otherwise not found with the e-mail in the message |
| `UserService.FindDetailsByEmail` | src/main/java/com/api/staff_manager/services/impl/UserServiceImpl.java:74-79 | found iff a user has the e-mail, and then the details are that stored user's; otherwise not found with the e-mail in the message |
| `UserService.FindById` | src/main/java/com/api/staff_manager/services/impl/UserServiceImpl.java:66-71 | found iff the id is stored, with that user's details; otherwise not found with the id in the message |
| `UserService.FindByIdThenEmail` | src/main/java/com/api/staff_manager/services/impl/UserServiceImpl.java:66-86 | looking a stored user up by its own e-mail finds that user |
| `UserService.SaveStep` | src/main/java/com/api/staff_manager/services/impl/UserServiceImpl.java:44-57 | a taken e-mail is refused; otherwise a USER with the encoded password is stored under a fresh id |
| `UserService.SaveProperties` | src/main/java/com/api/staff_manager/services/impl/UserServiceImpl.java:44-57 | registering keeps the invariants (e-mails unique among them), the new user is then found by e-mail, and has the USER authority alone |
| `UserService.Save` | src/main/java/com/api/staff_manager/services/impl/UserServiceImpl.java:44-57 | the database ends in `SaveStep`'s state with its result |
| `UserService.UpdateStep` | src/main/java/com/api/staff_manager/services/impl/UserServiceImpl.java:89-107 | not found first, then an e-mail held by another user, then a role other than ADMIN or USER refused with `InvalidRoleException` and the role in its message; every refusal leaves the tables unchanged; name, e-mail and role change, the password does not |
| `UserService.ReplaceKeepsEmailsUnique` | src/main/java/com/api/staff_manager/services/impl/UserServiceImpl.java:94-97 | replacing a user with an e-mail no other user has keeps e-mails unique |
| `UserService.UpdateProperties` | src/main/java/com/api/staff_manager/services/impl/UserServiceImpl.java:89-107 | a successful update keeps the invariants and the password |
| `UserService.Update` | src/main/java/com/api/staff_manager/services/impl/UserServiceImpl.java:89-107 | the database ends in `UpdateStep`'s state with its result |
| `UserService.DeleteStep` | src/main/java/com/api/staff_manager/services/impl/UserServiceImpl.java:110-119 | a missing user is not found; otherwise exactly that user is removed |
| `UserService.DeletedUserIsGone` | src/main/java/com/api/staff_manager/services/impl/UserServiceImpl.java:110-119 | after a delete, the user is found neither by id nor by e-mail, and e-mails stay unique |
| `UserService.Delete` | src/main/java/com/api/staff_manager/services/impl/UserServiceImpl.java:110-119 | the database ends in `DeleteStep`'s state with its result |
| `DefaultAdmin.Seed` | src/main/java/com/api/staff_manager/configs/DefaultAdminConfig.java:21-36 | afterwards the admin e-mail exists; if it already did nothing changes, otherwise exactly the admin John Doe with the encoded password and role ADMIN is added |
| `DefaultAdmin.SeedIdempotent` | src/main/java/com/api/staff_manager/configs/DefaultAdminConfig.java:23 | running the seeder a second time changes nothing |
| `DefaultAdmin.SeedProperties` | src/main/java/com/api/staff_manager/configs/DefaultAdminConfig.java:21-36 | seeding keeps the invariants, and a fresh admin is found by e-mail with both ADMIN and USER authority |
| `DefaultAdmin.Run` | src/main/java/com/api/staff_manager/configs/DefaultAdminConfig.java:21-36 | the database ends in `Seed`'s state |
| `SecurityFilter.BearerToken` | src/main/java/com/api/staff_manager/configs/security/SecurityFilter.java:57-61 | no header or no "Bearer " prefix gives no token; a token is only taken from a "Bearer " header; the only failure is the index error |
| `SecurityFilter.FirstCookie` | src/main/java/com/api/staff_manager/configs/security/SecurityFilter.java:63-70 | none iff no cookie has the name; otherwise the value of the first cookie with it |
| `SecurityFilter.Tokens` | src/main/java/com/api/staff_manager/configs/security/SecurityFilter.java:55-75 | the map has exactly the two keys, holding the bearer token and the refresh cookie; it fails iff the header extraction fails |
| `SecurityFilter.ExtractTokens` | src/main/java/com/api/staff_manager/configs/security/SecurityFilter.java:55-75 | the cookie loop with its early exit computes `Tokens` |
| `SecurityFilter.AuthenticationOf` | src/main/java/com/api/staff_manager/configs/security/SecurityFilter.java:40 | the principal is the e-mail, there are no credentials, and the authorities are the user's |
| `SecurityFilter.Authenticate` | src/main/java/com/api/staff_manager/configs/security/SecurityFilter.java:29-53 | an extraction failure propagates; no token on the chosen route means anonymous; otherwise the route's token is validated (refresh on the refresh route, access elsewhere) and a failure propagates; a subject with no account raises "User not found with email: …"; a subject with an account authenticates exactly that account |
| `SecurityFilter.SecurityContext.constructor` | src/main/java/com/api/staff_manager/configs/security/SecurityFilter.java:29-53 | a context starts without authentication |
| `SecurityFilter.DoFilterInternal` | src/main/java/com/api/staff_manager/configs/security/SecurityFilter.java:29-53 | fails iff `Authenticate` fails, with its error; otherwise sets the authentication it found, if any |
| `SecurityFilter.BearerHeaderCases` | src/main/java/com/api/staff_manager/configs/security/SecurityFilter.java:59-60 | "Bearer t" yields a token iff t has a non-space character, and then its first space-free piece; "Bearer " alone is an index error |
| `SecurityFilter.BearerTokenOfCompact` | src/main/java/com/api/staff_manager/configs/security/SecurityFilter.java:59-60 | a compact JWT after "Bearer " is extracted unchanged |
| `SecurityFilter.RouteDecides` | src/main/java/com/api/staff_manager/configs/security/SecurityFilter.java:35-51 | on the refresh URI only the cookie counts, elsewhere only the header |
| `SecurityFilter.AccessTokenAuthenticates` | src/main/java/com/api/staff_manager/configs/security/SecurityFilter.java:43-50 | a fresh access token of a stored user, presented as a bearer, authenticates exactly that user |
| `SecurityFilter.RefreshCookieAuthenticates` | src/main/java/com/api/staff_manager/configs/security/SecurityFilter.java:35-42 | on the refresh route, a live refresh token of a stored user in the refresh-token cookie authenticates exactly that user, whatever the bearer header holds |
| `SecurityFilter.RefreshTokenIsNotABearer` | src/main/java/com/api/staff_manager/configs/security/SecurityFilter.java:43-50 | a refresh token presented as a bearer is refused with a type mismatch |
| `ExceptionHandler.AuthenticationMessage` | src/main/java/com/api/staff_manager/exceptions/handlers/GlobalExceptionHandler.java:139-145 | an authentication failure of another class gets "Authentication failed.", and the four named ones get a message of their own |
| `ExceptionHandler.StatusOf` | src/main/java/com/api/staff_manager/exceptions/handlers/GlobalExceptionHandler.java:19-183 | every exception maps to one of 400, 401, 403, 404, 409, 415, 500; 400 iff invalid role, 401 iff authentication, 403 iff access denied, 415 iff unsupported file |
| `ExceptionHandler.Handle` | src/main/java/com/api/staff_manager/exceptions/handlers/GlobalExceptionHandler.java:19-183 | status and body status agree; the error is the reason phrase; domain exceptions echo their message; authentication gets its mapped message and reports the `/error` endpoint by a label; every other response reports the request URI; a 500 hides the cause behind a fixed message |
| `ExceptionHandler.StatusFamilies` | src/main/java/com/api/staff_manager/exceptions/handlers/GlobalExceptionHandler.java:19-183 | 409 iff an already-exists exception, 404 iff a not-found exception, 400, 401, 403 and 415 iff invalid role, authentication, access denied and unsupported file, 500 iff an unexpected exception, whose body is fixed |
| `Controllers.RequirementOf` | src/main/java/com/api/staff_manager/controllers/UserController.java:74-256 | only login and registration are open; every other endpoint demands USER or ADMIN |
| `Controllers.SuccessStatus` | src/main/java/com/api/staff_manager/controllers/EmployeeController.java:195-356 | 201 exactly for the three creations, 204 exactly for the deletions and logout, 200 otherwise |
| `Controllers.AccessTable` | src/main/java/com/api/staff_manager/controllers/EmployeeController.java:75-352 | the endpoints demanding ADMIN and those demanding USER, listed exactly |
| `Controllers.RoleReach` | src/main/java/com/api/staff_manager/controllers/DepartmentController.java:31-61 | an admin may call every endpoint; anyone else exactly those not demanding ADMIN |
| `Controllers.UploadPhoto` | src/main/java/com/api/staff_manager/controllers/EmployeeController.java:312-321 | a failed store is returned as is; otherwise the photo URL under the context path is associated |
| `Controllers.UploadAssociates` | src/main/java/com/api/staff_manager/controllers/EmployeeController.java:317-320 | after a successful store the association succeeds, the photo is the URL, and the stored file is in the directory |
| `Controllers.CurrentUser` | src/main/java/com/api/staff_manager/controllers/UserController.java:147-151 | `/me` succeeds iff a user has the principal's e-mail, and returns that stored user's details; otherwise not found with the e-mail in the message |
| `Controllers.CurrentUserIsAuthenticated` | src/main/java/com/api/staff_manager/controllers/UserController.java:147-151 | whoever the filter authenticates may call `/me` and gets their own stored details |
| `AuthController.TokenPair` | src/main/java/com/api/staff_manager/controllers/AuthController.java:76-92 | 200 with the refresh token in the cookie and the access token in the body; `expiresIn` lies after now; the only failure is the access token's verification |
| `AuthController.Login` | src/main/java/com/api/staff_manager/controllers/AuthController.java:69-95 | failed authentication answers bad credentials; otherwise the answer is the token pair of the authenticated user |
| `AuthController.RefreshTokens` | src/main/java/com/api/staff_manager/controllers/AuthController.java:120-146 | a refresh-token validation failure propagates; a validated subject with no account is "User not found with email: …"; a subject with an account gets exactly that account's token pair |
| `AuthController.Logout` | src/main/java/com/api/staff_manager/controllers/AuthController.java:168-179 | 204 without a body, with an empty refresh cookie of age 0 |
| `AuthController.TokenPairIssued` | src/main/java/com/api/staff_manager/controllers/AuthController.java:76-92 | a non-positive access lifetime fails as expired; otherwise both tokens validate to the user's e-mail and `expiresIn` is the access expiry |
| `AuthController.CookieIgnoresRefreshLifetime` | src/main/java/com/api/staff_manager/controllers/AuthController.java:79-85 | the cookie lasts one day and has the same attributes whatever the configured refresh-token lifetime |
| `AuthController.RefreshRotates` | src/main/java/com/api/staff_manager/controllers/AuthController.java:120-146 | a live refresh token of a stored user is answered with exactly the pair a login of that user would get now |
| `AuthController.RefreshRefusals` | src/main/java/com/api/staff_manager/controllers/AuthController.java:120-128 | a refresh token whose subject has no account is refused as user not found, and an access token is refused as a refresh token with a type mismatch |
| `AuthController.LogoutReplacesCookie` | src/main/java/com/api/staff_manager/controllers/AuthController.java:172-177 | the logout cookie has the refresh cookie's name, path, HTTP-only and secure flags, so it overwrites that cookie |

## Left out

- Token signing and serialisation: HMAC-SHA256 and the JWT wire format are abstract. The token codec is a parameter, and a signature is a value determined by the secret and the claims.
- JWT verification only checks what the source checks explicitly. The algorithm check, `nbf`/`iat` handling and the clock's time zone are not modelled. The current time is a parameter in milliseconds.
- Spring Security's own machinery is not modelled: method-security evaluation (reduced to a table of endpoint requirements), the authentication manager's password check (the login receives the authenticated user or none) and the thread-local `SecurityContextHolder` (a `SecurityContext` object).
- The routing of filter exceptions through the delegating exceptions handler is not modelled. The default "Access Denied" message is not modelled either.
- JPA and Hibernate are reduced to maps keyed by generated ids. Fresh ids come in as parameters.
- Paging in the list operations is not modelled: `findAll` in DepartmentServiceImpl.java:44-48, EmployeeServiceImpl.java:54-58 and UserServiceImpl.java:60-64.
- Creation and update timestamps are not modelled. MapStruct mappers are modelled as plain field copies.
- File-system I/O failures are not modelled: `FileStorageException`, unreadable resources and `IOException` while copying. The model keeps a directory as the list of its file names. `Files.walk` order is that list's order, and subdirectories are not modelled.
- `StringUtils.cleanPath` is taken as the identity on the already whitespace-free name. MIME detection of the served file is not modelled.
- `@Email` syntax validation is not modelled. The other bean-validation constraints are the `Valid()` predicates, which the services require because every controller argument carries `@Valid`. The 400 response for a violation is not modelled.
- Password hashing is a parameter `encode`. BCrypt's salt is not modelled.
- Logging and concurrency are not modelled.
- The refresh endpoint's 400 for a missing cookie is not modelled. The model receives the cookie value.
- `DefaultAdmin.Run`: the `try`/`catch` that logs and swallows any exception is not modelled, because nothing in the modelled repository operations can fail.
- `RoleEnum`'s source is not part of this model. `Role.Other(name)` stands for any further constant, which the update path rejects as the source does.

## Findings

| source | as written | input that shows it | evidently intended | confidence | as-written member | corrected member |
|---|---|---|---|---|---|---|
| src/main/java/com/api/staff_manager/services/impl/EmployeeServiceImpl.java:78-79 | the duplicate-name check is skipped whenever the new name equals the employee's current name, even when the department changes | departments d1 and d2, employee e1 "Ann" in d1 and e2 "Ann" in d2; update e1 to ("Ann", "Clerk", 1.0, d2) succeeds, and d2 then holds two employees named Ann | refuse the update whenever another employee of the target department already has the name | not executed | `EmployeeService.UpdateAllowsDuplicate` | `EmployeeService.UpdateCheckedPreservesInvariants` |
