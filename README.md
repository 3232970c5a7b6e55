# Users CRUD service: a Dafny model

This is a Dafny model of a small Express application that keeps a list of
user records `{id, nom, email, role}` in a JSON file. It serves them under
`/api/users` with list, read, create, update and delete routes. The model
has three layers:

- **The record store** (`utils/fileUtils.js`): `file_utils.dfy`, module `FileUtils`.
  - The users file is abstracted to `Missing`, `NotAnArray`, `Unparsable` or `Users(records)`.
  - `UsersFile` is a class holding that state and a `writable` flag. The flag says whether the disk accepts writes.
  - `readUsersFile` and `writeUsersFile` are its methods. Each is specified by the pure function `Read` and by its new state.
  - A first read of a missing file writes the ten-record seed.
  - `generateNewId` is the pure function `GenerateNewId`.
- **The user service** (`controllers/userController.js`): `user_controller.dfy`, module `UserController`.
  - The five operations are methods on a `UsersFile`.
  - Each reads the collection, pushes, replaces at an index or splices, and writes it back.
  - Their uneven error contracts stay as they are:
    - creation and update raise (a `Failure` result);
    - deletion answers `false`;
    - the reads answer `[]` or nothing.
- **The REST handlers** (`index.js`): `api.dfy`, module `Api`.
  - Each route is a pure function from the file to an `Outcome`: the status code with its body, and the file afterwards.
  - Each route also has a method that runs the handler through the controller methods. Its `ensures` says its answer and new file are what the function gives.
  - The collection invariant is proved about the route functions: ids pairwise distinct and e-mails pairwise distinct.

Shared definitions:
- `records.dfy` (module `Records`) holds the record type and the `find`/`findIndex` lookups.
- `email_format.dfy` (module `EmailFormat`) holds the e-mail check.
  - `MatchesEmailPattern` reads the regular expression `^[^\s@]+@[^\s@]+\.[^\s@]+$` declaratively.
  - `IsEmailFormat` is a left-to-right scanner.
  - The scanner is proved to accept exactly the matching strings.
  - `\s` is ECMAScript's WhiteSpace and LineTerminator set.

Inputs from outside the program are parameters:
- whether the disk accepts a write: the `writable` field;
- the request's path id, as an `int`;
- the body fields, as `Option<string>` (`None` for an absent field).

Two behaviours of the code are worth stating outright:
- `updateUser`'s catch block (`controllers/userController.js:89-91`) rethrows every error as the generic "Impossible de modifier l'utilisateur". `UpdateUser` therefore answers `UpdateFailed` for an unknown id and for a failed write alike.
- The 500 answer of `GET /api/users` (`index.js:33-36`) cannot be reached, because `readUsersFile` catches every error, including a failed seed write, and answers `[]`. `ListRoute` therefore always answers 200.

## Model

| member | source | states |
|---|---|---|
| EmailFormat.ScannerMatchesPattern | index.js:67-68 | the scanner accepts a string exactly when it is a non-empty run of `[^\s@]`, then '@', a run, '.', and a run |
| EmailFormat.MatchesEmailPattern | index.js:67 | the expression read directly: an '@' after a non-empty prefix, no `\s` and no second '@' anywhere, and a '.' in the domain that is neither its first nor its last character |
| EmailFormat.IsEmailFormat | index.js:67-68 | `emailRegex.test(email)`: true exactly when the address matches the expression as `MatchesEmailPattern` reads it |
| EmailFormat.ShapedAddress | index.js:67-68 | a letters-and-dots local part, '@', and a letters-and-dots domain with an inner '.' matches the expression |
| Records.FindIndex | controllers/userController.js:70 | the index of the first record satisfying the test, or -1 exactly when none does |
| Records.FindIndexIsFirst | controllers/userController.js:103 | the first satisfying index is the one `findIndex` answers |
| Records.NoIdIsMinusOne | controllers/userController.js:70-74 | `findIndex` by id answers -1 exactly when no record carries the id |
| Records.HasId | controllers/userController.js:24 | the callback `user => user.id === id` |
| Records.HasEmail | index.js:76 | the callback `user => user.email === email` |
| Records.HeldByOther | index.js:121-123 | the callback `user => user.email === email && user.id !== userId` |
| Records.Find | controllers/userController.js:24 | nothing exactly when no record satisfies the test, else the first record that does |
| FileUtils.Read | utils/fileUtils.js:11-54 | a missing file is seeded and reads as the seed when the write succeeds, and as `[]` with the file still missing when it fails; a non-array or unparsable file reads as `[]` unchanged; an array reads as itself |
| FileUtils.MaxId | utils/fileUtils.js:93 | the largest id: no id exceeds it and some record has it |
| FileUtils.GenerateNewId | utils/fileUtils.js:87-95 | 1 for an empty list; otherwise one more than some record's id, and above every id; at least 1 when all ids are non-negative |
| FileUtils.SeedWellFormed | utils/fileUtils.js:22-33 | the seed has ten records with ids 1 to 10 in order, pairwise distinct ids and e-mails |
| FileUtils.SeedEmailsDistinct | utils/fileUtils.js:22-33 | no two seed records share an e-mail |
| FileUtils.ReadAfterWrite | utils/fileUtils.js:39-48 | reading back a written collection yields it and leaves the file as written |
| FileUtils.ReadIdempotent | utils/fileUtils.js:11-54 | a second read answers what the first did and changes nothing more |
| FileUtils.UsersFile.ReadUsersFile | utils/fileUtils.js:11-54 | the answer and the new file are `Read` of the old file |
| FileUtils.UsersFile.WriteUsersFile | utils/fileUtils.js:60-80 | succeeds exactly when the disk accepts writes; the file is then the list written, else unchanged |
| UserController.GetAllUsers | controllers/userController.js:7-14 | the collection as read, never an error |
| UserController.GetUserById | controllers/userController.js:21-29 | the first record with the id as read, or nothing |
| UserController.CreateUser | controllers/userController.js:36-59 | succeeds exactly when the write does; the record has id `GenerateNewId`, above every id, the given `nom`/`email` and role "utilisateur", appended at the end; on failure `CreationFailed` and the file unchanged |
| UserController.UpdateUser | controllers/userController.js:67-93 | succeeds exactly when the id exists and the write succeeds; the first record with the id gets the new `nom`/`email`, nothing else changes; otherwise `UpdateFailed` and no write beyond the seed |
| UserController.DeleteUser | controllers/userController.js:100-124 | `true` exactly when the id exists and the write succeeds, and the first record with the id is then spliced out; otherwise `false` and no write beyond the seed |
| UserController.CreatedIsFound | controllers/userController.js:41-50 | a record appended with an id above every other is what a lookup by its id finds |
| UserController.UpdatedIsFound | controllers/userController.js:77-87 | a record written over the first one with its id is what a lookup by that id finds |
| UserController.DeletedIsGone | controllers/userController.js:114 | with distinct ids, after the splice no record has the removed id |
| UserController.ReplaceKeepsOthers | controllers/userController.js:77-81 | the replacement keeps the length, the record's id and role, and every other record |
| UserController.SpliceKeepsOrder | controllers/userController.js:114 | the splice shortens the list by one and keeps the other records in order |
| Api.Present | index.js:60 | a body field for which `!field` is false: present and not the empty string |
| Api.PassesChecks | index.js:60-72 | both fields present and the address of the expected format: neither 400 applies |
| Api.ReadKeepsWellFormed | utils/fileUtils.js:14-48 | reading a well-formed store yields a well-formed collection and store, since the seed is one |
| Api.AppendKeepsWellFormed | index.js:75-83 | appending a record with an id above every id and an unused e-mail keeps ids and e-mails distinct |
| Api.ReplaceKeepsWellFormed | index.js:119-130 | changing a record's e-mail to one no other id holds keeps ids and e-mails distinct |
| Api.RemoveKeepsWellFormed | index.js:150 | removing a record keeps ids and e-mails distinct |
| Api.OwnEmailIsNoConflict | index.js:119-121 | in a well-formed collection no other id holds a record's own e-mail |
| Api.SeedEmailsWellFormatted | utils/fileUtils.js:22-33 | every seed e-mail passes the format check and matches the expression |
| Api.SeedEmailsMatch | utils/fileUtils.js:22-33 | every seed e-mail matches the expression |
| Api.ListRoute | index.js:29-37 | always 200 with the collection as `Read` answers it, and the file as `Read` leaves it: the seed for a missing file that can be written, `[]` and still missing otherwise |
| Api.GetRoute | index.js:39-53 | 404 exactly when no record has the id; otherwise 200 with the first record that has it |
| Api.PostRoute | index.js:55-89 | 400 with the file unchanged for a missing field, then for a bad address; 409 when the address is in use; 500 with the file unchanged when the write fails; else 201 with the new record appended |
| Api.PutRoute | index.js:91-136 | in order: 400, 400, 404 when the id is absent, 409 when another id holds the address, 500 with the file unchanged when the write fails; else 200 with `nom`/`email` changed and id and role kept |
| Api.DeleteRoute | index.js:138-160 | 404 when the id is absent; 500 with the file unchanged when the write fails; else 200 and the first record with the id spliced out |
| Api.DeleteUnknownIdIs404 | index.js:143-149 | DELETE answers 404 exactly when no record carries the id, and then changes the file only by the seed |
| Api.GetRoutesKeepWellFormed | index.js:29-53 | the GET routes keep ids and e-mails distinct |
| Api.PostKeepsWellFormed | index.js:75-84 | POST keeps ids and e-mails distinct |
| Api.PutKeepsWellFormed | index.js:112-131 | PUT keeps ids and e-mails distinct |
| Api.DeleteKeepsWellFormed | index.js:143-155 | DELETE keeps ids and e-mails distinct |
| Api.PostRefusalKeepsRecords | index.js:60-80 | a POST that does not answer 201 leaves the records as read, and a file that existed exactly as it was |
| Api.PutRefusalKeepsRecords | index.js:97-127 | a PUT that does not answer 200 leaves the records as read, and a file that existed exactly as it was |
| Api.DeleteRefusalKeepsRecords | index.js:143-155 | a DELETE that does not answer 200 leaves the records as read, and a file that existed exactly as it was |
| Api.PutOwnEmailIsNoConflict | index.js:119-127 | in a well-formed store, a PUT resubmitting the record's own e-mail never answers 409 |
| Api.PostThenGet | index.js:83-84 | after a 201, a GET for the new id answers 200 with the created record |
| Api.PostSucceeded | index.js:83-84 | a POST that answered 201 appended its new record, whose id is above every id |
| Api.GetAfterAppend | index.js:39-53 | after appending a record with an id above every other, GET for that id answers 200 with it |
| Api.PutThenGet | index.js:130-131 | after a 200, a GET for the id answers 200 with the updated record |
| Api.PutSucceeded | index.js:130-131 | a PUT that answered 200 found the id and replaced the record at its first index by one with the same id |
| Api.GetAfterReplace | index.js:39-53 | after that replacement, GET for the id answers 200 with the new record |
| Api.DeleteThenGet | index.js:150-152 | in a well-formed store, after a 200, a GET for the id answers 404 |
| Api.ListUsers | index.js:29-37 | the handler's answer and new file are `ListRoute`'s |
| Api.GetUser | index.js:39-53 | the handler's answer and new file are `GetRoute`'s |
| Api.PostUser | index.js:55-89 | the handler's answer and new file are `PostRoute`'s |
| Api.PutUser | index.js:91-136 | the handler's answer and new file are `PutRoute`'s |
| Api.DeleteUser | index.js:138-160 | the handler's answer and new file are `DeleteRoute`'s |

## Left out

- Express plumbing is not modelled:
  - middleware and static files;
  - the HTML page routes and the catch-all 404 page;
  - `app.listen`;
  - the global error middleware with its development-mode detail (index.js:1-27, 162-190).
- The file system is reduced to the abstract file state and the `writable` flag:
  - `existsSync`, `mkdirSync`, `readFileSync`, `writeFileSync` and the JSON text itself are not modelled;
  - a `mkdirSync` failure counts as a failed write;
  - a file that cannot be read counts as `Unparsable`.
- `writable` is fixed for the duration of a request, so a disk that fails one write and accepts the next is not modelled.
- An array in the file is taken to hold well-typed records. Elements of other shapes are not modelled.
- FileUtils.GenerateNewId: ids are unbounded integers. In the source they are JavaScript numbers (IEEE doubles). Once the largest id reaches 2^53, `maxId + 1` (utils/fileUtils.js:94) rounds back to `maxId`, so `createUser` would reuse the largest id. The "above every id" clause, and with it `Api.PostKeepsWellFormed`'s distinct ids, hold in the source only while ids stay below 2^53. Fractional ids in a hand-edited file are not modelled either. `GenerateNewId` also always returns, but `Math.max(...users.map(...))` (utils/fileUtils.js:93) passes every id as a separate argument; a collection beyond the engine's argument limit (of the order of 10^5 records) makes it throw `RangeError`. `createUser` then rethrows "Impossible de créer l'utilisateur" (controllers/userController.js:55-58), POST answers 500 (index.js:85-88) and nothing is written. For such collections `UserController.CreateUser`'s "succeeds exactly when the write does" and `Api.PostRoute`'s 201 clause over-promise: the source answers 500 with the file unchanged where the model answers 201.
- FileUtils.UsersFile.WriteUsersFile: a write is all-or-nothing; a failed write leaves the file exactly as it was. `fs.writeFileSync` (utils/fileUtils.js:74) truncates the file before writing, so a failure after that (a full disk, an I/O error) leaves an empty or partial file, and the next read answers `[]`. The "500 with the file unchanged" clauses of `Api.PostRoute`, `Api.PutRoute` and `Api.DeleteRoute`, and the three `*RefusalKeepsRecords` lemmas, rest on this assumption.
- `console.log` and `console.error` are not modelled.
- Body fields and stored strings are modelled as sequences of Unicode scalar values (Dafny's `string`); JavaScript strings are sequences of UTF-16 code units. A string holding a lone surrogate (for example an `email` of `"\ud800x@b.co"`) passes the regular expression and the `===` checks in the source but cannot be represented in the model. Every property proved here concerns only strings the model can represent.
- `parseInt` of the path segment is not modelled: the id is an `int`. A non-numeric segment gives `NaN`. `NaN` equals no id, so it behaves like an `int` that no record has.
- Api.Present: it models `!field` for strings and absent fields only. JSON numbers, booleans, arrays and objects in the body are not modelled. This matters: `express.urlencoded({ extended: true })` (index.js:10) and JSON bodies can send `email` as an array such as `["a@b.co"]`. The regular expression's `test` converts it to the string `"a@b.co"`, so it passes, and the `===` comparisons at index.js:76 and index.js:121 never equal a string or another array. The source can therefore store two records with the same address. The e-mails-distinct invariant proved here holds only for bodies whose fields are strings.
- The handlers' `catch` blocks return 500 "Erreur interne du serveur":
  - In POST and PUT this answer comes from the failed write, and it is modelled.
  - The same catch in the GET and DELETE routes, like `getAllUsers`' and `getUserById`'s own catch blocks, cannot be reached, because no operation they call throws. It is not modelled.
- Concurrent requests, and races between interleaved read-modify-write cycles, are not modelled: the model is sequential.
- The browser scripts under `public/js` are not part of this model.
