# Learning trails: store, editor and document masks

This project models the core of a small educational web application. The
model has three parts.

- **The trails store** is the backend's one REST resource. It has two SQLite
  tables: `trails(id, name, description, createdAt)` and
  `modules(id, title, content, orderNum, trailId)`. Five route handlers work
  on them: list, get, create, replace (PUT replaces everything) and delete.
  `TrailStore.Store` is a class with the two tables as sequences of rows in
  rowid order. Two counters stand in for the AUTOINCREMENT sequences and a
  logical clock stands in for `createdAt`. Each handler is a method that
  keeps the tables' invariant:
  - keys increase;
  - no module row is orphaned;
  - the modules of every trail are numbered `1..N` in the order they are
    stored.
  Lemmas over the table values carry the proofs: a replace sets exactly the
  submitted modules and leaves every other trail untouched, and a delete
  cascades.
- **The trail editor** is the state of the trails page (`Trilhas.jsx`): the
  draft name and description, the list of module drafts, and the trail being
  edited. `TrailEditor.Editor` is a class whose methods are the page's
  handlers. The payload the page sends and the request it issues are pure
  functions. Lemmas connect the page to the store:
  - a payload the page sends passes the store's checks;
  - editing a trail and saving it unchanged writes back the same titles,
    contents and positions.
- **The CPF and CNPJ input masks** of the student and school registration
  pages. Each mask strips the non-digits and then applies one anchored
  regular expression, chosen by the number of digits. The copies under
  `src/pages/` and `frontend/src/pages/` are the same code, and one model
  covers both. The lemmas state:
  - the formatted shapes and the digit counts at which each appears;
  - the digits are kept;
  - masking is idempotent;
  - the output alphabet;
  - the masked value fits the field's `maxLength`.

`JsText` holds the JavaScript value rules everything else relies on:
- a JSON field that is a string, `null` or absent;
- truthiness (`x || null`, `x || fallback`);
- `String.prototype.trim` with ECMAScript's white-space set;
- decimal text for the ids in URLs.

A model-level counterpart sits in place of each side effect. The network is
left out: a request is a value the editor returns, and whether `fetch`
resolved is a parameter. The user's answer to `confirm` is also a parameter.
The database is the `Store` object.

## Model

| member | source | states |
|---|---|---|
| JsText.OrNull | backend/server.js:87 | `x \|\| null` keeps a non-empty string and turns `""` and null into null; the result is non-null exactly when `x` is truthy |
| JsText.Truthy | backend/server.js:83 | `!x` on a string-or-null field holds exactly for null (or absent) and for `""`; every `x \|\| y` of the store turns on this |
| JsText.OrElse | backend/server.js:95 | `x \|\| fallback` is `x` when truthy and the fallback otherwise, so the result is non-empty exactly when `x` is truthy or the fallback is non-empty: with the placeholder title as fallback, a stored title is never empty |
| JsText.Trim | frontend/src/pages/Trilhas.jsx:51 | `trim` never lengthens its input, and its result neither starts nor ends with white space |
| JsText.TrimIsStartThenEnd | frontend/src/pages/Trilhas.jsx:51 | trimming both ends is cutting the leading white space, then the trailing white space |
| JsText.TrimIsSlice | frontend/src/pages/Trilhas.jsx:51 | `trim` returns a slice `s[a..b]` of its input, and everything cut off on either side is white space |
| JsText.TrimEmptyIffBlank | frontend/src/pages/Trilhas.jsx:51 | `!s.trim()` holds exactly when `s` is empty or all white space |
| JsText.NatText | frontend/src/pages/Trilhas.jsx:63 | `${id}` for a non-negative id writes at least one decimal digit and no leading zero; `NatTextRoundTrip` reads it back |
| JsText.ParseNat | backend/server.js:123 | `Number(id)` on decimal digits: a digit string that does not start with `0` never reads as 0; `NatTextRoundTrip` shows it undoes `NatText` |
| JsText.NatTextRoundTrip | backend/server.js:123 | an id written into a URL by the page is read back by `Number(id)` as the same id |
| TrailStore.FindTrail | backend/server.js:69-71 | the trail lookup finds a row exactly when the id is a trail's id, and the row found has that id |
| TrailStore.ModulesOf | backend/server.js:73 | the module query returns exactly the rows whose `trailId` matches, in rowid order; `ORDER BY orderNum` is the same order because every trail's rows are numbered 1..N in storage order (`DenseIsSorted`, kept by every handler through `TablesValid`) |
| TrailStore.WithoutTrail | backend/server.js:117 | `DELETE FROM modules WHERE trailId = ?` keeps exactly the rows of other trails |
| TrailStore.RemoveTrail | backend/server.js:135 | `DELETE FROM trails WHERE id = ?` keeps exactly the rows with other ids |
| TrailStore.UpdateTrail | backend/server.js:110-112 | the UPDATE keeps the table's length and every row's id and `createdAt`, so the set of trail ids is the same; rows with another id are unchanged, and the row with `id` carries the new name and description |
| TrailStore.DenseIsSorted | backend/server.js:54 | modules numbered 1..N in storage order are already in `ORDER BY orderNum` order |
| TrailStore.ModulesOfWithoutTrail | backend/server.js:117 | deleting one trail's modules leaves the modules of every other trail exactly as they were |
| TrailStore.StoredModule | backend/server.js:95 | the row the insert stores for the `k`-th module (also server.js:121) has the counter's id, the trail's id and `orderNum = k + 1`; its title is the submitted title when that is truthy and the placeholder `'Módulo sem título'` otherwise, so never empty; its content is the submitted content when that is truthy and null otherwise, so never `""` |
| TrailStore.NewModules | backend/server.js:94-96 | the `forEach` inserts one row per submitted module; `NewModulesDense`, `NewModulesIds`, `NewModulesTitled`, `NewModulesOfTrail` and `NewModulesOfOther` state their numbering, ids, titles and trail |
| TrailStore.NewModulesDense | backend/server.js:93-96 | the rows inserted for the submitted modules are numbered `orderNum = i + 1` in submission order |
| TrailStore.NewModulesIds | backend/server.js:93-96 | the inserted rows carry the ids the module counter hands out for them, `firstId` up to `firstId + N - 1` |
| TrailStore.NewModulesTitled | backend/server.js:95 | `mod.title \|\| 'Módulo sem título'` never stores an empty title |
| TrailStore.NewModulesOfTrail | backend/server.js:93-96 | the rows inserted for the submitted modules all belong to the trail and are numbered `orderNum = i + 1` in submission order |
| TrailStore.NewModulesOfOther | backend/server.js:93-96 | none of the inserted rows belongs to another trail |
| TrailStore.ReplaceSetsModules | backend/server.js:117-122 | `ReplacedModules` is the module table after the DELETE and the inserts: the other trails' rows, then the new rows. After a replace the trail's modules in it are exactly the submitted list, numbered 1..M |
| TrailStore.ReplaceKeepsOthers | backend/server.js:117-122 | a replace leaves every other trail's modules unchanged |
| TrailStore.ReplaceFreesOldIds | backend/server.js:117-122 | a replace merges nothing: no row of the table afterwards, the trail's new rows included, carries the id of a module the trail had before |
| TrailStore.DeleteCascadeEffect | backend/server.js:40 | with the declared cascade, a delete removes the trail's modules and no others, and leaves no orphan |
| TrailStore.DeleteWithoutForeignKeys | backend/server.js:135 | the delete as run without foreign-key enforcement removes only the trail row and keeps every module row |
| TrailStore.DeleteWithoutForeignKeysOrphans | backend/server.js:40 | deleting a trail that has one module, without foreign-key enforcement, leaves that module orphaned |
| TrailStore.FreshTrailHasNoModules | backend/server.js:26 | the id AUTOINCREMENT hands out next is no trail's id and no module points at it |
| TrailStore.AppendKeepsIdOrder | backend/server.js:35 | module rows inserted with fresh ids keep module ids strictly increasing |
| TrailStore.CreateSetsModules | backend/server.js:92-96 | after a create the new trail's modules are exactly the inserted rows |
| TrailStore.CreateKeepsOthers | backend/server.js:92-96 | a create leaves every other trail's modules unchanged |
| TrailStore.CreateKeepsTablesValid | backend/server.js:85-100 | a create keeps the invariant: increasing keys and stamps, ids below the counters, non-empty module titles, no orphans, dense `orderNum` per trail |
| TrailStore.WithoutTrailKeepsIdOrder | backend/server.js:117 | deleting one trail's module rows keeps the remaining module ids strictly increasing |
| TrailStore.RemoveTrailKeepsOrder | backend/server.js:135 | deleting a trail row keeps the remaining trails' ids and `createdAt` stamps strictly increasing |
| TrailStore.ReplaceKeepsTablesValid | backend/server.js:106-130 | a replace of an existing trail keeps the invariant |
| TrailStore.DeleteKeepsTablesValid | backend/server.js:133-140 | a delete keeps the invariant |
| TrailStore.ListedView | backend/server.js:54-55 | one entry of the list pairs the trail with exactly its own module rows, or with `[]` when its module query failed |
| TrailStore.Listing | backend/server.js:52-58 | the list has one entry per trail, the last trail row first, each the `ListedView` of its trail |
| TrailStore.ReadListing | backend/server.js:51-57 | the loop over the trails, last row first, gathers exactly the `Listing`: one entry per trail, each paired with its modules or `[]` |
| TrailStore.ListedNewestFirst | backend/server.js:49 | reading the trails in reverse rowid order lists them by strictly decreasing `createdAt` |
| TrailStore.ListedModulesSorted | backend/server.js:52-56 | every listed trail carries its modules in `orderNum` order, or `[]` when its module query failed |
| TrailStore.Store.constructor | backend/server.js:23-42 | the tables start empty, with both counters at 1 |
| TrailStore.Store.InsertModules | backend/server.js:93-96 | the prepared insert run once per module appends exactly the `NewModules` rows and advances the module counter by their number |
| TrailStore.Store.Create | backend/server.js:81-103 | a falsy name gives 400 and changes nothing; otherwise the reply is 201 echoing the new id and the submitted fields, one trail row is appended with `description \|\| null`, the new trail's modules are the submitted ones numbered 1..N, the trail counter and the clock advance by one and the module counter by N, so no id is handed out twice; other trails are untouched; the invariant is kept |
| TrailStore.Store.Replace | backend/server.js:106-130 | an unknown id gives 404 and changes nothing; a null name on an existing trail hits NOT NULL, gives 500 and changes nothing; otherwise the reply is 200, the row is renamed, the new modules are the submitted list numbered 1..M under fresh ids, no row left in the table has the id of one of the trail's old modules, the module counter advances by M while the trail counter and the clock stay, and other trails keep theirs |
| TrailStore.Store.Delete | backend/server.js:133-140 | an unknown id gives 404 and changes nothing; otherwise the reply is 200 with the success message, the trail and its modules are gone, and every other trail keeps its modules |
| TrailStore.Store.Get | backend/server.js:67-78 | an unknown id gives 404; otherwise 200 with that trail's row and exactly its modules, in `orderNum` order numbered 1..N, none with an empty title |
| TrailStore.Store.List | backend/server.js:48-64 | one entry per trail, newest first, each with its own modules in `orderNum` order, or `[]` when its module query failed |
| TrailStore.CreateMath | backend/server.js:81-103 | on a fresh database, creating "Math" with "Algebra" and "Geometry" replies 201 with id 1 and the submitted fields; the trail table holds the single row with id 1, no description and the first stamp; the trail's modules are "Algebra" (id 1, order 1) and "Geometry" (id 2, order 2); the counters move to trail 2, module 3 |
| TrailStore.CreateThenReplace | backend/server.js:106-130 | replacing that trail with the single module "Geometry" replies 200 with id 1 and the submitted fields, keeps the trail row, and leaves exactly one module row, "Geometry" at order 1 under the fresh id 3: "Algebra" is gone and the ids 1 and 2 are not reused |
| TrailStore.ReplaceScenario | backend/server.js:67-78 | reading the replaced trail back gives 200, the name "Math" and exactly the row "Geometry" at order 1 with id 3; deleting an id never handed out gives 404 |
| TrailStore.CreateThenGet | backend/server.js:67-103 | for any store, a create followed by a get of the id handed out reads back the submitted name, `description \|\| null`, the creation stamp and exactly the submitted modules as rows numbered 1..N; a create refused for a falsy name leaves that id unknown (404) |
| TrailStore.ReplaceThenGet | backend/server.js:67-130 | for any store and any trail in it, a replace with a name followed by a get replies 200 twice and reads back the new name, `description \|\| null` and exactly the submitted modules, none under an id the trail's old modules had |
| TrailEditor.TrailUrlNamesId | frontend/src/pages/Trilhas.jsx:62-64 | the URL of a trail is the collection URL, a slash, and decimal digits that `Number(id)` reads back as the trail's id |
| TrailEditor.TrailUrl | frontend/src/pages/Trilhas.jsx:63 | the URL template (also at :98) is always the collection URL, a slash and something more; `TrailUrlNamesId` states what the rest reads back as |
| TrailEditor.DropAt | frontend/src/pages/Trilhas.jsx:40 | the filter drops one draft exactly when `index` is in range and leaves only drafts of the list; `DropAtRemovesOne` gives the exact result |
| TrailEditor.DropAtRemovesOne | frontend/src/pages/Trilhas.jsx:39-41 | removing the draft at `index` deletes exactly that draft and keeps the others in order; an index outside the list removes nothing |
| TrailEditor.RemoveLeavesStaleOrder | frontend/src/pages/Trilhas.jsx:39-41 | removal does not renumber the later drafts: after removing the first of three, the `order` fields read 2 and 3 |
| TrailEditor.Edited | frontend/src/pages/Trilhas.jsx:45-46 | the edited draft carries `order = index + 1` and the new value in the chosen field, and keeps its other field |
| TrailEditor.Blank | frontend/src/pages/Trilhas.jsx:17 | the blank draft literal (also at :36, :88 and :108) carries the given order, a blank title and a falsy content, so the save filter drops it |
| TrailEditor.Reduced | frontend/src/pages/Trilhas.jsx:58 | `{ title: m.title, content: m.content \|\| null }` keeps the title, sends a truthy content as typed and null for a falsy one, so never `""` |
| TrailEditor.Sent | frontend/src/pages/Trilhas.jsx:57-58 | one draft yields at most one module, and none exactly when its title is empty or all white space |
| TrailEditor.Submitted | frontend/src/pages/Trilhas.jsx:56-58 | the page sends no more modules than it has drafts |
| TrailEditor.SubmittedTitled | frontend/src/pages/Trilhas.jsx:56-58 | every module the page sends has a non-null title that is not blank after trimming, and no `""` content |
| TrailEditor.SubmittedTruthy | frontend/src/pages/Trilhas.jsx:56-58 | every module the page sends has a truthy title, so the store's `title \|\| 'Módulo sem título'` keeps it |
| TrailEditor.SubmittedOne | frontend/src/pages/Trilhas.jsx:57 | one draft is sent, reduced to `{title, content \|\| null}`, exactly when its trimmed title is non-empty |
| TrailEditor.SubmittedAllTitled | frontend/src/pages/Trilhas.jsx:56-58 | when every draft has a title, every draft is sent, in order |
| TrailEditor.SubmittedIgnoresOrder | frontend/src/pages/Trilhas.jsx:56-58 | the drafts' `order` fields never reach the request: drafts differing only there send the same modules |
| TrailEditor.BuildPayload | frontend/src/pages/Trilhas.jsx:53-59 | the payload's name is the trimmed name; its description is the trimmed description or null when that is empty; its modules are the submitted drafts |
| TrailEditor.SaveRequest | frontend/src/pages/Trilhas.jsx:62-72 | the request carries the payload; it is a POST to the collection exactly when no trail is being edited; otherwise a PUT to a URL other than the collection's, from which the server's route reads back exactly the edited trail's id |
| TrailEditor.DeleteRequest | frontend/src/pages/Trilhas.jsx:94-103 | a request is issued exactly when the user confirms; it is a DELETE with no body to a URL from which the server's route reads back exactly the trail's id |
| TrailEditor.StoredAsSent | backend/server.js:95 | a module with a non-empty title and no `""` content is stored with that title and content, never the placeholder |
| TrailEditor.NewModulesAsSent | backend/server.js:93-96 | a list of such modules is stored as sent, numbered 1..N, under the trail |
| TrailEditor.PayloadAcceptedByStore | frontend/src/pages/Trilhas.jsx:50-59 | a payload the page sends has a truthy name, so the store accepts it, and every module is stored with the title and content sent, at its position |
| TrailEditor.SeedDrafts | frontend/src/pages/Trilhas.jsx:85-89 | a trail with modules gives one draft per module carrying its stored title and content; a trail without modules gives exactly one blank draft; drafts are numbered by position, not by their stored `orderNum` |
| TrailEditor.EditThenSaveResends | frontend/src/pages/Trilhas.jsx:81-92 | editing a trail and saving it untouched sends back its modules' titles and contents in order, provided no title is blank |
| TrailEditor.EditThenSaveRestores | frontend/src/pages/Trilhas.jsx:81-92 | after such a save the store holds the same titles, contents and `orderNum`s under new ids |
| TrailEditor.Editor.constructor | frontend/src/pages/Trilhas.jsx:12-17 | the form starts empty with one blank module numbered 1, not editing, hidden |
| TrailEditor.Editor.AddModule | frontend/src/pages/Trilhas.jsx:35-37 | appends one blank draft numbered `length + 1` |
| TrailEditor.Editor.RemoveModule | frontend/src/pages/Trilhas.jsx:39-41 | removes exactly the draft at `index` and shifts the later ones down; the button is offered only while there are two drafts or more, so at least one always remains |
| TrailEditor.Editor.UpdateModule | frontend/src/pages/Trilhas.jsx:43-48 | sets the chosen field of the draft at `index`, renumbers that draft to `index + 1`, and leaves its other field and every other draft unchanged |
| TrailEditor.Editor.Reset | frontend/src/pages/Trilhas.jsx:105-111 | back to the initial form |
| TrailEditor.Editor.Edit | frontend/src/pages/Trilhas.jsx:81-92 | seeds the form from the trail: the name, the description or `""`, the drafts from `SeedDrafts`, and the form opened in editing mode |
| TrailEditor.Editor.Save | frontend/src/pages/Trilhas.jsx:50-79 | a name blank after trimming sends nothing and changes nothing; otherwise it sends the `SaveRequest` of the payload; a resolved fetch, whatever its status, resets the form, and a rejected one keeps the draft |
| DocumentMasks.StripNonDigits | src/pages/CadastroAluno.jsx:41 | `replace(/\D/g, '')` leaves only digits and never lengthens the text |
| DocumentMasks.StripAppend | src/pages/CadastroAluno.jsx:41 | stripping distributes over concatenation |
| DocumentMasks.StripKeepsDigits | src/pages/CadastroAluno.jsx:41 | a digit string is left as it is |
| DocumentMasks.StripSplitOnce | src/pages/CadastroAluno.jsx:41 | a digit string cut in two with a non-digit separator between the parts strips back to itself |
| DocumentMasks.MaskCpf | src/pages/CadastroAluno.jsx:40-51 | `handleCpfChange` formats the value (shows something other than the bare digits) exactly when 6, 9 or 11 digits were typed; the `Cpf…` lemmas below state the shapes, the kept digits, idempotence, the alphabet and the fit in the field |
| DocumentMasks.CpfFull | src/pages/CadastroAluno.jsx:44 | the replacement changes the value exactly when it is 11 digits, and then gives 14 characters with `.` at 3 and 7 and `-` at 11 |
| DocumentMasks.CpfNine | src/pages/CadastroAluno.jsx:46 | the replacement changes the value exactly when it is 9 digits, and then gives 11 characters with `.` at 3 and 7 |
| DocumentMasks.CpfSix | src/pages/CadastroAluno.jsx:48 | the replacement changes the value exactly when it is 6 digits, and then gives 7 characters with `.` at 3 |
| DocumentMasks.CpfFullKeepsDigits | src/pages/CadastroAluno.jsx:44 | the 11-digit replacement only inserts separators |
| DocumentMasks.CpfNineKeepsDigits | src/pages/CadastroAluno.jsx:46 | the 9-digit replacement only inserts separators |
| DocumentMasks.CpfSixKeepsDigits | src/pages/CadastroAluno.jsx:48 | the 6-digit replacement only inserts separators |
| DocumentMasks.CpfFormatsEleven | src/pages/CadastroAluno.jsx:43-44 | eleven digits show as `DDD.DDD.DDD-DD`, fourteen characters |
| DocumentMasks.CpfFormatsNineAndSix | src/pages/CadastroAluno.jsx:45-48 | nine digits show as `DDD.DDD.DDD`, six as `DDD.DDD` |
| DocumentMasks.CpfBareOtherwise | src/pages/CadastroAluno.jsx:43-49 | at any other digit count no anchored pattern matches and the bare digits are shown |
| DocumentMasks.CpfKeepsDigits | src/pages/CadastroAluno.jsx:40-51 | the masked value holds exactly the digits typed, in order |
| DocumentMasks.CpfIdempotent | frontend/src/pages/CadastroAluno.jsx:19-31 | masking an already masked value changes nothing |
| DocumentMasks.CpfAlphabet | frontend/src/pages/CadastroAluno.jsx:19-31 | the masked value contains only digits, `.` and `-` |
| DocumentMasks.CpfFitsField | src/pages/CadastroAluno.jsx:112 | input the field accepts (`maxLength` 14) masks to at most 14 characters |
| DocumentMasks.CpfTypingDropsDots | src/pages/CadastroAluno.jsx:43-48 | as written, six digits show as `DDD.DDD`, and typing a seventh digit makes the field show the seven bare digits (`123.456`, then `7`, gives `1234567`) |
| DocumentMasks.CpfTypedAppends | src/pages/CadastroAluno.jsx:43-49 | with partial last groups, each digit typed (up to 11) is appended to what the field shows, after its group's separator |
| DocumentMasks.CpfTypedAgrees | src/pages/CadastroAluno.jsx:43-49 | the grouped mask shows what the code shows at 0-3, 6, 9 and 11 digits |
| DocumentMasks.CpfGroupsKeepsDigits | src/pages/CadastroAluno.jsx:43-49 | grouping a digit string only inserts separators: stripping the grouped value gives the digits back |
| DocumentMasks.CpfTypedKeepsDigits | src/pages/CadastroAluno.jsx:40-51 | the grouped mask keeps exactly the digits typed |
| DocumentMasks.MaskCnpj | src/pages/CadastroEscola.jsx:39-53 | `handleCnpjChange` formats the value exactly when 5, 8, 12 or 14 digits were typed; the `Cnpj…` lemmas below state the shapes, the kept digits, idempotence, the alphabet and the fit in the field |
| DocumentMasks.CnpjFull | src/pages/CadastroEscola.jsx:43 | the replacement changes the value exactly when it is 14 digits, and then gives 18 characters with `.` at 2 and 6, `/` at 10 and `-` at 15 |
| DocumentMasks.CnpjTwelve | src/pages/CadastroEscola.jsx:45 | the replacement changes the value exactly when it is 12 digits, and then gives 15 characters with `.` at 2 and 6 and `/` at 10 |
| DocumentMasks.CnpjEight | src/pages/CadastroEscola.jsx:47 | the replacement changes the value exactly when it is 8 digits, and then gives 10 characters with `.` at 2 and 6 |
| DocumentMasks.CnpjFive | src/pages/CadastroEscola.jsx:49 | the replacement changes the value exactly when it is 5 digits, and then gives 6 characters with `.` at 2 |
| DocumentMasks.CnpjFullKeepsDigits | src/pages/CadastroEscola.jsx:43 | the 14-digit replacement only inserts separators |
| DocumentMasks.CnpjTwelveKeepsDigits | src/pages/CadastroEscola.jsx:45 | the 12-digit replacement only inserts separators |
| DocumentMasks.CnpjEightKeepsDigits | src/pages/CadastroEscola.jsx:47 | the 8-digit replacement only inserts separators |
| DocumentMasks.CnpjFiveKeepsDigits | src/pages/CadastroEscola.jsx:49 | the 5-digit replacement only inserts separators |
| DocumentMasks.CnpjFormatsFourteen | src/pages/CadastroEscola.jsx:42-43 | fourteen digits show as `DD.DDD.DDD/DDDD-DD`, eighteen characters |
| DocumentMasks.CnpjFormatsTwelve | src/pages/CadastroEscola.jsx:44-45 | twelve digits show as `DD.DDD.DDD/DDDD` |
| DocumentMasks.CnpjFormatsEightAndFive | src/pages/CadastroEscola.jsx:46-49 | eight digits show as `DD.DDD.DDD`, five as `DD.DDD` |
| DocumentMasks.CnpjBareOtherwise | src/pages/CadastroEscola.jsx:42-50 | at any other digit count the bare digits are shown |
| DocumentMasks.CnpjKeepsDigits | src/pages/CadastroEscola.jsx:39-53 | the masked value holds exactly the digits typed, in order |
| DocumentMasks.CnpjIdempotent | frontend/src/pages/CadastroEscola.jsx:18-32 | masking an already masked value changes nothing |
| DocumentMasks.CnpjAlphabet | frontend/src/pages/CadastroEscola.jsx:18-32 | the masked value contains only digits, `.`, `/` and `-` |
| DocumentMasks.CnpjFitsField | src/pages/CadastroEscola.jsx:99 | input the field accepts (`maxLength` 18) masks to at most 18 characters |
| DocumentMasks.CnpjTypingDropsDots | src/pages/CadastroEscola.jsx:42-49 | as written, five digits show as `DD.DDD`, and typing a sixth digit makes the field show the six bare digits (`12.345`, then `6`, gives `123456`) |
| DocumentMasks.CnpjTypedAppends | src/pages/CadastroEscola.jsx:42-50 | with partial last groups, each digit typed (up to 14) is appended to what the field shows, after its group's separator |
| DocumentMasks.CnpjTypedAgrees | src/pages/CadastroEscola.jsx:42-50 | the grouped mask shows what the code shows at 0-2, 5, 8, 12 and 14 digits |
| DocumentMasks.CnpjGroupsKeepsDigits | src/pages/CadastroEscola.jsx:42-50 | grouping a digit string only inserts separators: stripping the grouped value gives the digits back |
| DocumentMasks.CnpjTypedKeepsDigits | src/pages/CadastroEscola.jsx:39-53 | the grouped mask keeps exactly the digits typed |

## Left out

- Express routing, CORS and JSON body parsing are left out: each handler takes its already-parsed fields as parameters.
- SQLite's asynchronous callbacks are left out. Each handler is one atomic step.
- A replace is not a transaction in the source. The model does not show a reader seeing the window between the module delete and the inserts, nor a partial failure in that window.
- `Promise.all` in the list handler is left out: the module queries run in sequence, and their results are gathered in the same order.
- Database errors are left out, except two. The NOT NULL violation on replace with a null name is modelled. So is a failed module query in the list handler, whose result is `[]`; the set of such trails is a parameter.
- `createdAt` is a logical stamp that grows with every trail insert; module inserts leave it as it is. `CURRENT_TIMESTAMP` has one-second resolution, so two trails created in the same second tie in `ORDER BY createdAt DESC`. SQLite then picks an order the model does not fix.
- Non-string JSON values are not modelled. Request fields are a string, null or absent, so a number as `name`, a non-array `modules` or `modules: null` are out.
- Path parameters are taken as integer ids. SQLite's text-to-integer affinity for `:id` is not modelled.
- The page's `fetch` calls are left out: a request is a returned value, and whether it resolved is a parameter. The responses' statuses are not inspected, as in the source. `alert`, `confirm` (a parameter), `window.scrollTo` and `loadTrails` are also left out.
- TrailEditor.Editor.UpdateModule: the source writes into the draft object shared with the previous state array. The model updates a value and so does not show that aliasing.
- The loading flag and the trails list of the page state are left out. They are only filled by `loadTrails`. So is the "+ Nova Trilha" button that shows the form, and all rendering.
- The other pages are not part of this model: login, home, sidebar, pre-registration, presentation, the registration forms' submit and back handlers, and the router.
- TrailEditor.Submitted: drafts seeded from the store always have a string title. A draft with a null title, which would make `title.trim()` throw, is not modelled.
- TrailStore.ModulesOf: the query's `ORDER BY orderNum` is not performed; the rows come in rowid order. The two orders agree on every store the handlers produce, because `TablesValid` keeps each trail's rows numbered 1..N in storage order (`DenseIsSorted`); on a table edited by other means they could differ.
- TrailEditor.TrailUrlNamesId: only non-negative ids are stated. Stored ids start at 1.
- TrailEditor.SaveRequest, TrailEditor.DeleteRequest: the URL names the id only for non-negative ids, for the same reason; a negative id's URL is written with a minus sign and not read back.

## Findings

| source | as written | input that shows it | evidently intended | confidence | as-written member | corrected member |
|---|---|---|---|---|---|---|
| backend/server.js:40 | `ON DELETE CASCADE` is declared, but the connection never issues `PRAGMA foreign_keys = ON`, and SQLite leaves foreign keys unenforced by default; deleting a trail keeps its module rows | one trail with one module, then `DELETE /api/trails/1`: the module row remains, pointing at no trail | deleting a trail deletes its modules | high, not executed | TrailStore.DeleteWithoutForeignKeysOrphans | TrailStore.DeleteCascadeEffect |
| src/pages/CadastroAluno.jsx:43-48 | each branch applies a pattern anchored at both ends that only matches a complete group count, so at 4-5, 7-8 and 10 digits nothing matches and the dots vanish while typing | the field shows `123.456`; typing `7` makes it show `1234567` | partial last groups (`\d{1,3}`, `\d{1,2}`), so the formatting grows as digits are typed | medium, not executed | DocumentMasks.CpfTypingDropsDots | DocumentMasks.CpfTypedAppends |
| src/pages/CadastroEscola.jsx:42-49 | the same for the CNPJ patterns at 3-4, 6-7, 9-11 and 13 digits | the field shows `12.345`; typing `6` makes it show `123456` | partial last groups, so the formatting grows as digits are typed | medium, not executed | DocumentMasks.CnpjTypingDropsDots | DocumentMasks.CnpjTypedAppends |
