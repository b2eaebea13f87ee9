# Fingerprint access control — verified model of the decision logic

This project models the access-control core of a Next.js/Firebase fingerprint
system, in Dafny. A fingerprint reader sends a fingerprint id and an area name.
The server finds the first user whose `huella1` or `huella2` holds that id, and
looks up the permission record `userID_areaKey`. It grants access only when that
record's `habilitado` is exactly `true`, and (in the current route) it appends
one entry to the access log. Around this core sit:
- older variants of the same handler;
- two "is this fingerprint registered?" endpoints;
- a cloud function that checks an area's `usuarios` list;
- the administration screens: the user table with its per-area permission
  editor, the area list with its permission-id column, and a per-user zone editor;
- the meeting-room kiosk that reads the device's reply;
- the access-log page.

Storage is in-memory values. The user collection is a sequence, kept in listing
order so that "first match" means something. Permission, area and log
collections are maps and sequences. Every storage call that can throw is
selected by an explicit `Faults` value, so the error paths are modelled too.

JavaScript values are a datatype `JsValue`:
`undefined`, `null`, booleans, integer numbers, `NaN`, strings and arrays.
The operators the source relies on are each modelled explicitly:
- truthiness, `||` and `??`;
- strict `===`, and `NaN !== NaN`;
- SameValueZero for `includes`;
- loose `==` between integers, decimal integer strings and booleans;
- `String()`, `parseInt`, `toLowerCase`, `toUpperCase`;
- the `\s` whitespace class, as the exact ECMAScript whitespace set.

Modules:
- `Js`, `Text` — JavaScript values and string primitives.
- `AreaKey` — the canonical area key, `toLowerCase()` followed by removal of
  every whitespace run.
- `Directory` — user documents and the first-holder search shared by every handler.
- `AccessRoute` — the current route (`POST`): a class over the stored collections,
  whose method loops over the users with an early `break`, proved against
  `PostSpec`.
- `ApiHandler`, `PagesRoute`, `PagesApi` — the older access handlers.
- `RegisteredCheck`, `RegisteredCheckApi` — the two registered-fingerprint endpoints.
- `AreaFunction` — the HTTP cloud function.
- `RegistroUsers`, `RegistroAreas`, `PermisosUsuario` — the administration screens.
- `Sala`, `Bitacora` — the kiosk and the log page.

## Model

| member | source | states |
|---|---|---|
| AccessRoute.Post | src/app/api/verificarAcceso/route.ts:8-71 | The loop-and-break handler returns the response of `PostSpec`. The log grows by exactly the entries `PostSpec` appends. Only the log may change. |
| AccessRoute.LogEntry.AsDocument | src/app/api/verificarAcceso/route.ts:49-57 | A log document has exactly the seven fields `timestamp, userID, nombre, matricula, area, huellaID, acceso`, and each field holds the entry's value for it. |
| AccessRoute.Finish | src/app/api/verificarAcceso/route.ts:47-69 | A failed append gives 500 `acceso:false` and logs nothing. Otherwise the entry is logged once, and the 200 answer repeats its decision, name and matricula. |
| AccessRoute.PostRefusesIncomplete | src/app/api/verificarAcceso/route.ts:12-14 | A falsy `huellaID` or `area` gives 400 with `acceso:false`, and the log is unchanged. |
| AccessRoute.PostStorageErrorsGive500 | src/app/api/verificarAcceso/route.ts:24-70 | For a complete request, each storage error gives 500 and logs nothing: a failed user listing, a failed read of the first holder's `userID_areaKey` record, and a failed log write. |
| AccessRoute.PostFailsClosed | src/app/api/verificarAcceso/route.ts:66-70 | Every answer is 200, 400 or 500. Any non-200 answer carries `acceso:false` and appends nothing. |
| AccessRoute.PostLogsItsAnswer | src/app/api/verificarAcceso/route.ts:49-64 | A 200 answer comes with exactly one log entry. The entry holds the same decision, name and matricula, the request time, the canonical area key and the parsed id. |
| AccessRoute.PostDecision | src/app/api/verificarAcceso/route.ts:28-45 | Access holds iff some user strictly holds the parsed id and the record under the first holder's `userID_areaKey` has `habilitado === true`. With no holder, the entry is `N/A`, `Usuario Desconocido`, `""`. |
| AccessRoute.PostAnswersWithoutFaults | src/app/api/verificarAcceso/route.ts:24-64 | Without storage failures, a valid request always gets 200 and exactly one log entry. |
| AccessRoute.PostSpecResolved | src/app/api/verificarAcceso/route.ts:31-43 | Once the first holder is found and its permission read succeeds, the outcome is the final append of that user's entry. |
| Directory.FirstHolder | src/app/api/verificarAcceso/route.ts:28-45 | The result is the least index whose `huella1` or `huella2` equals the id. It is `None` exactly when no user holds it. |
| Directory.FirstHolderAt | src/app/api/verificarAcceso/route.ts:28-43 | A holder with no holder before it is the one found. |
| Directory.FirstHolderIgnoresLater | src/app/api/verificarAcceso/route.ts:43 | Users after the first holder are never examined: replacing them changes nothing. |
| Directory.NaNMatchesNoOne | src/app/api/verificarAcceso/route.ts:31 | Under strict equality an unparseable id (`NaN`) matches no user. |
| Js.ParseIntOfNumber | src/app/api/verificarAcceso/route.ts:16 | `parseInt(String(n))` gives back every integer `n`. |
| Js.ParseIntValueAgrees | src/app/api/verificarAcceso/route.ts:16 | The by-cases parse used by the handlers equals `parseInt(String(v))` for every value. |
| Js.ParseIntOfWord | src/app/api/verificarAcceso/route.ts:16 | Text starting with a letter (such as `"undefined"` or `"true"`) parses to `NaN`. |
| Js.LooseMatchesNumeral | src/app/pages/api/verificarAcceso.ts:25 | `n == "n"` holds in both directions, while `n === "n"` does not. |
| Js.StrictImpliesLoose | src/app/pages/api/verificarAcceso.ts:25 | Whatever matches strictly also matches loosely. |
| AreaKey.Normalize | src/app/api/verificarAcceso/route.ts:6 | The key has no whitespace and no upper-case letter, and is no longer than the name. |
| AreaKey.NormalizeChar | src/app/api/verificarAcceso/route.ts:6 | A whitespace character has the empty key; any other character has its lower-cased self as key. With `NormalizeAppend` this fixes the key of every name. |
| AreaKey.NormalizeCanonical | src/interfaces/RegistroAreas.tsx:28-30 | A name already lower-case and free of whitespace is its own key. |
| AreaKey.NormalizeIdempotent | src/interfaces/RegistroAreas.tsx:28-30 | Normalizing a key again leaves it unchanged. |
| AreaKey.StripAppend | src/interfaces/RegistroAreas.tsx:29 | Removing whitespace distributes over concatenation. |
| AreaKey.LowerAppend | src/app/api/verificarAcceso/route.ts:6 | Lower-casing distributes over concatenation. |
| AreaKey.NormalizeAppend | src/app/api/verificarAcceso/route.ts:6 | The key of a concatenation is the concatenation of the keys. |
| AreaKey.NormalizeWhitespace | src/app/api/verificarAcceso/route.ts:6 | A run of whitespace has the empty key. |
| AreaKey.WhitespaceInsensitive | src/interfaces/RegistroAreas.tsx:29 | Inserting or removing whitespace anywhere in a name leaves its key unchanged. |
| AreaKey.CaseInsensitive | src/interfaces/RegistroAreas.tsx:29 | Names equal up to letter case have the same key. |
| AreaKey.CaseFoldings | src/app/api/verificarAcceso/route.ts:6 | The upper-cased and lower-cased forms of a name share its key. |
| RegistroAreas.LoadArea | src/interfaces/RegistroAreas.tsx:45-48 | An area keeps its id. `nombre` is `""` when the stored value is absent or null, and the stored value otherwise. |
| RegistroAreas.NameCell | src/interfaces/RegistroAreas.tsx:197 | The name cell is the name when it is truthy and `-` otherwise, so it always shows something. |
| RegistroAreas.PermissionIdCell | src/interfaces/RegistroAreas.tsx:198-201 | For a string name the permission-id column shows exactly that name's canonical key. Otherwise nothing renders. |
| RegistroAreas.PermissionIdMatchesRequests | src/interfaces/RegistroAreas.tsx:200 | For every request body whose `area` is a string with the same key as the area's name, the id shown equals the key the access route builds from that body. |
| RegistroAreas.RetypedNameMatchesPermissionId | src/interfaces/RegistroAreas.tsx:200 | A request that types the area's name in another letter case, with a whitespace run inserted anywhere, is keyed to the permission id shown for the area. |
| ApiHandler.Handler | src/app/api/verificarAcceso.ts:9-59 | Non-POST gives 405, and a falsy field gives 400 without `acceso`. A POST that passes validation gives exactly the 500 body when the user listing fails, or when the read of the first holder's `userID_areaKey` record fails. Without either failure it gives 200. Every 500 is that body. Access is granted iff the first strict holder's `userID_areaKey` record is enabled. With no match the body is `{acceso:false, mensaje:"Huella no registrada"}`. A match answers `acceso`, `nombre` (or `Sin nombre`), `matricula` (or `""`), the parsed id and the user id. Nothing is written. |
| ApiHandler.SameDecisionAsRoute | src/app/api/verificarAcceso.ts:32-40 | When both answer 200, this handler and the current route decide the same. |
| PagesRoute.Post | src/app/pages/api/verificarAcceso/route.ts:7-43 | A falsy field gives 400. A valid request gives exactly the 500 body when the user listing fails, or when the read of the first loose holder's raw `userID_area` record fails; without either failure it gives 200. Access is granted iff that holder's record is enabled. The no-match and match bodies carry their defaults. |
| PagesRoute.NumeralMatchesNumericSlot | src/app/pages/api/verificarAcceso.ts:25 | A slot holding the number 42 matches a request carrying `"42"`. It would not under `===`. |
| PagesRoute.RawKeysDiffer | src/app/pages/api/verificarAcceso.ts:27 | Areas sent with different spellings (`"Lab Quimica"`, `"labquimica"`) look up different records. |
| PagesApi.Handler | src/app/pages/api/verificarAcceso.ts:7-46 | Non-POST gives 405 `Método no permitido`. A POST gets exactly the route's answer. |
| RegisteredCheck.Registered | src/components/VerificarHuella.tsx:25-29 | The positive answer is 200 with exactly `registrado:true`, `nombre` and `matricula`. Each is the stored value when truthy; otherwise `nombre` is `Sin nombre` and `matricula` is `""`. |
| RegisteredCheck.Scan | src/components/VerificarHuella.tsx:19-34 | `registrado:false` only when no listed user that still exists holds the fingerprint. A positive answer names a live holder. The answer is 500 exactly when some re-read throws before any live holder is reached. Without failures the answer is 200. |
| RegisteredCheck.Handler | src/components/VerificarHuella.tsx:5-39 | Non-POST gives 405, and a falsy `huella` gives 400. For a POST with a `huella`, a failed listing gives exactly the 500 body. Otherwise the answer is the scan's. |
| RegisteredCheck.RefetchedAppend | src/components/VerificarHuella.tsx:19-22 | The re-read keeps listing order and multiplicity: it acts on each part of the listing separately. |
| RegisteredCheck.Refetched | src/components/VerificarHuella.tsx:20-22 | The re-read users are exactly the listed users that still exist, each with its current data, and never more than the listed ones. |
| RegisteredCheck.AnswerSkipsNonHolder | src/components/VerificarHuella.tsx:24 | A user who does not hold the fingerprint does not change the answer. |
| RegisteredCheck.ScanFindsFirstRefetchedHolder | src/components/VerificarHuella.tsx:19-34 | Without read failures the scan answers for the first strict holder among the users that still exist, with their re-read data. |
| RegisteredCheck.DeletedUserSkipped | src/components/VerificarHuella.tsx:20-22 | A user whose re-read finds it deleted is skipped as if it had not been listed. |
| RegisteredCheckApi.Lookup | src/app/api/components/VerificarHuella.tsx:16-34 | A failed listing gives 500. Otherwise the answer is 200, for the first user strictly holding `huellaID` as sent. |
| RegisteredCheckApi.Handler | src/app/api/components/VerificarHuella.tsx:5-35 | Non-POST gives 405. Every POST, even one without `huellaID`, gets the lookup. Nothing is written. |
| RegisteredCheckApi.MissingIdReportsRegistered | src/app/api/components/VerificarHuella.tsx:14-21 | As written, a POST without `huellaID` is reported registered as the first user whose `huella1` is absent. |
| RegisteredCheckApi.CheckedHandler | src/app/api/components/VerificarHuella.tsx:14 | With a presence check, a falsy `huellaID` gives 400 and never `registrado`. A truthy one gets the lookup. |
| RegisteredCheckApi.CheckedHandlerMatchesOnlyRealIds | src/app/api/components/VerificarHuella.tsx:19-28 | With the check, a positive answer always names a user who holds a present, truthy id. |
| AreaFunction.Admits | functions/index.js:24-27 | An absent or falsy `usuarios` admits no one. A list admits iff it includes the parsed id under SameValueZero. Only arrays and strings can be asked. |
| AreaFunction.Verify | functions/index.js:8-37 | 400 iff a parameter is missing. 404 `Área no encontrada` exactly when both parameters are given and the area document (named verbatim) is absent and readable. 200 with `acceso` true iff `usuarios` admits `parseInt(idHuella)`, else `motivo:"Sin permiso"`. Every 500 is exactly `Error interno`. It is given whenever both parameters are present and the area is not a string, or its read throws, or it exists but its `usuarios` value has no `includes`. |
| AreaFunction.NumeralAdmittedIffListed | functions/index.js:27 | A query carrying the numeral of `n` is admitted iff the number `n` is in the list. |
| AreaFunction.StringEntriesNeverAdmit | functions/index.js:27 | Ids stored as strings in the list never admit anyone. |
| AreaFunction.UnparsableIdAdmittedOnlyByNaN | functions/index.js:27 | An unparseable id is admitted only by a list that itself holds `NaN`. |
| AreaFunction.ListedIdGranted | functions/index.js:25-28 | An area whose `usuarios` array holds the number `n` grants a query for the numeral of `n` with exactly `{acceso:true}`. |
| AreaFunction.UnlistedIdRefused | functions/index.js:25-31 | An area whose `usuarios` array does not hold `n` refuses a query for the numeral of `n` with exactly `{acceso:false, motivo:"Sin permiso"}`. |
| RegistroUsers.LoadUser | src/interfaces/RegistroUsers.tsx:53-60 | A loaded user keeps its id. Each of `nombre`, `matricula`, `huella1` and `huella2` is the stored value, or `""` when that is absent or null, so none is left `undefined` or `null`. |
| RegistroUsers.LoadUsers | src/interfaces/RegistroUsers.tsx:50-62 | The table holds exactly the loaded documents with a non-empty `nombre` and `matricula`. |
| RegistroUsers.LoadUsersOne | src/interfaces/RegistroUsers.tsx:50-62 | One document gives its loaded row when that row is kept, and nothing otherwise. |
| RegistroUsers.LoadUsersAppend | src/interfaces/RegistroUsers.tsx:50-62 | Loading keeps listing order and multiplicity: two listings in a row give the first table followed by the second. |
| RegistroUsers.UnnamedUserDropped | src/interfaces/RegistroUsers.tsx:62 | A document without a name is never in the table. |
| RegistroUsers.WithId | src/interfaces/RegistroUsers.tsx:106 | The saved row carries the given id and the form's four values. |
| RegistroUsers.Edited | src/interfaces/RegistroUsers.tsx:103-109 | Editing keeps length and every id. Entries with the edited id take the form's values, and all other entries are unchanged. |
| RegistroUsers.Created | src/interfaces/RegistroUsers.tsx:111-112 | Creating appends exactly one user, at the end, with the new document's id. |
| RegistroUsers.Deleted | src/interfaces/RegistroUsers.tsx:130 | The remaining users are exactly those without the deleted id. |
| RegistroUsers.DeletedOne | src/interfaces/RegistroUsers.tsx:130 | One entry is dropped iff it carries the deleted id. |
| RegistroUsers.DeletedAppend | src/interfaces/RegistroUsers.tsx:130 | Deletion keeps order and multiplicity: it acts on each part of the table separately. |
| RegistroUsers.SaveUser | src/interfaces/RegistroUsers.tsx:99-119 | An edit when a user is being edited, a creation otherwise. The table is unchanged when the write fails. |
| RegistroUsers.DeleteUser | src/interfaces/RegistroUsers.tsx:126-136 | Nothing changes unless the deletion is confirmed and succeeds. |
| RegistroUsers.DeleteUndoesCreate | src/interfaces/RegistroUsers.tsx:111-130 | Deleting a freshly created user restores the table exactly. |
| RegistroUsers.EditIdempotent | src/interfaces/RegistroUsers.tsx:103-109 | Saving the same edit twice equals saving it once. |
| RegistroUsers.DeleteAfterEdit | src/interfaces/RegistroUsers.tsx:103-130 | Deleting an edited user leaves the same table as deleting it unedited. |
| RegistroUsers.EnabledAreas | src/interfaces/RegistroUsers.tsx:75-81 | An area is in a user's list iff some record filed under that user's key has a truthy `habilitado` and that `areaID`. |
| RegistroUsers.EnabledAreasAppend | src/interfaces/RegistroUsers.tsx:75-81 | Grouping keeps encounter order and multiplicity: two listings in a row give the first list followed by the second. |
| RegistroUsers.GroupEnabled | src/interfaces/RegistroUsers.tsx:75-81 | After the loop, a user has an entry iff it has an enabled record. The entry is its enabled `areaID`s in encounter order. Disabled records add nothing. |
| RegistroUsers.AssignedCount | src/interfaces/RegistroUsers.tsx:260-266 | The permissions cell shows a positive count iff the user's list is non-empty, and `Sin acceso` otherwise. |
| RegistroUsers.CountAfterGrouping | src/interfaces/RegistroUsers.tsx:260-262 | Right after loading, the count is the number of the user's enabled records. |
| RegistroUsers.SelectedAreasAppend | src/interfaces/RegistroUsers.tsx:155-159 | The selection keeps listing order and multiplicity: two listings in a row give the first selection followed by the second. |
| RegistroUsers.SelectedAreas | src/interfaces/RegistroUsers.tsx:155-159 | An area is initially selected iff some record with `userID === id` has a truthy `habilitado` and that `areaID`. |
| RegistroUsers.SelectionMatchesGrouping | src/interfaces/RegistroUsers.tsx:156-159 | When every `userID` is a string, the editor opens on exactly the user's grouped list. |
| RegistroUsers.NumericUserIdGroupedNotSelected | src/interfaces/RegistroUsers.tsx:158 | A record with a numeric `userID` is grouped under its numeral but not selected (`===`). |
| RegistroUsers.Record | src/interfaces/RegistroUsers.tsx:169-174 | A written record names the user and area, and is enabled iff the area id is in the selection. |
| RegistroUsers.Written | src/interfaces/RegistroUsers.tsx:168-175 | The table's keys after the writes are the old keys plus one `userId_areaId` per listed area. |
| RegistroUsers.WrittenRecords | src/interfaces/RegistroUsers.tsx:168-175 | Every listed area's record states its membership in the selection, even when unchanged. Every other key keeps its record. |
| RegistroUsers.KeySuffix | src/interfaces/RegistroUsers.tsx:170 | Two keys of one user are equal only for equal area ids. |
| RegistroUsers.SavePermissions | src/interfaces/RegistroUsers.tsx:164-189 | With no selected user nothing changes. Otherwise records are written in area order until a write throws. The per-user map takes the selection only when all writes succeed. |
| PermisosUsuario.LoadZones | src/components/PermisosUsuario.tsx:43-49 | The zone list is kept in order. `hasAccess` holds iff the id is in `zonasPermitidas`, and is false for all zones when that list is absent. |
| PermisosUsuario.Toggle | src/components/PermisosUsuario.tsx:62-68 | `hasAccess` flips exactly on zones with the given id. Order, length and other fields are unchanged. |
| PermisosUsuario.AllowedZones | src/components/PermisosUsuario.tsx:74-76 | The saved ids are exactly those of zones with access. |
| PermisosUsuario.AllowedZonesOne | src/components/PermisosUsuario.tsx:74-76 | One zone contributes its id iff it is ticked. |
| PermisosUsuario.AllowedZonesAppend | src/components/PermisosUsuario.tsx:74-76 | The saved list keeps the order and multiplicity of the zone list. |
| PermisosUsuario.Save | src/components/PermisosUsuario.tsx:70-80 | Nothing is written without a user. Otherwise the user's document gets the allowed ids. |
| PermisosUsuario.ToggleTwice | src/components/PermisosUsuario.tsx:62-68 | Toggling a zone twice restores the list. |
| PermisosUsuario.TogglesCommute | src/components/PermisosUsuario.tsx:62-68 | Toggles of two zones commute. |
| PermisosUsuario.LoadThenSave | src/components/PermisosUsuario.tsx:45-76 | Load then save keeps exactly the configured zones whose ids were permitted. Unknown ids are dropped. |
| PermisosUsuario.ToggleFlipsSaved | src/components/PermisosUsuario.tsx:62-76 | Toggling a zone with a unique id moves that id into or out of the saved list. |
| Sala.MatchFrom | src/app/verificacion/sala.tsx:27 | The leftmost match at or after a position, with its greedy digit capture. It is `None` iff nothing there matches. |
| Sala.IdMatch | src/app/verificacion/sala.tsx:27 | `/ID: (\d+)/` captures the maximal digit run after the leftmost `ID: ` followed by a digit. It fails iff there is no such place. |
| Sala.AfterDevice | src/app/verificacion/sala.tsx:22-33 | A non-ok reply shows the communication error, and a reply without an id shows the read error with the trimmed text. Otherwise the route is asked about the captured number for `Sala de reuniones 1`. |
| Sala.Request | src/app/verificacion/sala.tsx:42 | The request carries the numeric id and the area. |
| Sala.AfterBackend | src/app/verificacion/sala.tsx:47-51 | The denial message shows iff `acceso` is falsy. Otherwise the message is the allowed one, with `nombre` and `matricula`. |
| Sala.ReadsWrittenId | src/app/verificacion/sala.tsx:27-33 | A reply containing `ID: ` and the numeral of `n` (with no earlier match) is read as `n`. |
| Sala.DenialShownAsDenial | src/app/verificacion/sala.tsx:47-51 | Every denying answer is shown as a denial. |
| Sala.RouteReadsKioskId | src/app/verificacion/sala.tsx:42 | The route parses the kiosk's request back to the same id. The request is complete iff the id is not 0. |
| Sala.ZeroIdDenied | src/app/verificacion/sala.tsx:33-51 | A finger enrolled as id 0 is always shown as denied: the route refuses the request as incomplete. |
| Bitacora.LoadRow | src/app/bitacora/page.tsx:51-62 | Each of `timestamp`, `nombre`, `matricula`, `area` and `huellaID` is the stored value when truthy; otherwise it is `""`, `Usuario Desconocido`, `N/A`, `N/A` or `0`. `acceso` holds iff it is stored as exactly `true`. |
| Bitacora.ResultLabel | src/app/bitacora/page.tsx:84-90 | `CONCEDIDO` iff access, `DENEGADO` iff not. |
| Bitacora.TimestampCell | src/app/bitacora/page.tsx:24-33 | An empty timestamp shows `Fecha no registrada`. Any other shows its locale formatting. |
| Bitacora.AreaCell | src/app/bitacora/page.tsx:119 | A string area is shown upper-cased letter by letter. Any other value cannot render. |
| Bitacora.HuellaCell | src/app/bitacora/page.tsx:127 | Id 0 shows `N/A`, and any other id shows unchanged. |
| Bitacora.HuellaNAIffStoredFalsy | src/app/bitacora/page.tsx:59 | A loaded row shows `N/A` for the id iff the stored id was falsy, or was itself `"N/A"`. |
| Bitacora.LogEntryRoundTrip | src/app/bitacora/page.tsx:51-62 | A row loaded from a route log entry has the same decision, time, area and (if truthy) name. |
| Bitacora.PageShowsRouteDecision | src/app/bitacora/page.tsx:84-90 | For every request the route answered with 200, the page labels its log row `CONCEDIDO` iff the route answered `acceso:true`. |

## Left out

- Database calls are replaced by in-memory values, and the order of a listing is taken as given. Atomicity across documents and concurrent requests are not modelled.
- Errors of the HTTP layer itself are not modelled:
  - a request body that fails to parse (`req.json()` in the routes throws outside the `try`);
  - a missing `req.body`.
- Responses are values with a status and fields. JSON serialization is not modelled:
  - it drops `undefined` fields;
  - it turns `NaN` into `null`.

  The kiosk reads the route's fields as they were built.
- The database refusing `undefined` field values in a written document is not modelled.
- JavaScript numbers are integers here. Fractional ids, `Infinity` and `-0` are not modelled.
- `parseInt`'s hexadecimal `0x` prefix and its radix guessing are not modelled.
- `toLowerCase`/`toUpperCase` cover ASCII and the one-to-one Latin-1 letters only. Other Unicode case mappings (`ß`, `ÿ`, Greek, Cyrillic, ...) are not modelled.
- Loose `==` is modelled between numbers, strings, booleans, `null` and `undefined`. Arrays are compared by their joined text. Objects are not modelled.
- `String.prototype.includes` on a `usuarios` value that is a string is modelled as a substring test. A value of any other type with no `includes` is modelled as an error (500).
- The device fetch, its hard-coded address, the 5-second wait, the `🧠 Consultando permisos` progress message and the `❌ Error general` path of the kiosk are left out (network and timing).
- `toLocaleString` of the log page is a parameter: the formatted text is taken as given.
- The log ordering by timestamp is done by the database, not by this code, and is not modelled.
- A `userID` that names an `Object.prototype` member (`constructor`, `toString`) makes the grouping object see an existing entry. The model uses a plain map instead.
- `zonasPermitidas` is modelled as an absent value or an array. A stored string would make `includes` a substring test, which is not modelled.
- An area id containing `/` would name a sub-collection path in the cloud function and the permission keys. This is not modelled.
- React rendering, hooks, modals and alerts are not modelled. The form components that produce a new user or area are not part of this model.
- Js.StringToNumber: only optional whitespace, an optional sign and decimal digits convert to a number. Text such as `"42.0"`, `"4.2e1"`, `"0x2A"`, `"0b101"` or `"Infinity"` gives `NaN` here, although JavaScript's `Number()` (and so loose `==`) reads them as numbers.
- Js.ParseIntOfNumber: numbers are unbounded integers. JavaScript numbers lose precision past 2^53, and `String(n)` switches to exponent form from 10^21, so the round trip holds in JavaScript only below those bounds.
- Js.ParseInt: its own contract only says that a result needs a digit or a sign after the leading whitespace. The exact value is stated by Js.ParseIntOfNumber and Js.ParseIntValueAgrees instead.

## Findings

| source | as written | input that shows it | evidently intended | confidence | as-written member | corrected member |
|---|---|---|---|---|---|---|
| src/app/api/components/VerificarHuella.tsx:14-21 | `huellaID` is compared with `===` as sent, with no presence check | a POST whose body has no `huellaID`, against a user list whose first user has no `huella1` | a request without a fingerprint is refused with 400, as the sibling handler src/components/VerificarHuella.tsx:14 does | not executed; high | RegisteredCheckApi.MissingIdReportsRegistered | RegisteredCheckApi.CheckedHandler |
