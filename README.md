# Repositorio Digital ESCOM — user accounts, verification codes and author sync, in Dafny

This project models the account core of the ESCOM digital-repository API and
proves properties of it:

- **Sign-up, sign-in and e-mail verification** (`ControladorUsuarios`). They
  work over a user table, a table of short-lived codes and a mail sender.
  - Sign-up ends in one of three ways. A verified duplicate is a conflict.
    An unverified duplicate gets its code resent. A new address creates the
    user and issues a code.
  - Staff addresses (containing `@ipn.mx`) are also linked to an author in the
    external registry before the code is issued.
  - Sign-in refuses unknown and unverified users and otherwise replaces the
    user's code.
  - Verification runs an ordered chain of checks, then consumes the code and
    marks the user verified.
  - Update and delete carry their existence and e-mail-conflict guards.
  - Every action ends in a status and a `Respuesta` envelope.
- **The outbox** (`RepositorioOutbox`): a table of events with `Processed`
  and `RetryCount`. You can append, fetch the ten oldest pending events, mark
  one processed, or count a retry. Five retries take an event out of the
  queue.
- **The outbox dispatcher** (`AutorBackgroundService`): one pass over the
  fetched batch.
  - `CREAR_AUTOR` does find-or-create-then-link; `ELIMINAR_RELACION` removes
    a link if one exists.
  - A handler that returns marks its event processed; one that throws counts
    a retry.
- **The two token tables** (`RepositorioLoginTokens`, `RepositorioTokens`) and
  the user table (`RepositorioUsuarios`).
- **The pure helpers**:
  - the role-transition classifier and `ObtenerAutorIdAsync`
    (`AutorDirectService`);
  - the hexadecimal token and expiry policy (`TokenService`);
  - the e-mail-domain validator (`ValidacionCorreo`);
  - the boleta validator (`ValidacionBoleta`);
  - the `Respuesta` factories (`Respuestas`).

How the model is built:

- Tables that the source changes in place are classes with a `seq` of rows
  and an auto-increment counter.
- The external author registry is a value (`AuthorRegistry.Registry`) passed
  into and out of the operations that call it.
- The outcome of every registry call is a parameter (`Fault`). A call can
  succeed, answer `Ok = false`, return null, or throw.
- Time is an integer number of seconds and is passed in.
- The fresh code, the random token bytes, the access token and its expiry,
  and whether a mail was delivered are parameters.

Some consequences the proofs make explicit:

- The code table never holds two codes for one user, and no two users share
  an e-mail (`ControladorUsuarios.Controlador.Valid`, kept by every action).
- A code verifies once; a second attempt finds no code.
- Sign-up stores the role "1" even for staff addresses. Setting the role to
  "2" at `ControladorUsuarios.cs:162` happens after the row is written. So
  the author lookup in sign-in only runs for users whose role was changed
  later.
- A staff sign-up whose author sync fails keeps the new, unverified user and
  issues no code. Signing up again takes the resend path and never reaches
  the registry, so sign-up alone never links that user.
- When the registry lookup answers, the sign-up sync and the `CREAR_AUTOR`
  handler change the registry identically. A null reply to the creation
  call makes sign-up answer 500, because its `Ok` flag is read from null. A null lookup response stops
  sign-up, while the handler goes on and creates the author.
- A boleta whose year is the current year plus one is accepted, although the
  error message names only the current year as the upper bound.

## Model

| member | source | states |
|---|---|---|
| Respuestas.Success | APIMaterialesESCOM/Models/Respuesta.cs:12-15 | success envelope: Ok set, the payload and message given, no errors |
| Respuestas.Failure | APIMaterialesESCOM/Models/Respuesta.cs:17-20 | two-argument failure: Ok clear, no payload, message and errors passed through |
| Respuestas.FailureWithData | APIMaterialesESCOM/Models/Respuesta.cs:23-26 | three-argument failure: Ok clear, payload is the one supplied (none by default) |
| Respuestas.SimpleSuccess | APIMaterialesESCOM/Models/Respuesta.cs:35-38 | payload-free success: Ok set, message given, no errors |
| Respuestas.SimpleFailure | APIMaterialesESCOM/Models/Respuesta.cs:40-43 | payload-free failure: Ok clear, message and errors passed through |
| Respuestas.FailureOverloadsAgree | APIMaterialesESCOM/Models/Respuesta.cs:12-43 | the two failure overloads agree on the default payload; no failure envelope equals a success envelope |
| TokenService.ToHexString | APIMaterialesESCOM/Servicios/TokenService.cs:16 | two upper-case hex digits per byte, high nibble first |
| TokenService.HexRoundTrip | APIMaterialesESCOM/Servicios/TokenService.cs:16 | decoding the hex text gives back the bytes |
| TokenService.HexInjective | APIMaterialesESCOM/Servicios/TokenService.cs:16 | different byte buffers give different tokens |
| TokenService.GenerateToken | APIMaterialesESCOM/Servicios/TokenService.cs:8-17 | a 32-byte buffer becomes 64 characters, all in 0-9A-F, that decode back to the buffer |
| TokenService.ValidateToken | APIMaterialesESCOM/Servicios/TokenService.cs:19-23 | valid iff the token is present and non-empty |
| TokenService.GetExpirationTime | APIMaterialesESCOM/Servicios/TokenService.cs:26-29 | the expiry lies after now |
| TokenService.GetExpirationTimeLogin | APIMaterialesESCOM/Servicios/TokenService.cs:31-34 | the expiry lies after now |
| TokenService.LoginExpiresFirst | APIMaterialesESCOM/Servicios/TokenService.cs:26-34 | the horizons are exactly 24 h and 15 min, and for the same clock reading the login expiry comes first |
| TokenService.IsTokenExpired | APIMaterialesESCOM/Servicios/TokenService.cs:37-40 | expired exactly when the clock is strictly past the expiry instant; at the instant itself the token is live |
| TokenService.ExpiryIsStrict | APIMaterialesESCOM/Servicios/TokenService.cs:37-40 | not expired at issue or at the expiry instant; expired one second later, and it stays expired |
| Text.ToLower | APIMaterialesESCOM/Validacion/ValidadorAttribute.cs:13 | lower-cases each ASCII letter in place and keeps every other character and the length |
| Text.ToLowerIdempotent | APIMaterialesESCOM/Validacion/ValidadorAttribute.cs:13 | lower-casing twice equals lower-casing once |
| Text.TrimPadded | APIMaterialesESCOM/Validacion/ValidarBoletaAttribute.cs:27 | whitespace padded around a trimmed value is removed again |
| Text.NatToStringRoundTrip | APIMaterialesESCOM/Controllers/ControladorUsuarios.cs:294 | the decimal text of an id in the relation error reads back as that id |
| Text.StudentAddressIsNotStaff | APIMaterialesESCOM/Controllers/ControladorUsuarios.cs:160 | an address ending in "@alumno.ipn.mx" with no other '@' never contains "@ipn.mx", so student sign-up skips the author sync |
| ValidacionCorreo.IsValid | APIMaterialesESCOM/Validacion/ValidadorAttribute.cs:6-21 | a missing value is the "required" error; otherwise success iff the lower-cased value ends with "@alumno.ipn.mx" or "@ipn.mx", else the domain error |
| ValidacionCorreo.CaseInsensitive | APIMaterialesESCOM/Validacion/ValidadorAttribute.cs:13 | the verdict is the same for a value and its lower-case form |
| ValidacionCorreo.DomainExamples | APIMaterialesESCOM/Validacion/ValidadorAttribute.cs:15-20 | both domains are accepted (also "A@IPN.MX"); the empty string and an address with no '@' are rejected |
| ValidacionBoleta.BoletaYear | APIMaterialesESCOM/Validacion/ValidarBoletaAttribute.cs:39 | the year of a well-formed boleta lies in 2000..2099, so the lower bound check never fires |
| ValidacionBoleta.BoletaYearParses | APIMaterialesESCOM/Validacion/ValidarBoletaAttribute.cs:39 | the year equals the integer parse of "20" followed by the captured two digits |
| ValidacionBoleta.IsValid | APIMaterialesESCOM/Validacion/ValidarBoletaAttribute.cs:8-49 | blank: error iff the e-mail ends with "@alumno.ipn.mx"; otherwise the format error comes before any year check, and success iff the trimmed value is 20DD63DDDD with year at most the current year plus one |
| ValidacionBoleta.PaddingIgnored | APIMaterialesESCOM/Validacion/ValidarBoletaAttribute.cs:27 | leading and trailing whitespace does not change the verdict |
| ValidacionBoleta.EmailIrrelevantWhenPresent | APIMaterialesESCOM/Validacion/ValidarBoletaAttribute.cs:17-48 | for a non-blank boleta the e-mail does not matter |
| ValidacionBoleta.NextYearAccepted | APIMaterialesESCOM/Validacion/ValidarBoletaAttribute.cs:43-45 | the year after the current one is accepted and the one after that is rejected with the year message |
| ValidacionBoleta.WellFormedAccepted | APIMaterialesESCOM/Validacion/ValidarBoletaAttribute.cs:30-48 | a well-formed boleta within the year range is accepted whatever the e-mail |
| ValidacionBoleta.TrimFixed | APIMaterialesESCOM/Validacion/ValidarBoletaAttribute.cs:27 | a value without whitespace at either end is its own trim |
| ValidacionBoleta.ScenarioBoleta | APIMaterialesESCOM/Validacion/ValidarBoletaAttribute.cs:35-46 | "2024631234" is accepted whenever the current year is 2023 or later |
| AutorDirectService.DeterminarTipoEventoActualizacion | APIMaterialesESCOM/Servicios/AutorDirectService.cs:35-47 | CREAR_AUTOR iff the role enters {"2","3"}; ELIMINAR_RELACION iff it leaves; SIN_CAMBIOS iff membership is unchanged |
| AutorDirectService.ClassifierRange | APIMaterialesESCOM/Servicios/AutorDirectService.cs:40-46 | the result is one of the three strings; equal roles and "2"/"3" swaps give SIN_CAMBIOS |
| AutorDirectService.SwapRoles | APIMaterialesESCOM/Servicios/AutorDirectService.cs:37-43 | swapping the two roles swaps CREAR_AUTOR and ELIMINAR_RELACION and keeps SIN_CAMBIOS |
| AutorDirectService.ObtenerAutorId | APIMaterialesESCOM/Servicios/AutorDirectService.cs:14-33 | the linked author's id when the lookup answers Ok; 0 on a refused or null answer, a missing link or an exception |
| AuthorRegistry.FindAuthor | APIMaterialesESCOM/Servicios/AutorBackgroundService.cs:85 | finds an author with the e-mail, or none iff no author has it |
| AuthorRegistry.ObtenerAutor | APIMaterialesESCOM/Servicios/AutorBackgroundService.cs:85-89 | Ok iff the call goes through and an author has the e-mail, with that author's id; null and exception exactly on those faults |
| AuthorRegistry.CrearAutor | APIMaterialesESCOM/Models/ApiRequest.cs:10-49 | never throws (an exception becomes `Ok = false`); a body reading `null` is a null reply; on Ok one author is appended under the registry's next id; otherwise the registry is unchanged |
| AuthorRegistry.CrearRelacion | APIMaterialesESCOM/Servicios/AutorBackgroundService.cs:113-117 | Ok iff the call goes through, and then the user's link is set; otherwise nothing changes |
| AuthorRegistry.GetRelacion | APIMaterialesESCOM/Servicios/AutorBackgroundService.cs:135-138 | Ok iff the call goes through and the user has a link, with the linked author's id |
| AuthorRegistry.EliminarRelacion | APIMaterialesESCOM/Servicios/AutorBackgroundService.cs:139-144 | Ok iff the call goes through, and then the matching link is gone; otherwise nothing changes |
| RepositorioOutbox.Pending | APIMaterialesESCOM/Repositorios/RepositorioOutbox.cs:39 | exactly the rows not processed and with fewer than 5 retries |
| RepositorioOutbox.InsertByCreatedAt | APIMaterialesESCOM/Repositorios/RepositorioOutbox.cs:40 | inserting keeps every row and adds the new one |
| RepositorioOutbox.InsertSorted | APIMaterialesESCOM/Repositorios/RepositorioOutbox.cs:40 | inserting into a sequence ordered by CreatedAt keeps it ordered |
| RepositorioOutbox.SortByCreatedAt | APIMaterialesESCOM/Repositorios/RepositorioOutbox.cs:40 | a permutation of the input, ordered by CreatedAt |
| RepositorioOutbox.InsertUnique | APIMaterialesESCOM/Repositorios/RepositorioOutbox.cs:40 | inserting a row with a fresh id keeps ids distinct |
| RepositorioOutbox.SortUnique | APIMaterialesESCOM/Repositorios/RepositorioOutbox.cs:40 | sorting keeps ids distinct |
| RepositorioOutbox.Take | APIMaterialesESCOM/Repositorios/RepositorioOutbox.cs:41 | the first min(n, length) rows |
| RepositorioOutbox.SortedRows | APIMaterialesESCOM/Repositorios/RepositorioOutbox.cs:40 | sorting keeps the length and exactly the same members |
| RepositorioOutbox.PendingBatch | APIMaterialesESCOM/Repositorios/RepositorioOutbox.cs:36-41 | at most ten rows, drawn from the pending rows without repetition, in CreatedAt order |
| RepositorioOutbox.PendingBatchSound | APIMaterialesESCOM/Repositorios/RepositorioOutbox.cs:36-41 | every fetched row is a pending row of the table; the batch has min(pending, 10) rows, oldest first |
| RepositorioOutbox.PendingBatchOldestFirst | APIMaterialesESCOM/Repositorios/RepositorioOutbox.cs:40-41 | a pending row left out means the batch is full and its last row is no younger than the one left out |
| RepositorioOutbox.BatchUniqueIds | APIMaterialesESCOM/Repositorios/RepositorioOutbox.cs:36-41 | the fetched batch has distinct ids |
| RepositorioOutbox.ScanStep | APIMaterialesESCOM/Repositorios/RepositorioOutbox.cs:49-61 | reading one more row extends the sorted pending set by that row when it is pending and leaves it alone otherwise |
| RepositorioOutbox.MarkProcessed | APIMaterialesESCOM/Repositorios/RepositorioOutbox.cs:69 | the table keeps its length |
| RepositorioOutbox.MarkProcessedSpec | APIMaterialesESCOM/Repositorios/RepositorioOutbox.cs:69 | the rows with the id become processed, others are unchanged; idempotent; an unknown id changes nothing |
| RepositorioOutbox.IncrementRetry | APIMaterialesESCOM/Repositorios/RepositorioOutbox.cs:81 | the table keeps its length |
| RepositorioOutbox.IncrementRetrySpec | APIMaterialesESCOM/Repositorios/RepositorioOutbox.cs:81 | the rows with the id get exactly one more retry and nothing else changes; an unknown id changes nothing |
| RepositorioOutbox.Apply | APIMaterialesESCOM/Repositorios/RepositorioOutbox.cs:17-88 | no operation shrinks the table |
| RepositorioOutbox.RunAdvances | APIMaterialesESCOM/Repositorios/RepositorioOutbox.cs:39-81 | over any sequence of operations no row loses Processed or retries, so a row that stopped being pending never becomes pending again |
| RepositorioOutbox.OutboxStore.AddEvent | APIMaterialesESCOM/Repositorios/RepositorioOutbox.cs:17-31 | appends one unprocessed row with no retries, created now, under a fresh id; other rows unchanged |
| RepositorioOutbox.OutboxStore.GetPendingEvents | APIMaterialesESCOM/Repositorios/RepositorioOutbox.cs:33-64 | the reader loop returns the pending batch and changes nothing |
| RepositorioOutbox.OutboxStore.MarkAsProcessed | APIMaterialesESCOM/Repositorios/RepositorioOutbox.cs:66-76 | the table becomes the marked table; ids stay distinct |
| RepositorioOutbox.OutboxStore.IncrementRetryCount | APIMaterialesESCOM/Repositorios/RepositorioOutbox.cs:78-88 | the table becomes the incremented table; ids stay distinct |
| AutorBackgroundService.Vincular | APIMaterialesESCOM/Servicios/AutorBackgroundService.cs:113-117 | returns iff the link call goes through, with the link set; otherwise throws with the registry unchanged |
| AutorBackgroundService.ProcesarCrearAutor | APIMaterialesESCOM/Servicios/AutorBackgroundService.cs:77-126 | returns iff the lookup does not throw, the link goes through, and the author was found or created; then the user is linked to an author with its e-mail; at most one author is added, none when the lookup found one |
| AutorBackgroundService.ProcesarEliminarRelacion | APIMaterialesESCOM/Servicios/AutorBackgroundService.cs:128-158 | authors untouched; no link is a successful no-op; an existing link is removed using its author id, or the handler throws; a null or throwing lookup throws |
| AutorBackgroundService.Handle | APIMaterialesESCOM/Servicios/AutorBackgroundService.cs:44-54 | an unreadable payload throws with the registry untouched; only a creation event can add an author, the one it carries; an unknown type changes nothing |
| AutorBackgroundService.ProcesarEvento | APIMaterialesESCOM/Servicios/AutorBackgroundService.cs:58-75 | a null payload returns untouched; an unreadable one throws; each known type dispatches to its handler; an unknown type returns untouched |
| AutorBackgroundService.RowsAfter | APIMaterialesESCOM/Servicios/AutorBackgroundService.cs:42-55 | the table keeps its length over a pass |
| AutorBackgroundService.RowsAfterSpec | APIMaterialesESCOM/Servicios/AutorBackgroundService.cs:40-55 | a row outside the batch is unchanged; a batch row is marked processed if its handler returned and gets one more retry if it threw |
| AutorBackgroundService.EventThrewPrefix | APIMaterialesESCOM/Servicios/AutorBackgroundService.cs:42-55 | whether an event's handler threw depends only on the events before it |
| AutorBackgroundService.NullOrUnknownIsProcessed | APIMaterialesESCOM/Servicios/AutorBackgroundService.cs:60-73 | an event with a null payload or an unknown type never throws, so it is marked processed |
| AutorBackgroundService.RetryCreatesNoDuplicate | APIMaterialesESCOM/Servicios/AutorBackgroundService.cs:85-117 | after "create ok, link failed" the event throws; a retry finds the author and adds none |
| AutorBackgroundService.CrearAutorIdempotent | APIMaterialesESCOM/Servicios/AutorBackgroundService.cs:77-126 | with every call going through, running the handler twice equals running it once |
| AutorBackgroundService.EliminarRelacionIdempotent | APIMaterialesESCOM/Servicios/AutorBackgroundService.cs:128-158 | with every call going through, the link is gone and a second run changes nothing |
| AutorBackgroundService.Despachar | APIMaterialesESCOM/Servicios/AutorBackgroundService.cs:44-54 | after one handler the table is that row marked processed if it returned, or given one more retry if it threw; the outbox invariant is kept |
| AutorBackgroundService.AfterStep | APIMaterialesESCOM/Servicios/AutorBackgroundService.cs:42-55 | handling one more event extends the pass's registry and table by exactly that event's handler and bookkeeping |
| AutorBackgroundService.RowsAfterLast | APIMaterialesESCOM/Servicios/AutorBackgroundService.cs:47-53 | the last event of a batch changes only the rows carrying its id, by its own outcome |
| AutorBackgroundService.ProcesarEventosPendientes | APIMaterialesESCOM/Servicios/AutorBackgroundService.cs:35-56 | fetches the pending batch and leaves the table as the pass specification says (each batch row updated once by its handler's outcome, others unchanged) and the registry as the handlers left it |
| RepositorioLoginTokens.FindToken | APIMaterialesESCOM/Repositorios/RepositorioLoginTokens.cs:49-70 | a row holding the value, or none iff no row holds it |
| RepositorioLoginTokens.DeleteTokenSpec | APIMaterialesESCOM/Repositorios/RepositorioLoginTokens.cs:79-83 | after deletion no row holds the value; lookups of other values answer as before; something was removed iff the value was present; an absent value leaves the table as it was |
| RepositorioLoginTokens.DeleteUserSpec | APIMaterialesESCOM/Repositorios/RepositorioLoginTokens.cs:92-96 | the user has no codes left, every other user keeps exactly its codes, and something was removed iff the user had a code |
| RepositorioLoginTokens.FilterOfFilter | APIMaterialesESCOM/Repositorios/RepositorioLoginTokens.cs:92 | removing one user's rows leaves another user's rows as they were |
| RepositorioLoginTokens.ReplaceCodes | APIMaterialesESCOM/Repositorios/RepositorioLoginTokens.cs:16-97 | deleting a user's codes and then inserting one leaves that user exactly the new code |
| RepositorioLoginTokens.HasLiveToken | APIMaterialesESCOM/Repositorios/RepositorioLoginTokens.cs:105-114 | true iff some row of the user expires strictly after now |
| RepositorioLoginTokens.DeletePreservesIds | APIMaterialesESCOM/Repositorios/RepositorioLoginTokens.cs:79-92 | deleting rows keeps ids increasing and below the counter |
| RepositorioLoginTokens.LoginTokenStore.CrearToken | APIMaterialesESCOM/Repositorios/RepositorioLoginTokens.cs:16-41 | appends one row and returns it, echoing user, value and expiry under a fresh id |
| RepositorioLoginTokens.LoginTokenStore.ObtenerToken | APIMaterialesESCOM/Repositorios/RepositorioLoginTokens.cs:43-71 | a row holding the value, or none iff the table has none |
| RepositorioLoginTokens.LoginTokenStore.EliminarToken | APIMaterialesESCOM/Repositorios/RepositorioLoginTokens.cs:73-84 | every row with the value goes; the answer is true iff one existed |
| RepositorioLoginTokens.LoginTokenStore.EliminarTokensUsuario | APIMaterialesESCOM/Repositorios/RepositorioLoginTokens.cs:86-97 | exactly the user's rows go; the answer is true iff one existed |
| RepositorioLoginTokens.LoginTokenStore.TokenValido | APIMaterialesESCOM/Repositorios/RepositorioLoginTokens.cs:99-115 | true iff some row of the user expires strictly after now |
| RepositorioTokens.FindToken | APIMaterialesESCOM/Repositorios/RepositorioTokens.cs:49-69 | a row holding the value, or none iff no row holds it |
| RepositorioTokens.DeleteTokenSpec | APIMaterialesESCOM/Repositorios/RepositorioTokens.cs:72-84 | the value is gone; rows and lookups of other values are untouched; removal iff present; absent leaves the table unchanged |
| RepositorioTokens.TokenStore.CreateToken | APIMaterialesESCOM/Repositorios/RepositorioTokens.cs:17-41 | appends one row and returns it, echoing user, value and expiry under a fresh id |
| RepositorioTokens.TokenStore.GetToken | APIMaterialesESCOM/Repositorios/RepositorioTokens.cs:43-70 | a row holding the value, or none iff the table has none |
| RepositorioTokens.TokenStore.DeleteToken | APIMaterialesESCOM/Repositorios/RepositorioTokens.cs:72-84 | every row with the value goes, a later lookup finds none, and the answer is true iff one existed |
| RepositorioUsuarios.FindById | APIMaterialesESCOM/Repositorios/InterfazRepositorioUsuarios.cs:10 | a user with the id, or none iff no user has it |
| RepositorioUsuarios.FindByEmail | APIMaterialesESCOM/Repositorios/InterfazRepositorioUsuarios.cs:11 | a user with exactly that e-mail, or none iff no user has it |
| RepositorioUsuarios.Pick | APIMaterialesESCOM/Controllers/ControladorUsuarios.cs:469 | a field given and non-empty replaces the stored one; otherwise the stored one stays |
| RepositorioUsuarios.Apply | APIMaterialesESCOM/Repositorios/InterfazRepositorioUsuarios.cs:13 | an update keeps the id and the verification flag, and changes the e-mail only to a given non-empty one |
| RepositorioUsuarios.UsuarioStore.GetUsuarioById | APIMaterialesESCOM/Repositorios/InterfazRepositorioUsuarios.cs:10 | the lookup by id on the current table |
| RepositorioUsuarios.UsuarioStore.GetUsuarioByEmail | APIMaterialesESCOM/Repositorios/InterfazRepositorioUsuarios.cs:11 | the lookup by e-mail on the current table |
| RepositorioUsuarios.UsuarioStore.EmailVerificado | APIMaterialesESCOM/Controllers/ControladorUsuarios.cs:109 | true iff the user exists and is flagged verified |
| RepositorioUsuarios.UsuarioStore.CreateUsuario | APIMaterialesESCOM/Repositorios/InterfazRepositorioUsuarios.cs:12 | appends one unverified user with the given role under a fresh id, returned |
| RepositorioUsuarios.UsuarioStore.VerificacionEmail | APIMaterialesESCOM/Controllers/ControladorUsuarios.cs:568 | only the user with the id gets the flag; the answer says whether it exists |
| RepositorioUsuarios.UsuarioStore.UpdateUsuario | APIMaterialesESCOM/Repositorios/InterfazRepositorioUsuarios.cs:13 | only the user with the id is updated; the answer says whether it exists |
| RepositorioUsuarios.DeleteKeepsIds | APIMaterialesESCOM/Repositorios/InterfazRepositorioUsuarios.cs:14 | after a delete no user has the id, and the remaining ids still increase and stay below the counter |
| RepositorioUsuarios.UsuarioStore.DeleteUsuario | APIMaterialesESCOM/Repositorios/InterfazRepositorioUsuarios.cs:14 | exactly the user with the id goes; the answer says whether it existed |
| EmailService.Mailer.SendEmail | APIMaterialesESCOM/Servicios/EmailService.cs:28-77 | records one mail and answers whether the service accepted it, never throwing |
| ControladorUsuarios.FormatCode | APIMaterialesESCOM/Controllers/ControladorUsuarios.cs:402-404 | a six-character code gains a dash in the middle, and removing it gives the code back; other codes are shown as they are |
| ControladorUsuarios.FormatCodeIdempotent | APIMaterialesESCOM/Controllers/ControladorUsuarios.cs:398-404 | formatting twice equals formatting once, so the resend mail shows the same text as a first mail |
| ControladorUsuarios.FormatCodeInjective | APIMaterialesESCOM/Controllers/ControladorUsuarios.cs:358-360 | different codes of the same length are shown differently |
| ControladorUsuarios.FormatCodeCollision | APIMaterialesESCOM/Controllers/ControladorUsuarios.cs:358-360 | "abc-def" and "abcdef" are shown alike |
| ControladorUsuarios.ReissueSpec | APIMaterialesESCOM/Controllers/ControladorUsuarios.cs:206-213 | removing a user's codes and inserting one leaves the user exactly the new code, other users' codes untouched, and at most one code per user |
| ControladorUsuarios.DeleteKeepsOneCode | APIMaterialesESCOM/Controllers/ControladorUsuarios.cs:556-573 | deleting codes keeps at most one code per user |
| ControladorUsuarios.FindByIdOfMember | APIMaterialesESCOM/Controllers/ControladorUsuarios.cs:105-109 | with distinct ids, the user found by e-mail is the one the verification query reads |
| ControladorUsuarios.SincronizarAutor | APIMaterialesESCOM/Controllers/ControladorUsuarios.cs:160-203 | linked iff the lookup answers, the link goes through and the author was found or created; then the user is linked to an author with its e-mail; a null lookup is rejected, a throwing one crashes; when the author must be created, a null create reply crashes (its `Ok` cannot be read) and a refused one is rejected; at most one author is added; failures leave links alone |
| ControladorUsuarios.SyncMatchesDispatcher | APIMaterialesESCOM/Controllers/ControladorUsuarios.cs:168-196 | when the lookup answers, the sign-up sync and the CREAR_AUTOR handler succeed together and leave the same registry; a null lookup stops sign-up but not the handler |
| ControladorUsuarios.Controlador.IssueCode | APIMaterialesESCOM/Controllers/ControladorUsuarios.cs:121-145 | the user's codes are replaced by exactly the new one and one mail is sent |
| ControladorUsuarios.Controlador.SignUp | APIMaterialesESCOM/Controllers/ControladorUsuarios.cs:87-238 | invalid form and verified duplicate change nothing; unverified duplicate gets a new code and no new user; a new address creates one unverified user with role "1" and one code, unless the staff sync fails, which leaves the user but issues no code and answers BadRequest with the sync's message, or 500 when the sync crashed (a throwing lookup, a null create reply, a null or throwing link call) |
| ControladorUsuarios.Controlador.SignIn | APIMaterialesESCOM/Controllers/ControladorUsuarios.cs:243-323 | unknown and unverified users are refused with the code table untouched; a verified user gets exactly one fresh code; for role "2" the author link decides Ok, BadRequest or 500 |
| ControladorUsuarios.Controlador.VerificarEmail | APIMaterialesESCOM/Controllers/ControladorUsuarios.cs:526-594 | the checks in order (input, user, code, owner) change nothing when they fail, a foreign code included; past them the code is deleted, and an unexpired one verifies the user, changing only that user's flag |
| ControladorUsuarios.Controlador.ConsumeCode | APIMaterialesESCOM/Controllers/ControladorUsuarios.cs:556-586 | the code is gone afterwards; expired is BadRequest with users unchanged; otherwise Ok with the user verified and only that user's flag changed |
| ControladorUsuarios.Controlador.UpdateUsuario | APIMaterialesESCOM/Controllers/ControladorUsuarios.cs:446-493 | invalid form, unknown id and an e-mail held by another user change nothing; otherwise only that user is updated, and e-mails stay unique |
| ControladorUsuarios.Controlador.DeleteUsuario | APIMaterialesESCOM/Controllers/ControladorUsuarios.cs:498-523 | unknown id is NotFound; otherwise exactly that user goes |
| ControladorUsuarios.Controlador.SignUpAgainAfterFailedSync | APIMaterialesESCOM/Controllers/ControladorUsuarios.cs:105-203 | after a staff sign-up rejected on a null lookup, the same sign-up again is a resend to the new user and leaves the registry alone |
| ControladorUsuarios.Controlador.VerificarDosVeces | APIMaterialesESCOM/Controllers/ControladorUsuarios.cs:543-573 | after a successful verification the same code is not found |
| ControladorUsuarios.FlagSet | APIMaterialesESCOM/Controllers/ControladorUsuarios.cs:563-569 | after the flag of an existing user is set, the user reads as verified and e-mails stay unique |
| ControladorUsuarios.Controlador.MarkVerified | APIMaterialesESCOM/Controllers/ControladorUsuarios.cs:563-569 | an existing user ends up verified; its row changes in the flag alone, no other row changes, and the controller invariant is kept |
| ControladorUsuarios.AlreadyFlagged | APIMaterialesESCOM/Controllers/ControladorUsuarios.cs:563-569 | skipping the update for a user who already reads as verified leaves the table exactly as setting the flag would |
| ControladorUsuarios.UpdateKeepsEmailsUnique | APIMaterialesESCOM/Controllers/ControladorUsuarios.cs:469-476 | applying the form to one user keeps e-mails unique when a changed address belongs to nobody |

## Left out

- Sending mail is an HTTP call. It is the parameter `delivered`; of the HTML body only the shown code is kept.
- The HTML templates of both mails are reduced to their subject and the formatted code.
- JWT signing and the access-token expiry are opaque parameters.
- The 5-second polling loop and cancellation of the background service are timing and concurrency; one pass is modelled.
- SQLite connections, readers and ISO-8601 dates are replaced by integer seconds. The lexical date comparison of `TokenValidoAsync` becomes an integer comparison.
- JSON deserialisation of the event payload is a parse outcome: unreadable, null, or a value.
- Concurrent requests are not modelled, so neither is the race between deleting and inserting codes.
- Dependency injection and hosting are left out. The wiring registers neither the outbox repository nor the background service.
- The HTTP client of the author registry is not part of this model. Only `CrearAutor` has a visible client: it turns every exception into `Ok = false` and hands back a body that reads `null` as a null reply. The other calls are modelled by their evident meaning with a per-call fault. A response with `Ok = true` and no data is not modelled.
- The code service and the code repository the controller uses are not part of this model. Their operations are modelled by the login-token table. The fresh code and its expiry are parameters, and the expiry test is `TokenService.IsTokenExpired`.
- The user repository implementation is not part of this model; `RepositorioUsuarios` states assumptions about it:
  - lookup by id and by exact e-mail;
  - insert under an auto-increment id, unverified;
  - an update applies the non-empty fields;
  - delete by id.
- The verification-flag operations the controller calls are missing from the repository interface; they are modelled as set-and-read of the flag.
- `Authenticate` takes the e-mail and a boleta in the interface, but the controller calls it with the e-mail alone. It is modelled as the lookup by e-mail.
- Model validation (`ModelState`) is done by the web framework. Its error list is a parameter; the two custom validators are modelled on their own.
- The sign-up form has no role field, although the controller assigns one. The stored role is the "1" assigned before the row is written.
- The registry author has separate surnames, while sign-up builds a single combined surname. The model passes the paternal and maternal surnames as the outbox handler does.
- The catch-all 500 response carries the exception text, which is a parameter. Database failures are not modelled as exceptions; only registry calls throw.
- `GetUsuarios` and `GetUsuario` are plain reads with no rule to prove.
- Unicode is reduced to ASCII: digits, letters and whitespace. .NET `\d`, `ToLower` and `Trim` are culture-aware.
- Integers are unbounded; ids and retry counters do not wrap.
- RepositorioOutbox.SortByCreatedAt: rows with the same `CreatedAt` keep their table order. The query only orders by a timestamp with one-second resolution, and SQLite promises no order among ties. So which same-second events make a batch of ten (`RepositorioOutbox.PendingBatch`, `OutboxStore.GetPendingEvents`) and the order their handlers run in (`AutorBackgroundService.ProcesarEventosPendientes`) are fixed here where the source leaves them open.
- RepositorioLoginTokens.FindToken: when several rows hold the same code, the first in table order is returned. The query `WHERE Token = @token` leaves that choice open, and the owner check of `VerificarEmail` depends on it when two users hold the same code. The same holds for `RepositorioTokens.FindToken`.
