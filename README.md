# Clock-in front end: a verified model of its logic

This project models the decision logic of a Streamlit time-and-attendance
front end. In that app, employees clock in and out on their phone, review
and correct their week, request vacation, and notify leave. The model
covers these parts:

- **Clock-in page** (`pages/paginaFichajeMovil.py`):
  - the rotating QR presence token: window counter, HMAC digest cut to 12
    base64url characters, accepted tokens of the current window and its
    two neighbours, and the `FICHAJE:` payload check;
  - the gate that offers the ENTRADA/SALIDA buttons or shows the reason
    they are blocked;
  - the source tag of a record and the confirmation message;
  - the history transform `cargar_historial`.
- **Week correction page** (`pages/paginaModFechaMovil.py`):
  - the Monday-to-Sunday week of a date;
  - the employee's events of that week, bucketed by day;
  - the greedy pairing of Entrada/Salida events into intervals with their
    worked seconds, and the one-row-per-day week view;
  - the manual insertion of an Entrada/Salida pair into the `fichajes`
    table, modelled as a class that owns its rows and its AUTOINCREMENT
    counter.
- **Absences page** (`pages/paginaAusenciaMovil.py`):
  - the day count of a vacation request and the rejection of reversed
    ranges;
  - the cancel button of pending requests;
  - the optional end date of a leave notice and the range label of a
    listed one;
  - the `;`-separated attachment list with its download buttons;
  - the name under which an upload is stored.
- **Shared UI module** (`ui_pages.py`):
  - loading the users table and deriving `usuario` from the e-mail;
  - case- and whitespace-insensitive user matching;
  - the password check and the page permission;
  - the fixed menu and the role menu (hide or disable mode);
  - the greeting and the date line of the home screen;
  - the notifications table, read and marked as read in place.

Modules, one file each:

| Module | File | Contents |
|---|---|---|
| `Wrappers` | `wrappers.dfy` | Option and Result |
| `Seqs` | `seqs.dfy` | order-preserving filter, stable sort by key, head |
| `Text` | `text.dfy` | Python's `str.strip`, `str.lower`, `str.split`/`join`, `in`, and decimal formatting |
| `Calendar` | `calendar.dfy` | the date arithmetic of Python's `datetime`: proleptic Gregorian ordinals, weekday, `fromordinal` with its range check, `strftime` fields |
| `Attendance` | `attendance.dfy` | `_pair_and_sum` |
| `ModFecha` | `mod_fecha.dfy` | the week correction page |
| `Base64Url` | `base64url.dfy` | `urlsafe_b64encode` and `_b64url` (section 5 of RFC 4648, padding dropped as section 3.2 allows) |
| `QrToken` | `qr_token.dfy` | the QR token |
| `FichajeGate` | `fichaje_gate.dfy` | the clock-in gate and confirmation |
| `Historial` | `historial.dfy` | `cargar_historial` |
| `UiHome` | `ui_home.dfy` | greeting, date line, notifications |
| `UiAccess` | `ui_access.dfy` | users, matching, password, permissions, menus |
| `Ausencia` | `ausencia.dfy` | the absences page |

**Parameters and representations**
- HMAC-SHA256 is a function parameter `mac(secret, message)` that returns
  32 bytes.
- The clock is an integer number of seconds.
- The backend's records, the CSV tables and the
  local-to-UTC conversion arrive as parameters.
- Tables are held as values:
  - column names in file order;
  - one map per row from column name to cell;
  - an empty CSV field is a NaN cell.
- Python exceptions the pages would raise become `None`, `Failure` or
  `Crash` results.

**Where the code departs from its own comments or from the intended design, or where the model simplifies, this is where the model stands:**
- The comment at `pages/paginaFichajeMovil.py:138` says the QR secret must
  come from the app's secrets, yet line 139 falls back to a built-in one.
  The model takes the secret as a parameter and so does not reproduce the
  fallback.
- The skew is the code's constant 1, not a free parameter.
- Day totals stay in seconds rather than rounded hours.
- The week view picks a day's events by the `"%Y-%m-%d"` prefix of their
  text, as the code does. `ModFecha.InDayIff` proves that this is the same
  as comparing dates.

## Model

| member | source | states |
|---|---|---|
| Attendance.SortByTime | pages/paginaModFechaMovil.py:109 | the sorted events are in ascending local time and are a permutation of the day's events |
| Attendance.SortChronological | pages/paginaModFechaMovil.py:109 | events already in ascending local time come out of the sort unchanged |
| Attendance.PairAndSum | pages/paginaModFechaMovil.py:104-124 | the cursor loop emits exactly the labels, and accumulates exactly the seconds, of the greedy pairing of the sorted events |
| Attendance.ScanPairs | pages/paginaModFechaMovil.py:111-122 | the while loop over the sorted events emits, one per pair or stray event, exactly the labels of their greedy pairing, and adds up exactly its seconds |
| Attendance.PairingEmpty | pages/paginaModFechaMovil.py:104-124 | a day with no events gives no label and a total of 0 |
| Attendance.PairingCovers | pages/paginaModFechaMovil.py:112-122 | read in order, the marks give back every event exactly once and in sorted order: nothing is dropped or duplicated |
| Attendance.PairingBounds | pages/paginaModFechaMovil.py:112-122 | for n events there are between ceil(n/2) and n labels |
| Attendance.PairingGreedy | pages/paginaModFechaMovil.py:114-122 | every pair is an Entrada followed by a Salida, and an unpaired Entrada is never directly followed by a Salida |
| Attendance.GreedyUnique | pages/paginaModFechaMovil.py:112-122 | any segmentation that covers the events and has the greedy shape is the pairing itself |
| Attendance.TotalNonNegative | pages/paginaModFechaMovil.py:109-117 | on chronological events the summed durations are never negative |
| Attendance.PairAndSumNonNegative | pages/paginaModFechaMovil.py:109-123 | a day's worked seconds are never negative |
| Attendance.TotalIsPairsOnly | pages/paginaModFechaMovil.py:117 | the total equals the sum over the paired marks alone, so unpaired events add nothing |
| ModFecha.FechaCortaEs | pages/paginaModFechaMovil.py:30-34 | the short date starts with the Spanish name of the date's weekday and a space, followed by the day and month (and the year if asked) |
| ModFecha.IsoWeekStart | pages/paginaModFechaMovil.py:126-128 | the week start is a Monday, at most 6 days before the date, and exactly weekday(d) days before it |
| ModFecha.WeekDates | pages/paginaModFechaMovil.py:130-132 | the week is 7 consecutive days from that Monday, day i has weekday i, and it contains the date; it fails exactly where Python's date arithmetic overflows |
| ModFecha.LoadWeekEvents | pages/paginaModFechaMovil.py:90-100 | an event is loaded exactly when it is the employee's and its date lies in the inclusive range |
| ModFecha.InDayIff | pages/paginaModFechaMovil.py:164-166 | the day-prefix test on the `fecha_local` text selects exactly the events of that date |
| ModFecha.WeekBuckets | pages/paginaModFechaMovil.py:163-166 | an event passes the week filter exactly when its date is one of the 7 days, and then it lands in exactly one day's bucket |
| ModFecha.BuildDayRow | pages/paginaModFechaMovil.py:165-172 | one pass of the week loop yields the day's short date, its joined marks (or "—") and its paired seconds |
| ModFecha.RowsForDays | pages/paginaModFechaMovil.py:163-172 | the loop yields one row per date, in date order |
| ModFecha.WeekView | pages/paginaModFechaMovil.py:146-172 | the week view has 7 rows, Monday first, each built from that day's events of the loaded week |
| ModFecha.EmptyDayRow | pages/paginaModFechaMovil.py:167-171 | a day without events shows "—" and 0 seconds |
| ModFecha.WeekRowNames | pages/paginaModFechaMovil.py:169 | row i of the week is headed by the i-th weekday name, Lunes first |
| ModFecha.ManualObservation | pages/paginaModFechaMovil.py:75 | the stored observation is the stripped note, or "ajuste manual desde app" when the note is blank |
| ModFecha.ManualObservationNotBlank | pages/paginaModFechaMovil.py:75 | a stored observation is never blank |
| ModFecha.ManualPair | pages/paginaModFechaMovil.py:69-87 | the inserted rows are an Entrada then a Salida on the chosen day and times, with source "ajuste_movil", the same observation and employee, and consecutive ids |
| ModFecha.ManualPairIsOneInterval | pages/paginaModFechaMovil.py:65-87 | a pair that passes the check reads back as one interval of exactly exit minus entrance seconds, which is positive |
| ModFecha.FichajeTable.InsertarParManual | pages/paginaModFechaMovil.py:65-88 | it fails exactly when the exit is not after the entrance, and then leaves the table untouched; otherwise it appends the two rows and keeps the ids increasing |
| Base64Url.SextetChar | pages/paginaFichajeMovil.py:145 | every 6-bit value maps to a URL-safe alphabet character, never '=' |
| Base64Url.CharSextet | pages/paginaFichajeMovil.py:145 | every alphabet character maps back to the 6-bit value that produces it |
| Base64Url.SextetRoundTrip | pages/paginaFichajeMovil.py:145 | decoding a sextet's character gives back the sextet |
| Base64Url.Encode | pages/paginaFichajeMovil.py:145 | the padded encoding has 4 characters per started group of 3 bytes |
| Base64Url.EncodeIsUnpaddedPlusPad | pages/paginaFichajeMovil.py:145 | the padded encoding is the unpadded one followed only by '=' |
| Base64Url.B64UrlIsUnpadded | pages/paginaFichajeMovil.py:144-145 | stripping the '=' padding leaves exactly the unpadded encoding |
| Base64Url.B64UrlShape | pages/paginaFichajeMovil.py:144-145 | the result has ceil(4n/3) characters, all URL-safe, none '=' (43 for a 32-byte digest) |
| Base64Url.DecodeUnpadded | pages/paginaFichajeMovil.py:145 | decoding the unpadded encoding gives back the bytes |
| Base64Url.DecodeB64Url | pages/paginaFichajeMovil.py:144-145 | decoding `_b64url(b)` gives back b |
| Base64Url.B64UrlInjective | pages/paginaFichajeMovil.py:144-145 | distinct byte strings have distinct encodings |
| QrToken.FloorDiv | pages/paginaFichajeMovil.py:155 | Python's `//`: the quotient brackets the dividend for either sign of the divisor |
| QrToken.FloorDivUnique | pages/paginaFichajeMovil.py:155 | the floor is the only integer with that bracketing |
| QrToken.WindowBounds | pages/paginaFichajeMovil.py:154-155 | the counter is the window the timestamp falls in |
| QrToken.TokenForCounter | pages/paginaFichajeMovil.py:147-149 | a token is exactly 12 URL-safe characters with no '=' |
| QrToken.SameWindowSameToken | pages/paginaFichajeMovil.py:151-156 | two timestamps in the same window give the same counter and the same token |
| QrToken.TokenStripped | pages/paginaFichajeMovil.py:147-149 | a token has no surrounding whitespace, so stripping keeps it |
| QrToken.ValidQrTokens | pages/paginaFichajeMovil.py:158-166 | the loop returns the tokens of counters counter-1, counter and counter+1, in that order |
| QrToken.AcceptedIff | pages/paginaFichajeMovil.py:158-166 | a token is accepted exactly when it is the token of a counter within one window of the current one |
| QrToken.CurrentIsAccepted | pages/paginaFichajeMovil.py:151-166 | the current token is among the accepted ones, in the middle |
| QrToken.BuildQrPayload | pages/paginaFichajeMovil.py:168-169 | the payload is "FICHAJE:" followed by the token |
| QrToken.PayloadValidIff | pages/paginaFichajeMovil.py:171-175 | a payload is valid exactly when it starts with "FICHAJE:" and its stripped rest is the token of a counter within one window of now; an empty payload or one without the prefix is invalid |
| QrToken.PayloadRoundTrip | pages/paginaFichajeMovil.py:168-175 | the payload built from the current token is valid at the same instant |
| QrToken.PayloadAcceptedNearby | pages/paginaFichajeMovil.py:158-175 | a payload issued in one window is still accepted one window later or earlier |
| QrToken.PayloadPaddedRoundTrip | pages/paginaFichajeMovil.py:174 | whitespace around the token after the prefix is tolerated |
| FichajeGate.FuenteDistinguishes | pages/paginaFichajeMovil.py:193 | the two methods get different source tags, both starting with "movil_" |
| FichajeGate.ButtonsIffPermitted | pages/paginaFichajeMovil.py:191-284 | the buttons are offered exactly when clocking in is permitted; permitted exactly when no block reason is set; a blocked user always sees a warning |
| FichajeGate.GeoGateIff | pages/paginaFichajeMovil.py:195-205 | with geolocation, clocking in is permitted exactly for a fix within the maximum distance |
| FichajeGate.QrGateIff | pages/paginaFichajeMovil.py:206-246 | with QR, clocking in is permitted exactly when a read payload carries the prefix and a token within one window of now |
| FichajeGate.CurrentQrPermits | pages/paginaFichajeMovil.py:236-239 | scanning the office QR of the current window permits clocking in |
| FichajeGate.FechaTxt | pages/paginaFichajeMovil.py:260-261 | the record's time is its local time, else its UTC time, else the clock's, and is never empty |
| FichajeGate.ConfirmacionAsWrittenIgnoresRecord | pages/paginaFichajeMovil.py:262 | as written, the confirmation is the same text whatever the record |
| FichajeGate.ConfirmacionAsWrittenLosesTime | pages/paginaFichajeMovil.py:262 | as written, the confirmation for a record stamped 2025-03-10 08:00:00 differs from the intended one |
| FichajeGate.Confirmacion | pages/paginaFichajeMovil.py:262 | the intended confirmation is "Entrada registrada — " or "Salida registrada — " followed by the record's time |
| FichajeGate.ConfirmacionShowsTime | pages/paginaFichajeMovil.py:260-275 | records with different local times get different intended confirmations |
| Historial.FromRecords | pages/paginaFichajeMovil.py:111 | the table has one row per record, the union of their keys as columns, and every row has every column |
| Historial.AddIfMissing | pages/paginaFichajeMovil.py:118-119 | adding a column keeps the table rectangular and its row count |
| Historial.FillColumnsSpec | pages/paginaFichajeMovil.py:117-119 | after the column loop every shown column exists; existing cells are kept and missing columns hold "" |
| Historial.FilledHasExpected | pages/paginaFichajeMovil.py:117-119 | every row has the five shown columns after the fill |
| Historial.FilterEmpleado | pages/paginaFichajeMovil.py:122-123 | the employee filter keeps the columns and the table's shape |
| Historial.ParseRows | pages/paginaFichajeMovil.py:126 | when parsing succeeds, there is one result row per table row, carrying that row's cells and the conversion of its `fecha_local` cell |
| Historial.Prepared | pages/paginaFichajeMovil.py:111-123 | after fill and filter every row has the shown columns |
| Historial.CargarHistorial | pages/paginaFichajeMovil.py:106-133 | the step-by-step transform returns the specified history: empty for no data or a parse failure, else newest first and cut to the limit |
| Historial.HistorialSorted | pages/paginaFichajeMovil.py:126-127 | the history is newest first, with rows lacking a time last |
| Historial.HistorialBounded | pages/paginaFichajeMovil.py:127 | there are at most `limit` rows |
| Historial.HistorialProvenance | pages/paginaFichajeMovil.py:122-130 | every returned row comes from a fetched row that passed the filter, with that row's `fecha_local` converted |
| Historial.HistorialFiltered | pages/paginaFichajeMovil.py:122-123 | with a filter, every returned row belongs to that employee |
| Historial.HistorialFillsMissing | pages/paginaFichajeMovil.py:117-126 | each of `empleado`, `tipo`, `observaciones` and `fuente` that no record has reads "" in every returned row, and a `fecha_local` that no record has reads as NaT |
| Historial.PreparedMissingColumn | pages/paginaFichajeMovil.py:117-123 | a shown column that no record has is "" in every prepared row |
| UiHome.SaludoBands | ui_pages.py:89-92 | the three greetings partition the hours: 6-12 morning, 13-19 afternoon, the rest night |
| UiHome.MesRoundTrip | ui_pages.py:85-87 | the month list maps each month number to a distinct name without spaces |
| UiHome.SpanishDateRoundTrip | ui_pages.py:84-87 | the date line "Hoy, {day} de {Mes}" reads back as its day and month |
| UiHome.UserShownIsFilter | ui_pages.py:101-104 | a user's notifications are exactly the table's rows whose `usuario` is that user, in file order, each with a missing `leido` read as 0 |
| UiHome.CountUnreadIsFilter | ui_pages.py:143-144 | the unread count is the number of notifications whose `leido` is 0, the rows of `pendientes` |
| UiHome.MarkAll | ui_pages.py:113-115 | marking changes each row by the per-row rule and keeps the row count |
| UiHome.MarkAllClearsUnread | ui_pages.py:115 | after marking, the user has no unread notification |
| UiHome.MarkAllKeepsOthers | ui_pages.py:113-115 | marking leaves every other user's notifications, as read back, unchanged |
| UiHome.MarkAllKeepsUserRows | ui_pages.py:115 | the user's notifications keep their titles and dates, in order, and all read as read |
| UiHome.NotificationStore.MarcarTodasLeidas | ui_pages.py:108-116 | with no file nothing changes; otherwise the `leido` column exists afterwards, the user's badge count is 0 and every other user reads the same notifications as before |
| UiAccess.ResolveIndex | ui_pages.py:209 | a lower-case column key resolves to the last column that lowers to it, or to none exactly when no column does |
| UiAccess.ResolveColumn | ui_pages.py:209-211 | the resolved column is one of the table's columns and lowers to the key; None exactly when no column does |
| UiAccess.EmailPrefix | ui_pages.py:212 | the derived user name is a prefix of the e-mail and contains no '@' |
| UiAccess.LoadUsers | ui_pages.py:205-213 | loading keeps the row count and every row has every column |
| UiAccess.LoadUsersSpec | ui_pages.py:209-212 | a table with a `usuario` column, or without an `email` one, is unchanged; otherwise `usuario` is appended as each e-mail's prefix and every other cell is kept |
| UiAccess.AppendedUsuarioResolves | ui_pages.py:212-225 | the appended column is the one `usuario` then resolves to |
| UiAccess.NormalizeIdempotent | ui_pages.py:218 | normalising the input twice changes nothing more |
| UiAccess.MatchUserNormalised | ui_pages.py:215-232 | matching ignores the letter case and surrounding whitespace of the input |
| UiAccess.LoginByEmailPrefix | ui_pages.py:205-232 | a user listed only by e-mail is matched by the e-mail's prefix, in any case and with surrounding whitespace |
| UiAccess.FirstMatch | ui_pages.py:239 | the first selected index: it matches and no earlier row matches |
| UiAccess.FirstOf | ui_pages.py:239 | `iloc[0]` of the selection: none exactly when no row matches, else the earliest matching row |
| UiAccess.FirstStoresIff | ui_pages.py:239 | the first selected row stores a password exactly when the earliest selected row stores it |
| UiAccess.ValidarUsuarioIff | ui_pages.py:235-240 | the password check holds exactly when some row matches, no earlier row matches, and that row stores the typed password |
| UiAccess.ValidarUsuarioRefinesAsWritten | ui_pages.py:239 | the intended check accepts only what the written one accepts; they differ only on an empty stored password with "nan" or "" typed |
| UiAccess.NanPasswordAccepted | ui_pages.py:239 | as written, a user with an empty password cell logs in with "nan"; the intended check refuses it |
| UiAccess.EmptyClaveReadsNan | ui_pages.py:239 | in any users table, when the first matching user's password cell is empty, the check as written accepts the password "nan" and the intended check refuses it |
| UiAccess.RegexContainsPlain | ui_pages.py:295 | a pattern without '.' matches exactly where it occurs as a substring |
| UiAccess.FirstPage | ui_pages.py:295-297 | the first pages-table row that lists the page, with no earlier row listing it |
| UiAccess.PageDecision | ui_pages.py:294-302 | access is granted only when some pages-table row lists the page |
| UiAccess.ValidarPagina | ui_pages.py:285-302 | access is granted only to a matched user and only for a listed page |
| UiAccess.PageDecisionListed | ui_pages.py:295-300 | for a listed page, a decision that raises nothing is the roles test on the first listed row, or the role "admin", or the setting "rol" |
| UiAccess.DefaultPermisoIgnoresRole | ui_pages.py:297 | with the default setting "rol", every role gets into every listed page |
| UiAccess.PageDecisionByRole | ui_pages.py:295-300 | under any other setting, access holds exactly when the role occurs in the roles of the first row listing the page, or is "admin" |
| UiAccess.AdminAlwaysAllowed | ui_pages.py:297 | "admin" gets into every listed page under any setting |
| UiAccess.LinksForRoles | ui_pages.py:271-276 | "admin" and "empleado" see all three links, each single-page role sees its own link, and any other role sees none |
| UiAccess.EnabledEntries | ui_pages.py:338-339 | every page becomes an enabled option, in order, unless a row lacks a link cell |
| UiAccess.ShownEntries | ui_pages.py:341-343 | every page becomes an option, in order, disabled unless the role is in its roles or is "admin"; it fails where the `in` test raises |
| UiAccess.HiddenMenuOwnPages | ui_pages.py:335-339 | when hiding, option k of a non-admin is the enabled link of the k-th page whose roles match their role, and there is one option per such page |
| UiAccess.ShownMenuAllPages | ui_pages.py:340-343 | when disabling, every page is listed, in order, and is disabled exactly when the role is neither in its roles nor "admin" |
| UiAccess.AdminSeesEverything | ui_pages.py:335-343 | in either mode, option i of "admin" is the enabled link of page i, for every page |
| UiAccess.HideShowRows | ui_pages.py:334-343 | row by row, the hiding filter gives the options the disabling loop leaves enabled |
| UiAccess.HideAgreesWithShow | ui_pages.py:334-343 | for a role without '.', the hiding mode shows exactly the options the disabling mode enables, in the same order |
| UiAccess.HiddenIsFiltered | ui_pages.py:336-339 | when the disabling loop raises nothing, the hiding mode raises nothing and lists the rows its mask keeps |
| Ausencia.DiasSolicitados | pages/paginaAusenciaMovil.py:148-158 | there is no day count exactly when the end is before the start, which is when the submit button is disabled; otherwise the count is at least 1 |
| Ausencia.DiasCountsRange | pages/paginaAusenciaMovil.py:151 | the count is the number of days from start to end, both included |
| Ausencia.OneDayIffSameDate | pages/paginaAusenciaMovil.py:151 | a one-day request is exactly one that starts and ends on the same date |
| Ausencia.CancelIds | pages/paginaAusenciaMovil.py:173-180 | an id gets a Cancelar button exactly when a listed request with that id is pending |
| Ausencia.LeaveEndDate | pages/paginaAusenciaMovil.py:214 | the notice carries the end date exactly when "Indicar fecha fin" is checked |
| Ausencia.FechaFinField | api_client.py:34 | the sent `fecha_fin` is empty exactly when no end date is given |
| Ausencia.RangeLabel | pages/paginaAusenciaMovil.py:229 | the label starts with the start date, and is only the start date exactly when the end is blank after strip |
| Ausencia.RangeLabelOfNotice | pages/paginaAusenciaMovil.py:229 | a notice listed as sent shows " → " and its end date exactly when an end date was given |
| Ausencia.Adjuntos | pages/paginaAusenciaMovil.py:233-236 | every attachment path is non-empty and contains no ';' |
| Ausencia.AdjuntosRoundTrip | pages/paginaAusenciaMovil.py:233-236 | paths joined with ';' come back as the same list, in the same order |
| Ausencia.AdjuntosSkipsEmpty | pages/paginaAusenciaMovil.py:235-236 | a trailing ';' adds no attachment |
| Ausencia.Descargas | pages/paginaAusenciaMovil.py:236-239 | there is one download button per attachment |
| Ausencia.DescargasDistinct | pages/paginaAusenciaMovil.py:236-239 | a notice's buttons never share a widget key or a caption, and they are numbered from 1 |
| Ausencia.CompactStamp | pages/paginaAusenciaMovil.py:209 | the timestamp part is 15 characters long |
| Ausencia.SafeName | pages/paginaAusenciaMovil.py:209 | the stored name is 16 characters longer than the original |
| Ausencia.SafeNameRoundTrip | pages/paginaAusenciaMovil.py:209 | the original name can be read back from the stored name |
| Ausencia.SafeNameInjective | pages/paginaAusenciaMovil.py:209 | two stored names are equal only for the same second and the same original name |

## Left out

- Attendance.SortByTime: the stable insertion sort stands for `sort_values`, whose default sort is not stable. Events with the same timestamp may come out in a different order in the app.
- Attendance.PairAndSum: the total stays in integer seconds. The conversion to hours rounded to 2 decimals (line 123) is floating point and is not modelled.
- Calendar.DayKey: `%Y` is always zero-padded to 4 digits. The platform's `strftime` may print years below 1000 unpadded.
- Text.LowerChar: `str.lower` is modelled on ASCII and Latin-1 letters only, not on the whole of Unicode.
- UiAccess.RegexContains: `str.contains` is modelled with '.' as its only regular-expression metacharacter. Patterns using other metacharacters are read literally.
- UiAccess.ValidarUsuario: cells are the CSV text as read. The table library's type inference for a numeric `clave` column (such as `1234` read as `1234.0`) is not modelled.
- UiHome.UserShown: a notification always has a `usuario` field. A notificaciones.csv without a `usuario` column makes the page raise KeyError (`ui_pages.py:104` and `:115`, where only FileNotFoundError is caught), and that error is not modelled.
- UiHome.ShownOf: `leido` is an optional integer. A non-numeric `leido` value, where `astype(int)` raises, is not modelled.
- QrToken.WindowCounter: requires a non-zero `QR_PERIOD_HOURS`, as do the token, gate and payload members built on it. A period of 0 configured in the secrets makes the page raise ZeroDivisionError (lines 153-155 and 161-162), and that error is not modelled.
- QrToken.PayloadValidIff: a payload from a window more than one away is rejected only if its token differs from all three accepted tokens. That depends on HMAC-SHA256 not colliding, which an uninterpreted `mac` cannot show.
- HMAC-SHA256 itself, the hard-coded fallback secret, and reading the secret and the period from configuration are not modelled.
- Streamlit rendering, session state, cookies, `st.stop`/`st.rerun`, `generarLogin` and `render_home` layout are UI glue and are not modelled.
- The displayed `nombre` and role caption of the menus are not modelled.
- The requests the REST client sends, the authentication shim and `insertar_fichaje` are network calls and are not modelled; fetched records are inputs. Of `api_client.py`, only the `fecha_fin` field of a leave notice (line 34) is modelled, by Ausencia.FechaFinField.
- SQLite schema creation and connections are I/O and are not modelled.
- CSV reading and writing are I/O and are not modelled.
- Attachment file writes, opening attachments for download, and `os.path.basename` are I/O and are not modelled.
- The geodesic distance is floating point over a foreign library. It arrives as a reading that says whether the user is within range.
- QR image decoding and the camera are foreign libraries. The decoded text arrives as an input.
- The scanner error messages are not modelled.
- ModFecha.FichajeTable.InsertarParManual: `_local_to_utc_str` reads the wall clock, so the conversion is a parameter `toUtc`.
- The save button of the week page is disabled in the source and never calls `insertar_par_manual`.
- Historial.ParseCell: the datetime parser of the table library is a parameter.
- Historial.HistorialSpec: the stable insertion sort stands for `sort_values("fecha_local", ascending=False)` (line 127), whose default sort is not stable. Rows with the same timestamp may come out in a different order in the app, and `head` may then keep different ones of them.
- The `isocalendar()` week number shown above the week table is not modelled.
- The dtype conversions the week page applies to an empty table are not modelled.
- The free-text lines of the listings are not modelled: the vacation line, the notice line, comment and description captions, and the stringification of empty cells in them.
- Date widget bounds such as `min_value` are not modelled.
- `pages/paginaDocumentos.py` is not part of this model.

## Findings

| source | as written | input that shows it | evidently intended | confidence | as-written member | corrected member |
|---|---|---|---|---|---|---|
| pages/paginaFichajeMovil.py:262 | the success message interpolates the string literal `'fecha_txt'`, so it always reads "Entrada registrada — fecha_txt"; line 275 does the same for Salida | a record with `fecha_local` "2025-03-10 08:00:00" | show the computed `fecha_txt` (the record's local time, else its UTC time, else now), as `pages/paginaDocumentos.py:115` does with `{fecha_txt}` | not executed | FichajeGate.ConfirmacionAsWrittenLosesTime | FichajeGate.Confirmacion |
| ui_pages.py:239 | the stored `clave` is passed through `str()`, and an empty CSV field reads as NaN, whose text is "nan" | usuarios.csv row `ana` with an empty `clave`, password "nan" | a user without a stored password cannot log in | not executed | UiAccess.NanPasswordAccepted | UiAccess.ValidarUsuario |
