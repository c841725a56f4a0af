# Ecoembes plant links and plant bookkeeping, in Dafny

This project models the logic at the core of the Ecoembes recycling
system. The system has a central server that asks recycling plants how much they can take,
assigns containers to them and keeps staff sessions. The core has three
parts, each written as pure functions over immutable values.

- **The socket plant** (`contSocket`):
  - `CapacityStore` models the in-memory capacity table. It is keyed by the
    `dd-MM-yyyy` text of a day and supports query, reduce and seeding.
  - `LineProtocol` models the per-connection engine. It turns one request
    line into one reply line or a crash, and folds a session over the lines
    a client sends. The fold (`RunLoop`) takes the one-line handler as a
    parameter; the handler as written and the corrected one are its two uses.
- **The central server**:
  - `SocketGateway` models the client of the socket plant. It parses the
    `host:port` URL, builds the `CAPACIDAD|dd-MM-yyyy` line and decodes the reply.
  - `FillLevel` models a container's fill reading, with its three-level
    classification and its `equals`/`hashCode`.
  - `Staff` models a staff member: password check, session token, identity
    by e-mail address.
  - `Auth` models the login service: staff on file by e-mail address, plus the session
    table from token to member.
- **The REST plant** (`plasSb`):
  - `Assignment` models the assignment record and its four-state life cycle.
  - `PlantService` models the plant's bookkeeping. It covers capacity per day, accepting or
    rejecting assignments, listing them, and moving them through their states.

Three modules hold the Java library behaviour the core relies on:

- `JavaText` holds `String.trim`, `split` with its dropped trailing empty
  fields, `toUpperCase`, `Integer.parseInt` and `Integer.toString`.
- `Calendar` holds `SimpleDateFormat("dd-MM-yyyy")` and the server's date regex.
- `JavaHash` holds 32-bit `int` arithmetic, `Objects.hash` and `String.hashCode`.

`Wrappers` holds `Option` and `Result`.

Side effects are made explicit:

- An exception is the `Err` case of a `Result`, or the `Crash` outcome.
- A `null` is `None`.
- A repository is a map or a sequence.
- The parts of the program that are not visible become function parameters:
  - the socket exchange (`send`);
  - `Double.toString` / `Double.parseDouble` (`showDouble`, `parseDouble`);
  - the clock and `Math.random` values;
  - the three `Capacidad` methods the REST plant calls (`CapacityRules`);
  - the JVM's identity hash codes.

Behaviour worth knowing before reading the table:

- A fill reading below zero is classified red, like a full one (the constructor's final `else`).
- A login does not close the member's earlier session. The old token stays in the
  session table and still authenticates the member (`Auth.ReloginKeepsOldToken`).
- When an accepted assignment is later moved to RECHAZADO, its weight stays
  counted as used for its day (`PlantService.ActualizarKeepsInvariants`).
- When the socket plant refuses a query, the gateway reads 0. It also reads 0 when the exchange
  fails with an I/O error: the command itself comes back and decodes to 0
  (`SocketGateway.FailureReadsAsZero`). A port outside 0..65535 passes the constructor, but then
  `new Socket` throws an IllegalArgumentException that is not caught, so every query throws
  (`SocketGateway.BadPortThrows`).

## Model

| member | source | states |
|---|---|---|
| JavaText.Trim | contSocket/src/main/java/com/contsocket/ClientHandler.java:102 | `trim` never lengthens its argument; what it keeps is stated by JavaText.TrimInfix and JavaText.TrimShape |
| JavaText.TrimInfix | contSocket/src/main/java/com/contsocket/ClientHandler.java:102 | `trim` keeps the infix that starts after the leading run of chars at most U+0020; everything before and after it is such a char |
| JavaText.TrimShape | contSocket/src/main/java/com/contsocket/ClientHandler.java:102 | `trim` keeps exactly the infix between the leading and the trailing runs of chars at most U+0020; the result is empty exactly when the line is blank |
| JavaText.ToUpper | contSocket/src/main/java/com/contsocket/ClientHandler.java:108 | `toUpperCase` keeps the length and maps each char on its own, raising only `a`..`z`; JavaText.UpperIdempotent and JavaText.UpperOfTrimmedIsTrimmed relate it to itself and to `trim` |
| JavaText.EqualsIgnoreCase | contSocket/src/main/java/com/contsocket/ClientHandler.java:86 | `equalsIgnoreCase` holds exactly when the two texts upper-case alike; LineProtocol.QuitAnswersGoodbye and LineProtocol.VerbIgnoresCase use it for the exit test |
| JavaText.JavaSplit | contSocket/src/main/java/com/contsocket/ClientHandler.java:107 | no field holds the separator, and a text without the separator comes back whole; JavaText.SplitEmptyIff, JavaText.SplitPair and JavaText.SplitTriple give the fields of the shapes the protocol uses |
| JavaText.SplitEmptyIff | contSocket/src/main/java/com/contsocket/ClientHandler.java:107 | splitting on `\|` yields no field at all exactly for a non-empty line made of `\|` only |
| JavaText.SplitPair | contSocket/src/main/java/com/contsocket/ClientHandler.java:107 | splitting `a\|b`, where neither part holds `\|` and `b` is not empty, gives back `[a, b]` |
| JavaText.SplitTriple | contSocket/src/main/java/com/contsocket/ClientHandler.java:107 | splitting `a\|b\|c`, where no part holds `\|` and `c` is not empty, gives back `[a, b, c]` |
| JavaText.ParseIntOfIntToString | contSocket/src/main/java/com/contsocket/ClientHandler.java:168-169 | `Integer.parseInt` reads back every 32-bit value that is written in decimal |
| JavaText.ParseInt | contSocket/src/main/java/com/contsocket/ClientHandler.java:168-169 | `Integer.parseInt` succeeds only with a 32-bit value and only on a non-empty text with no blank at either end; JavaText.ParseIntOfIntToString shows it reads back every rendered 32-bit value |
| Calendar.Format | Ecoembes/src/main/java/es/deusto/sd/auctions/Gateway/ConSocketGateway.java:136 | the `dd-MM-yyyy` rendering of a day; Calendar.FormatMatchesPattern, Calendar.CalendarDayMatchesPattern and Calendar.FormatIsOneField state its shape |
| Calendar.FormatMatchesPattern | contSocket/src/main/java/com/contsocket/ClientHandler.java:142 | the `dd-MM-yyyy` rendering of a day matches `\d{2}-\d{2}-\d{4}` exactly when day and month are below 100 and the year below 10000, since the formatter pads but never truncates |
| Calendar.CalendarDayMatchesPattern | Ecoembes/src/main/java/es/deusto/sd/auctions/Gateway/ConSocketGateway.java:136 | on real calendar days, only a year above 9999 makes the rendering fail the server's date check |
| Calendar.FormatIsOneField | Ecoembes/src/main/java/es/deusto/sd/auctions/Gateway/ConSocketGateway.java:136-139 | a rendered day is non-empty, holds no `\|` and no surrounding blanks, so it travels as exactly one protocol field |
| CapacityStore.ConsultarCapacidad | contSocket/src/main/java/com/contsocket/CapacidadService.java:67-77 | the stored figure of the day, or -1 when the day has no entry |
| CapacityStore.ReducirCapacidad | contSocket/src/main/java/com/contsocket/CapacidadService.java:86-106 | succeeds exactly when the day has an entry holding at least the amount; the entry then becomes old minus amount and stays at or above 0; other days are untouched; a refusal changes nothing |
| CapacityStore.ReductionKeepsNonNegative | contSocket/src/main/java/com/contsocket/CapacidadService.java:94-101 | a table with no negative figure keeps none after any reduction, whatever the amount |
| CapacityStore.QueryAfterReduction | contSocket/src/main/java/com/contsocket/CapacidadService.java:67-105 | after a successful reduction the query answers the old figure minus the amount for that day and the old figure for every other day |
| CapacityStore.NoOverReservation | contSocket/src/main/java/com/contsocket/CapacidadService.java:86-106 | over any run of reductions on one day, the granted amounts add up to exactly what the figure lost, and never to more than it held |
| CapacityStore.SeedFigureRange | contSocket/src/main/java/com/contsocket/CapacidadService.java:49-51 | `80 + random*70` rounded to two decimals lies in [80, 150] for every draw in [0, 1) |
| CapacityStore.SeedStep | contSocket/src/main/java/com/contsocket/CapacidadService.java:45-53 | one round of the seeding loop keeps every day seeded so far present, nothing else present, every figure in [80, 150], and each day's last draw so far as its figure |
| CapacityStore.InicializarCapacidades | contSocket/src/main/java/com/contsocket/CapacidadService.java:39-59 | after seeding, each of the ten day texts has an entry and nothing else does; each figure is in [80, 150]; the last draw for a day text is the one kept |
| LineProtocol.ProcesarConsultaCapacidad | contSocket/src/main/java/com/contsocket/ClientHandler.java:133-154 | a capacity query is answered with a figure or refused, never acknowledged as a notification or with `ADIOS` |
| LineProtocol.CapacityQueryReplies | contSocket/src/main/java/com/contsocket/ClientHandler.java:133-154 | a part count other than 2 gets the usage error, a trimmed day failing the pattern gets the date error, both without reading the table; otherwise a negative or missing figure gets the not-available error, and a present one gets `OK` |
| LineProtocol.ProcesarNotificacion | contSocket/src/main/java/com/contsocket/ClientHandler.java:162-190 | a notification is acknowledged or refused, never answered with a figure or `ADIOS` |
| LineProtocol.NotificationReplies | contSocket/src/main/java/com/contsocket/ClientHandler.java:162-190 | a part count other than 3 gets the usage error; a field that is not a 32-bit integer gets the integer error; a count at or below 0 gets the positive error; otherwise both counts are echoed back; acknowledged exactly when both trimmed counts parse and are positive |
| LineProtocol.ProcesarComando | contSocket/src/main/java/com/contsocket/ClientHandler.java:100-125 | handling one line; LineProtocol.CrashIffSeparatorRun, LineProtocol.BlankLineRefused, LineProtocol.AnswerOfSplitLine and LineProtocol.UnknownVerbRefused state its answers |
| LineProtocol.Dispatch | contSocket/src/main/java/com/contsocket/ClientHandler.java:111-124 | the `switch` on the command word; LineProtocol.KnownVerb, LineProtocol.UnknownVerbRefused and LineProtocol.DispatchReadsArguments state which handler answers which word |
| LineProtocol.Render | contSocket/src/main/java/com/contsocket/ClientHandler.java:100-190 | the reply line written for each answer; LineProtocol.AnswerToCapacityCommand, LineProtocol.AnswerToNotifyCommand and SocketGateway.CapacityReplyRoundTrip state the lines written and how the gateway reads them back |
| LineProtocol.CrashIffSeparatorRun | contSocket/src/main/java/com/contsocket/ClientHandler.java:100-125 | handling a line throws exactly when the line is non-empty and made only of `\|` |
| LineProtocol.BlankLineRefused | contSocket/src/main/java/com/contsocket/ClientHandler.java:102-104 | an empty or blank line is answered `ERROR\|Comando vacío` |
| LineProtocol.UnknownVerbRefused | contSocket/src/main/java/com/contsocket/ClientHandler.java:107-123 | a command word that is not CAPACIDAD, NOTIFICAR or SALIR is refused, naming the trimmed, upper-cased word |
| LineProtocol.VerbIgnoresCase | contSocket/src/main/java/com/contsocket/ClientHandler.java:107-110 | the command word is matched after trimming and upper-casing, so its case and surrounding blanks do not matter |
| LineProtocol.KnownVerb | contSocket/src/main/java/com/contsocket/ClientHandler.java:107-119 | each of `CAPACIDAD`, `NOTIFICAR` and `SALIR` is its own trimmed, upper-cased command word |
| LineProtocol.DispatchReadsArguments | contSocket/src/main/java/com/contsocket/ClientHandler.java:109-124 | the command handlers read the parts after the command word only |
| LineProtocol.QuitAnswersGoodbye | contSocket/src/main/java/com/contsocket/ClientHandler.java:86-119 | a line that passes the exit test is itself answered `ADIOS` |
| LineProtocol.AnswerOfSplitLine | contSocket/src/main/java/com/contsocket/ClientHandler.java:107-124 | a line holding a `\|` and splitting into at least one field is dispatched on its first field |
| LineProtocol.AnswerToCapacityCommand | contSocket/src/main/java/com/contsocket/ClientHandler.java:133-154 | `CAPACIDAD\|` followed by a one-field day text is refused as a bad date when the trimmed text fails the pattern, and otherwise answered from that day's figure or refused as not available |
| LineProtocol.AnswerToWellFormedCapacityCommand | contSocket/src/main/java/com/contsocket/ClientHandler.java:139-153 | a request for a day text that matches the pattern gets the day's figure when it is present and not negative, and the not-available error naming that day otherwise |
| LineProtocol.AnswerToNotifyCommand | contSocket/src/main/java/com/contsocket/ClientHandler.java:162-185 | a notification with two positive 32-bit counts is acknowledged with exactly those counts |
| LineProtocol.OnlyQueriedDayMatters | contSocket/src/main/java/com/contsocket/ClientHandler.java:133-154 | two tables that agree on the queried day's answer give the same outcome for a CAPACIDAD line; the table is only read |
| LineProtocol.RunLoop | contSocket/src/main/java/com/contsocket/ClientHandler.java:71-90 | the loop writes at most one reply per line; it answers every line when the input ends, at least one when it quits, and stops short of the input when a line throws |
| LineProtocol.LoopAnswersEachLine | contSocket/src/main/java/com/contsocket/ClientHandler.java:75-82 | the i-th reply of the loop is the handler's answer to the i-th line |
| LineProtocol.LoopStopsAtFirstExit | contSocket/src/main/java/com/contsocket/ClientHandler.java:75-89 | the loop stops right after the first exit line, or right before the first line that throws, and no earlier line is an exit line |
| LineProtocol.LoopQuitReplies | contSocket/src/main/java/com/contsocket/ClientHandler.java:79-88 | when every exit line is answered with the same reply, a loop that quits writes that reply last |
| LineProtocol.LoopWithoutCrash | contSocket/src/main/java/com/contsocket/ClientHandler.java:71-90 | a handler that never throws gives a loop that never ends by a crash |
| LineProtocol.LoopAgreesWithoutCrash | contSocket/src/main/java/com/contsocket/ClientHandler.java:71-90 | two handlers that agree wherever the first answers give the same loop wherever the first loop does not crash |
| LineProtocol.ProcesarComandos | contSocket/src/main/java/com/contsocket/ClientHandler.java:71-90 | a session writes at most one reply per line; it answers every line when the input ends, at least one line when it ends by the exit test, and leaves a line unanswered when it crashes |
| LineProtocol.SessionAnswersEachLine | contSocket/src/main/java/com/contsocket/ClientHandler.java:75-82 | the i-th reply of a session is the answer to the i-th line |
| LineProtocol.SessionStopsAtFirstExit | contSocket/src/main/java/com/contsocket/ClientHandler.java:75-89 | a session stops right after the first line whose whole trimmed text is SALIR (ignoring case), or right before the first line that throws; no earlier line passes the exit test |
| LineProtocol.QuitSaysGoodbyeLast | contSocket/src/main/java/com/contsocket/ClientHandler.java:79-88 | a session that ends by the exit test has `ADIOS` as its last reply |
| LineProtocol.ErrorKeepsSessionOpen | contSocket/src/main/java/com/contsocket/ClientHandler.java:75-89 | a refused line gets its error reply and the session carries on with the following lines |
| LineProtocol.SalirWithArgumentKeepsSessionOpen | contSocket/src/main/java/com/contsocket/ClientHandler.java:86-119 | `SALIR\|arg` is answered `ADIOS`, but the session stays open for the following lines |
| LineProtocol.SeparatorLineEndsSession | contSocket/src/main/java/com/contsocket/ClientHandler.java:107-108 | as written, a line of nothing but `\|` ends the session with no reply, whatever follows; the corrected loop refuses it and answers the rest |
| LineProtocol.ProcesarComandoGuarded | contSocket/src/main/java/com/contsocket/ClientHandler.java:100-125 | the corrected handler gives the original's answer wherever the original answers, and refuses a separator-only line as an unknown empty command |
| LineProtocol.ProcesarComandosGuarded | contSocket/src/main/java/com/contsocket/ClientHandler.java:71-90 | a session under the corrected handler never ends by a crash |
| LineProtocol.GuardedAnswersEachLine | contSocket/src/main/java/com/contsocket/ClientHandler.java:75-89 | under the corrected handler, every line up to the exit line gets its reply, in order, and no earlier line passes the exit test |
| LineProtocol.GuardedAgreesWithoutCrash | contSocket/src/main/java/com/contsocket/ClientHandler.java:71-90 | on every input where the original session does not crash, the corrected session is identical to it |
| SocketGateway.Crear | Ecoembes/src/main/java/es/deusto/sd/auctions/Gateway/ConSocketGateway.java:24-44 | the URL is accepted exactly when it splits on `:` into two fields and the second is a 32-bit decimal; the host then holds no `:`; a URL without `:` is refused |
| SocketGateway.UrlRoundTrip | Ecoembes/src/main/java/es/deusto/sd/auctions/Gateway/ConSocketGateway.java:28-39 | `host:port` with no `:` in the host configures exactly that host and port |
| SocketGateway.TrailingColonIgnored | Ecoembes/src/main/java/es/deusto/sd/auctions/Gateway/ConSocketGateway.java:28-31 | `host:port:` configures the same gateway as `host:port`, since the split drops the trailing empty field |
| SocketGateway.ThreeFieldsRefused | Ecoembes/src/main/java/es/deusto/sd/auctions/Gateway/ConSocketGateway.java:28-31 | a URL with a third non-empty field is refused |
| SocketGateway.EnviarComando | Ecoembes/src/main/java/es/deusto/sd/auctions/Gateway/ConSocketGateway.java:46-81 | a port outside 0..65535 throws IllegalArgumentException (uncaught, since only I/O errors are caught); otherwise the reply line read (None at end of stream), or the command itself when the exchange fails with an I/O error |
| SocketGateway.BadPortThrows | Ecoembes/src/main/java/es/deusto/sd/auctions/Gateway/ConSocketGateway.java:54 | a gateway configured from a URL whose port is a 32-bit value outside 0..65535 is created without complaint, and every query through it throws |
| SocketGateway.ParsearRespuestaCapacidad | Ecoembes/src/main/java/es/deusto/sd/auctions/Gateway/ConSocketGateway.java:83-94 | a null reply and a reply with fewer than two fields throw; a trimmed status other than exactly `OK` reads 0; after `OK`, the trimmed value is parsed |
| SocketGateway.ConsultarCapacidadDisponible | Ecoembes/src/main/java/es/deusto/sd/auctions/Gateway/ConSocketGateway.java:129-144 | a null day is refused with IllegalArgumentException before any exchange; a port out of range throws; on a valid port a failed exchange reads as 0, a closed connection throws, and a reply line is decoded as `parsearRespuestaCapacidad` decodes it |
| SocketGateway.EchoedRequestReadsAsZero | Ecoembes/src/main/java/es/deusto/sd/auctions/Gateway/ConSocketGateway.java:84-93 | the request line `CAPACIDAD\|day`, decoded as a reply, gives 0, because its first field is not `OK` |
| SocketGateway.CapacityRequestFields | Ecoembes/src/main/java/es/deusto/sd/auctions/Gateway/ConSocketGateway.java:136-140 | the request line splits into exactly `CAPACIDAD` and the rendered day |
| SocketGateway.FailureReadsAsZero | Ecoembes/src/main/java/es/deusto/sd/auctions/Gateway/ConSocketGateway.java:72-80 | on a valid port, when the exchange fails with an I/O error, the echoed command decodes to 0, the same as a refusal |
| SocketGateway.CapacityReplyRoundTrip | Ecoembes/src/main/java/es/deusto/sd/auctions/Gateway/ConSocketGateway.java:84-92 | the server's `OK\|value` reply decodes to the value it rendered |
| SocketGateway.RefusalReadsAsZero | Ecoembes/src/main/java/es/deusto/sd/auctions/Gateway/ConSocketGateway.java:88-93 | every `ERROR\|text` reply the server can send decodes to 0 |
| SocketGateway.GoodbyeReplyThrows | Ecoembes/src/main/java/es/deusto/sd/auctions/Gateway/ConSocketGateway.java:84-86 | the one-field `ADIOS` reply makes the decoder throw instead of yielding a value |
| SocketGateway.ServerLink | contSocket/src/main/java/com/contsocket/ClientHandler.java:35-49 | a connection to the socket plant delivers its answer to the first line, and delivers no line exactly when that line throws |
| SocketGateway.ServerAnswerToRequest | contSocket/src/main/java/com/contsocket/ClientHandler.java:133-154 | the plant answers the request for a day with the date error when the rendering fails the pattern, with the figure when present and not negative, and with the not-available error otherwise |
| SocketGateway.ServerReplyDecodes | Ecoembes/src/main/java/es/deusto/sd/auctions/Gateway/ConSocketGateway.java:84-93 | the reply the socket plant writes to the request for a day decodes to the stored figure when it is present, not negative and the day passes the date check, and to 0 otherwise |
| SocketGateway.GatewayAgainstServer | Ecoembes/src/main/java/es/deusto/sd/auctions/Gateway/ConSocketGateway.java:129-144 | against the socket plant, a query for a day throws when the port is out of range; otherwise it yields that day's figure when it is present and not negative and the day passes the date check, and 0 in every other case |
| Assignment.ValueOf | plasSb/src/main/java/org/example/entities/Asignacion.java:51-56 | `valueOf` finds the state whose name is exactly the text, and finds none exactly when no state has that name |
| Assignment.ValueOfName | plasSb/src/main/java/org/example/entities/Asignacion.java:51-56 | every state is found again from its name |
| Assignment.NuevaAsignacion | plasSb/src/main/java/org/example/entities/Asignacion.java:59-74 | a new assignment is PENDIENTE, unsaved and has no note; it has the clock reading and the arguments as given; a null list of container ids becomes empty |
| Assignment.SetEstado | plasSb/src/main/java/org/example/entities/Asignacion.java:137-139 | the state becomes the given one, and every other field is kept |
| Assignment.SetEstadoOverwrites | plasSb/src/main/java/org/example/entities/Asignacion.java:137-139 | setting the state twice keeps only the second, and setting the current state changes nothing |
| PlantService.GetCapacidadFecha | plasSb/src/main/java/org/example/service/PlasSbService.java:26-29 | a day without a record reads as capacity 0; PlantService.RegisteredCapacityIsRead shows a registered capacity is read back and other days are untouched |
| PlantService.RegistrarCapacidad | plasSb/src/main/java/org/example/service/PlasSbService.java:36-62 | a capacity at or below 0 is refused; on a day with a record, a capacity below the used weight is refused and otherwise only the capacity changes; a new day gets a record with nothing used |
| PlantService.RegisteredCapacityIsRead | plasSb/src/main/java/org/example/service/PlasSbService.java:26-62 | after registering, `get_capacidad_fecha` reads the new capacity for that day and the old value for every other day |
| PlantService.RecibirAsignacion | plasSb/src/main/java/org/example/service/PlasSbService.java:85-128 | invalid totals or weight throw and nothing is saved; otherwise the assignment is always saved under the next id; it is RECHAZADO, with capacity untouched, exactly when the day has no record or the weight does not fit; a missing record and a weight that does not fit each get their own note, the latter naming the required and the available weight; otherwise it is PENDIENTE, noted as accepted, and the weight is added to the day's used weight; the saved record keeps the container ids given, a null list as empty |
| PlantService.EstadoFilter | plasSb/src/main/java/org/example/service/PlasSbService.java:135-142 | a null or empty state text means no filter; otherwise the upper-cased text must name a state, and an unknown name throws naming the original text |
| PlantService.Select | plasSb/src/main/java/org/example/dao/AsignacionRepository.java:15-19 | a filtered query returns each matching assignment as often as it is stored, and nothing else |
| PlantService.SortNewestFirst | plasSb/src/main/java/org/example/dao/AsignacionRepository.java:25-27 | ordering by reception time, newest first, is a permutation of its input |
| PlantService.InsertKeepsNewestFirst | plasSb/src/main/java/org/example/dao/AsignacionRepository.java:25-27 | inserting an assignment into a list ordered newest first keeps it ordered newest first |
| PlantService.ListarAsignaciones | plasSb/src/main/java/org/example/service/PlasSbService.java:134-153 | an unknown state name throws; otherwise the result holds exactly the stored assignments matching the given day and state, with multiplicity; without a state filter they come newest first |
| PlantService.ListAllIsEverything | plasSb/src/main/java/org/example/service/PlasSbService.java:150-151 | with neither filter, every stored assignment is listed |
| PlantService.ActualizarEstadoAsignacion | plasSb/src/main/java/org/example/service/PlasSbService.java:155-177 | an unknown id throws, then an invalid state name, then a RECHAZADO or COMPLETADO current state; otherwise only that assignment's state changes |
| PlantService.TerminalIsFinal | plasSb/src/main/java/org/example/service/PlasSbService.java:166-171 | no sequence of state-change requests alters a RECHAZADO or COMPLETADO assignment |
| PlantService.AnyMoveFromOpenState | plasSb/src/main/java/org/example/service/PlasSbService.java:155-177 | a non-final assignment can be moved to any of the four states, PENDIENTE included |
| PlantService.RegistrarKeepsInvariants | plasSb/src/main/java/org/example/service/PlasSbService.java:44-61 | registering a capacity keeps each record under its own day with 0 ≤ used ≤ capacity, and keeps each day's used weight equal to its accepted weight |
| PlantService.RecibirKeepsInvariants | plasSb/src/main/java/org/example/service/PlasSbService.java:85-128 | under the assumed capacity rules, receiving an assignment never lets the used weight exceed the capacity, and the used weight stays the accepted weight |
| PlantService.ActualizarKeepsInvariants | plasSb/src/main/java/org/example/service/PlasSbService.java:155-177 | changing a state keeps both invariants; an accepted weight stays counted whatever the state becomes |
| FillLevel.Classify | Ecoembes/src/main/java/es/deusto/sd/auctions/entity/Estado.java:43-49 | Verde exactly on [0, 0.80], Naranja exactly on (0.80, 1.0), Rojo exactly below 0 or from 1.0 up; every fraction gets exactly one level |
| FillLevel.ClassifyMonotone | Ecoembes/src/main/java/es/deusto/sd/auctions/entity/Estado.java:43-49 | among fractions that are not negative, a fuller container never gets a lower level |
| FillLevel.ClassifyBoundaries | Ecoembes/src/main/java/es/deusto/sd/auctions/entity/Estado.java:43-49 | 0.80 is still Verde, 1.0 is already Rojo, and a negative fraction is Rojo |
| FillLevel.NuevoEstado | Ecoembes/src/main/java/es/deusto/sd/auctions/entity/Estado.java:37-50 | the constructor stores instant, fraction and container unchanged, and its level follows the three thresholds |
| FillLevel.Equals | Ecoembes/src/main/java/es/deusto/sd/auctions/entity/Estado.java:88-90 | two readings are equal when taken at the same instant; FillLevel.EqualsIsEquivalence shows it is an equivalence that ignores level, fraction and container |
| FillLevel.EqualsIsEquivalence | Ecoembes/src/main/java/es/deusto/sd/auctions/entity/Estado.java:87-91 | `equals` is an equivalence relation that ignores fraction, container and level |
| JavaHash.SingleHashInjective | Ecoembes/src/main/java/es/deusto/sd/auctions/entity/Estado.java:93-96 | one-argument `Objects.hash` over `int`s agrees exactly when the arguments agree |
| JavaHash.PairHashSeesFirst | Ecoembes/src/main/java/es/deusto/sd/auctions/entity/Estado.java:93-96 | two-argument `Objects.hash` with equal second arguments agrees exactly when the first arguments agree |
| JavaHash.StringHash | Ecoembes/src/main/java/es/deusto/sd/auctions/entity/Personal.java:85-88 | `String.hashCode` of the address is a 32-bit value; Staff.IdentityIsTheEmail shows members with the same address hash alike through it |
| FillLevel.HashCodeAsWritten | Ecoembes/src/main/java/es/deusto/sd/auctions/entity/Estado.java:94-95 | the hash as written is a 32-bit value; FillLevel.HashAsWrittenSeesLevel and FillLevel.HashCodeBreaksEquals show it separates readings `equals` identifies |
| FillLevel.HashAsWrittenSeesLevel | Ecoembes/src/main/java/es/deusto/sd/auctions/entity/Estado.java:87-96 | as written, two equal readings hash alike exactly when their levels' hashes agree |
| FillLevel.HashCodeBreaksEquals | Ecoembes/src/main/java/es/deusto/sd/auctions/entity/Estado.java:87-96 | a half-full and a full reading taken at the same instant are equal, yet hash differently whenever the green and red constants hash differently |
| FillLevel.HashCode | Ecoembes/src/main/java/es/deusto/sd/auctions/entity/Estado.java:94-95 | the corrected hash over the instant alone is a 32-bit value; FillLevel.HashCodeAgreesWithEquals shows equal readings hash alike |
| FillLevel.HashCodeAgreesWithEquals | Ecoembes/src/main/java/es/deusto/sd/auctions/entity/Estado.java:87-96 | the corrected hash, over the instant alone, gives equal readings equal hashes |
| Staff.NuevoPersonal | Ecoembes/src/main/java/es/deusto/sd/auctions/entity/Personal.java:29-33 | a new member has the given address and password and no session; no token is valid for them |
| Staff.CheckPassword | Ecoembes/src/main/java/es/deusto/sd/auctions/entity/Personal.java:35-37 | the password check; Staff.PasswordIsExact shows a member without a password never passes and one with a password passes exactly with that password |
| Staff.IsValidToken | Ecoembes/src/main/java/es/deusto/sd/auctions/entity/Personal.java:39-41 | a token is valid only while a session is open and only when it is that session's; Staff.ValidTokenIsUnique states it |
| Staff.HasActiveSession | Ecoembes/src/main/java/es/deusto/sd/auctions/entity/Personal.java:47-49 | a session is open exactly when a token is held; Staff.ValidTokenIsUnique ties it to the valid token |
| Staff.PasswordIsExact | Ecoembes/src/main/java/es/deusto/sd/auctions/entity/Personal.java:35-37 | a member without a password never passes the check; with one, exactly that password passes |
| Staff.ValidTokenIsUnique | Ecoembes/src/main/java/es/deusto/sd/auctions/entity/Personal.java:39-49 | at most one token is valid, only while a session is open, and while it is open the held token is valid |
| Staff.InvalidateToken | Ecoembes/src/main/java/es/deusto/sd/auctions/entity/Personal.java:43-45 | afterwards there is no session and no token is valid; nothing else changes |
| Staff.SetActiveToken | Ecoembes/src/main/java/es/deusto/sd/auctions/entity/Personal.java:80-82 | afterwards exactly the given token is valid, or none when it is null; nothing else changes |
| Staff.InvalidateUndoesSet | Ecoembes/src/main/java/es/deusto/sd/auctions/entity/Personal.java:43-82 | setting a token and then invalidating it is the same as invalidating; setting the held token changes nothing |
| Staff.Equals | Ecoembes/src/main/java/es/deusto/sd/auctions/entity/Personal.java:90-100 | members are equal when their addresses are; Staff.IdentityIsTheEmail shows it is an equivalence on the address |
| Staff.HashCode | Ecoembes/src/main/java/es/deusto/sd/auctions/entity/Personal.java:85-88 | `Objects.hash` over the address is a 32-bit value; Staff.IdentityIsTheEmail shows equal members hash alike |
| Staff.IdentityIsTheEmail | Ecoembes/src/main/java/es/deusto/sd/auctions/entity/Personal.java:86-100 | `equals` is an equivalence on the address; equal members hash alike; logging in or out changes neither identity nor hash |
| Auth.EmptyServiceIsConsistent | Ecoembes/src/main/java/es/deusto/sd/auctions/service/AuthService.java:20 | the service starts with no session and both invariants holding |
| Auth.Valido | Ecoembes/src/main/java/es/deusto/sd/auctions/service/AuthService.java:81-83 | a token is valid exactly when the table holds it; Auth.GetUserByToken and Auth.ActiveSessionsCount state their answers in its terms |
| Auth.GetUserByToken | Ecoembes/src/main/java/es/deusto/sd/auctions/service/AuthService.java:70-72 | a member is found exactly for a token in the table, and it is the member the token is filed under |
| Auth.ActiveSessionsCount | Ecoembes/src/main/java/es/deusto/sd/auctions/service/AuthService.java:94-96 | the count is 0 exactly when no token is valid |
| Auth.Login | Ecoembes/src/main/java/es/deusto/sd/auctions/service/AuthService.java:24-43 | the login succeeds exactly for a member on file who offers their password, and a failure changes nothing; on success the member holds the token, the table files it under them, and no other member or older token changes |
| Auth.Logout | Ecoembes/src/main/java/es/deusto/sd/auctions/service/AuthService.java:48-58 | logout answers true exactly for a token in the table; the token is then removed and its member's session closed; an unknown token changes nothing |
| Auth.AddUser | Ecoembes/src/main/java/es/deusto/sd/auctions/service/AuthService.java:62-66 | a member whose address is new is put on file; a null member or a taken address changes nothing; sessions are untouched |
| Auth.ClearAllSessions | Ecoembes/src/main/java/es/deusto/sd/auctions/service/AuthService.java:99-105 | the table is emptied and every member it named has their session closed; members it did not name are untouched |
| Auth.AddedUserCanLogIn | Ecoembes/src/main/java/es/deusto/sd/auctions/service/AuthService.java:24-66 | a member just added can log in with the password they were added with |
| Auth.LoginThenLookUp | Ecoembes/src/main/java/es/deusto/sd/auctions/service/AuthService.java:24-72 | after a login, the token looks up the member who logged in, and that member holds it |
| Auth.LoginThenLogout | Ecoembes/src/main/java/es/deusto/sd/auctions/service/AuthService.java:24-58 | logging in with an unused token and then out again restores the table and leaves the member with no session |
| Auth.LoginKeepsConsistent | Ecoembes/src/main/java/es/deusto/sd/auctions/service/AuthService.java:34-39 | after a login, every member is still filed under their own address, and every session still names a member on file |
| Auth.LogoutKeepsInvariants | Ecoembes/src/main/java/es/deusto/sd/auctions/service/AuthService.java:48-58 | logout keeps the table consistent with the members |
| Auth.AddUserKeepsInvariants | Ecoembes/src/main/java/es/deusto/sd/auctions/service/AuthService.java:62-66 | adding a member who holds no session keeps both invariants |
| Auth.ClearEndsEverySession | Ecoembes/src/main/java/es/deusto/sd/auctions/service/AuthService.java:99-105 | when every member's session is in the table under them, clearing leaves nobody with a session |
| Auth.LoginWithUnusedTokenKeepsSessions | Ecoembes/src/main/java/es/deusto/sd/auctions/service/AuthService.java:34-39 | a login with a token the table does not hold keeps every member's session filed under them |
| Auth.ReloginKeepsOldToken | Ecoembes/src/main/java/es/deusto/sd/auctions/service/AuthService.java:34-39 | after a second login the earlier token still looks up the member, although the member now holds only the new one |
| Auth.TokenCollisionHijacksSession | Ecoembes/src/main/java/es/deusto/sd/auctions/service/AuthService.java:85-91 | as written, two logins that receive the same token leave the first member holding a token that looks up the second, do not add a session, and, with one record per address as this model keeps it, survive a clear-all as a session |
| Auth.FreshToken | Ecoembes/src/main/java/es/deusto/sd/auctions/service/AuthService.java:85-91 | the corrected generator returns a token the table does not hold, extending the clock rendering, and the rendering itself when it is unused |
| Auth.LoginFresh | Ecoembes/src/main/java/es/deusto/sd/auctions/service/AuthService.java:24-43 | a login with the corrected generator succeeds exactly when the original does, and never issues a token the table holds |
| Auth.FreshLoginKeepsSessions | Ecoembes/src/main/java/es/deusto/sd/auctions/service/AuthService.java:85-91 | with the corrected generator, every earlier token keeps its owner, the sessions stay in agreement, and a clear-all logs everybody out |

## Left out

- Socket I/O and threading are left out: the server's accept loop, `ClientHandler.run`'s stream
  set-up and clean-up, the gateway's socket, time-out and stream closing, and all
  console logging. One exchange is a `send` parameter that yields a reply line, end of stream or failure.
- Numbers: Java `double` is modelled as `real`, so the 0.80 threshold and the two-decimal rounding are
  exact. `Double.toString` and `Double.parseDouble` are parameters. The reply texts that hold a date or
  a double (the REST plant's notes, the exception messages with numbers) are kept as structured values.
- Case mapping and digits cover ASCII only. Java also upper-cases some non-ASCII letters, and
  `Integer.parseInt` accepts non-ASCII decimal digits. `toUpperCase()` uses the default locale,
  which is left out too: in a Turkish locale `capacidad` becomes `CAPACİDAD` (dotted capital I)
  and is refused as an unknown command, and a state name with an `i` no longer matches.
- JavaHash.StringHash: a Dafny `char` is a Unicode scalar value, taken here as one UTF-16 code
  unit. Java hashes a character outside the Basic Multilingual Plane as its two surrogates; that
  case is left out.
- A `java.util.Date` is a calendar day in the plants and a millisecond instant in the fill reading.
  Time zones and times of day are left out.
- The date formatter is a concrete `dd-MM-yyyy` renderer. It pads fields and never truncates them.
- The clock (`new Date()`, `currentTimeMillis`) and `Math.random` are parameters.
- The JPA-generated identifiers are modelled as positions: an assignment's UUID becomes its index in
  the saved sequence, and the numeric ids of Personal and Estado are left out.
- The no-argument constructors that JPA needs are left out, except where the six-argument
  `Asignacion` constructor runs its default one.
- PlantService.RecibirAsignacion: the `Capacidad` methods `puedeAcomodar`, `agregarPesoUsado`
  and `getPesoDisponible` are not part of this model; the entity as written has none of them. They
  are parameters (`CapacityRules`), and the invariants are proved under `AssumedRules`:
  available = capacity − used, a weight fits when at most available, and accepting adds to used.
- PlantService.RegistrarCapacidad: `getPesoUsado` is read as a concrete field `pesoUsado` of the
  record. The entity as written has no such field; the model assumes it exists and that a new
  day's record starts at 0.
- PlantService.ListarAsignaciones: the order the database gives to equal reception times,
  and to the queries with a state filter, is not specified. The contract states the contents exactly
  and states the newest-first order only where the query asks for it.
- PlantService.GetCapacidadFecha: the contract states only the no-record case. Reading back the
  registered value is stated by `PlantService.RegisteredCapacityIsRead`.
- The PlasSbService methods outside the core are left out: `post_capacidad_fecha`, the
  `obtener*` queries, `eliminarCapacidad` and `contarPorEstado`.
- `AuthService.getUserByEmail` is left out, as are the gateway's `tipo` field and its accessors.
- Null e-mail addresses, null dates inside the entities, and null boxed numbers passed to
  `recibirAsignacion` or `registrarCapacidad` (a null capacity is unboxed by the comparison at
  PlasSbService.java:38 and throws NullPointerException) are left out. Where the source treats a null argument on purpose, it is an `Option`.
- The session table and the repository share one member object per address. The model keys both by
  address. Detached JPA copies of a member, which would not share the in-memory token, are left out.
- `reducirCapacidad` is modelled sequentially. Its check-then-update is not synchronised, and
  concurrent clients could race on it.

## Findings

| source | as written | input that shows it | evidently intended | confidence | as-written member | corrected member |
|---|---|---|---|---|---|---|
| contSocket/src/main/java/com/contsocket/ClientHandler.java:107-108 | splitting a line made only of `\|` yields an empty array, so reading `partes[0]` throws ArrayIndexOutOfBoundsException; `run` catches only IOException, so the connection closes with no reply and the following lines are lost | the line `\|` | the line is refused with an `ERROR\|` reply, as `\|x` already is, and the session carries on | high; not executed | LineProtocol.SeparatorLineEndsSession | LineProtocol.GuardedAgreesWithoutCrash |
| Ecoembes/src/main/java/es/deusto/sd/auctions/entity/Estado.java:87-96 | `equals` compares only the instant, but `hashCode` also hashes the fill level, so equal readings can hash differently and hash-based collections treat them as distinct | two readings at the same instant with fractions 0.5 (Verde) and 1.0 (Rojo) | `hashCode` depends only on the instant, as the `equals`/`hashCode` contract requires | high; not executed | FillLevel.HashCodeBreaksEquals | FillLevel.HashCodeAgreesWithEquals |
| Ecoembes/src/main/java/es/deusto/sd/auctions/service/AuthService.java:85-91 | the token is the clock in milliseconds written in hexadecimal, so two logins within one millisecond get the same token, although the comment promises unique tokens; the second login takes over the first member's token, so the first member's token now authenticates the second member (with one record per address, as modelled, the first member's record also keeps the token after a clear-all) | members A and B log in during the same millisecond | every login gets a token that no live session holds | medium; not executed | Auth.TokenCollisionHijacksSession | Auth.FreshLoginKeepsSessions |
