/**
 * The socket plant's per-connection protocol engine (ClientHandler): one
 * request line in, one reply line out, with the capacity table read but
 * never written.
 */
module LineProtocol {
  import opened Wrappers
  import opened JavaText
  import Calendar
  import CapacityStore

  /** Why a request was refused; each renders to one fixed "ERROR|..." line. */
  datatype Fault =
    | EmptyCommand
    | UnknownCommand(verb: string)
    | CapacityUsage
    | BadDate
    | NoCapacity(fecha: string)
    | NotifyUsage
    | NotIntegers
    | NotPositive

  /** A reply line, before rendering. */
  datatype Reply =
    | Capacity(value: real)
    | Notified(containers: int, packages: int)
    | Goodbye
    | Error(fault: Fault)

  /**
   * What handling one line does: answer it, or throw a runtime exception
   * that run() does not catch, which ends the connection with no reply.
   */
  datatype Outcome = Answer(reply: Reply) | Crash

  const Bar: char := '|'

  function FaultText(f: Fault): string {
    match f
    case EmptyCommand => "Comando vacío"
    case UnknownCommand(verb) =>
      "Comando desconocido: " + verb + ". Comandos válidos: " + "CAPACIDAD, NOTIFICAR, SALIR"
    case CapacityUsage => "Formato incorrecto. " + "Use: CAPACIDAD|dd-MM-yyyy"
    case BadDate => "Formato de fecha inválido. " + "Use: dd-MM-yyyy"
    case NoCapacity(fecha) => "No hay capacidad " + "disponible para la fecha: " + fecha
    case NotifyUsage => "Formato incorrecto. " + "Use: NOTIFICAR|numContenedores|numEnvases"
    case NotIntegers => "Los valores de contenedores " + "y envases deben ser números enteros"
    case NotPositive => "Los números deben ser positivos"
  }

  /** Every refusal text starts with a letter, so "ERROR|" is always followed by a second field. */
  lemma FaultTextStartsWithLetter(f: Fault)
    ensures FaultText(f) != [] && 'A' <= FaultText(f)[0] <= 'Z'
  {
    match f
    case UnknownCommand(verb) =>
      assert FaultText(f)[0] == "Comando desconocido: "[0];
    case NoCapacity(fecha) =>
      assert FaultText(f)[0] == "No hay capacidad "[0];
    case CapacityUsage =>
      assert FaultText(f)[0] == "Formato incorrecto. "[0];
    case BadDate =>
      assert FaultText(f)[0] == "Formato de fecha inválido. "[0];
    case NotifyUsage =>
      assert FaultText(f)[0] == "Formato incorrecto. "[0];
    case NotIntegers =>
      assert FaultText(f)[0] == "Los valores de contenedores "[0];
    case EmptyCommand =>
    case NotPositive =>
  }

  /** The reply line as written to the socket; `showDouble` is Double.toString. */
  function Render(r: Reply, showDouble: real -> string): string {
    match r
    case Capacity(v) => "OK|" + showDouble(v)
    case Notified(c, p) =>
      "OK|Notificación recibida: " + IntToString(c) + " contenedores, " + IntToString(p) + " envases"
    case Goodbye => "ADIOS"
    case Error(f) => "ERROR|" + FaultText(f)
  }

  /** The command word: the first field, trimmed and upper-cased. */
  function CommandVerb(parts: seq<string>): string
    requires parts != []
  {
    ToUpper(Trim(parts[0]))
  }

  /** procesarConsultaCapacidad: CAPACIDAD|dd-MM-yyyy. */
  function ProcesarConsultaCapacidad(parts: seq<string>, store: CapacityStore.Store): (r: Reply)
    ensures r.Capacity? || r.Error?
  {
    if |parts| != 2 then Error(CapacityUsage)
    else
      var fecha := Trim(parts[1]);
      if !Calendar.IsDatePattern(fecha) then Error(BadDate)
      else
        var capacidad := CapacityStore.ConsultarCapacidad(store, fecha);
        if capacidad < 0.0 then Error(NoCapacity(fecha)) else Capacity(capacidad)
  }

  /**
   * A capacity query with the wrong number of parts gets the usage error, a
   * trimmed day failing the pattern the date error, and a well-formed day
   * the table's figure for it, or the refusal when the day has no usable entry.
   */
  lemma CapacityQueryReplies(parts: seq<string>, store: CapacityStore.Store)
    ensures var r := ProcesarConsultaCapacidad(parts, store);
            && (|parts| != 2 ==> r == Error(CapacityUsage))
            && (|parts| == 2 && !Calendar.IsDatePattern(Trim(parts[1])) ==> r == Error(BadDate))
            && (|parts| == 2 && Calendar.IsDatePattern(Trim(parts[1])) ==>
                 var fecha := Trim(parts[1]);
                 if fecha in store && store[fecha] >= 0.0 then r == Capacity(store[fecha])
                 else r == Error(NoCapacity(fecha)))
  {
  }

  /** procesarNotificacion: NOTIFICAR|numContenedores|numEnvases. */
  function ProcesarNotificacion(parts: seq<string>): (r: Reply)
    ensures r.Notified? || r.Error?
  {
    if |parts| != 3 then Error(NotifyUsage)
    else
      match (ParseInt(Trim(parts[1])), ParseInt(Trim(parts[2])))
      case (Some(contenedores), Some(envases)) =>
        if contenedores <= 0 || envases <= 0 then Error(NotPositive)
        else Notified(contenedores, envases)
      case _ => Error(NotIntegers)
  }

  /**
   * A notification is acknowledged exactly when it has three parts whose
   * trimmed second and third are positive 32-bit integers, and then with
   * those two numbers; the wrong part count, a non-integer field and a
   * count at or below 0 each get their own error.
   */
  lemma NotificationReplies(parts: seq<string>)
    ensures var r := ProcesarNotificacion(parts);
            && (r.Notified? <==>
                 && |parts| == 3
                 && ParseInt(Trim(parts[1])).Some? && ParseInt(Trim(parts[2])).Some?
                 && ParseInt(Trim(parts[1])).value > 0 && ParseInt(Trim(parts[2])).value > 0)
            && (r.Notified? ==>
                 && Some(r.containers) == ParseInt(Trim(parts[1]))
                 && Some(r.packages) == ParseInt(Trim(parts[2]))
                 && 0 < r.containers <= IntMax && 0 < r.packages <= IntMax)
            && (|parts| != 3 ==> r == Error(NotifyUsage))
            && (|parts| == 3 && (ParseInt(Trim(parts[1])).None? || ParseInt(Trim(parts[2])).None?) ==>
                 r == Error(NotIntegers))
            && (|parts| == 3 && ParseInt(Trim(parts[1])).Some? && ParseInt(Trim(parts[2])).Some?
                && (ParseInt(Trim(parts[1])).value <= 0 || ParseInt(Trim(parts[2])).value <= 0) ==>
                 r == Error(NotPositive))
  {
  }

  /** The switch on the command word. */
  function Dispatch(verb: string, parts: seq<string>, store: CapacityStore.Store): Reply {
    if verb == "CAPACIDAD" then ProcesarConsultaCapacidad(parts, store)
    else if verb == "NOTIFICAR" then ProcesarNotificacion(parts)
    else if verb == "SALIR" then Goodbye
    else Error(UnknownCommand(verb))
  }

  /** A non-empty line made of nothing but '|'. */
  predicate IsSeparatorRun(line: string) {
    line != [] && forall i :: 0 <= i < |line| ==> line[i] == Bar
  }

  /**
   * procesarComando: a line that trims to nothing is refused; otherwise the
   * line is split on '|' and the first field chooses the command. A line
   * made only of '|' splits into no field at all, and reading the first
   * one throws.
   */
  function ProcesarComando(line: string, store: CapacityStore.Store): Outcome {
    if Trim(line) == [] then Answer(Error(EmptyCommand))
    else
      var parts := JavaSplit(line, Bar);
      if parts == [] then Crash
      else Answer(Dispatch(CommandVerb(parts), parts, store))
  }

  /** Handling a line throws exactly when the line is non-empty and made only of '|'. */
  lemma CrashIffSeparatorRun(line: string, store: CapacityStore.Store)
    ensures ProcesarComando(line, store) == Crash <==> IsSeparatorRun(line)
  {
    TrimShape(line);
    SplitEmptyIff(line, Bar);
    if Trim(line) == [] && line != [] {
      assert IsTrimmable(line[0]);
    }
  }

  /** An empty or blank line is refused as an empty command. */
  lemma BlankLineRefused(line: string, store: CapacityStore.Store)
    requires IsBlank(line)
    ensures ProcesarComando(line, store) == Answer(Error(EmptyCommand))
  {
    TrimShape(line);
  }

  /** A command word other than the three known ones is refused, naming the upper-cased word. */
  lemma UnknownVerbRefused(line: string, store: CapacityStore.Store)
    requires !IsBlank(line) && JavaSplit(line, Bar) != []
    requires CommandVerb(JavaSplit(line, Bar)) !in {"CAPACIDAD", "NOTIFICAR", "SALIR"}
    ensures ProcesarComando(line, store) == Answer(Error(UnknownCommand(CommandVerb(JavaSplit(line, Bar)))))
  {
    TrimShape(line);
  }

  /** The loop's exit test: the whole trimmed line equals SALIR, ignoring case. */
  predicate IsQuit(line: string) {
    EqualsIgnoreCase(Trim(line), "SALIR")
  }

  /** A line that passes the exit test is itself answered ADIOS. */
  lemma QuitAnswersGoodbye(line: string, store: CapacityStore.Store)
    requires IsQuit(line)
    ensures ProcesarComando(line, store) == Answer(Goodbye)
  {
    TrimShape(line);
    var t := Trim(line);
    assert ToUpper(t) == "SALIR";
    assert Bar !in t by {
      forall i | 0 <= i < |t| ensures t[i] != Bar {
        assert UpperChar(t[i]) == "SALIR"[i];
      }
    }
    NotInTrimmed(line, Bar);
    assert JavaSplit(line, Bar) == [line];
  }

  // ---------------------------------------------------------------------
  // The connection loop (procesarComandos)
  // ---------------------------------------------------------------------

  /** How a connection ended: the client closed its side, sent the exit line, or a line threw. */
  datatype Ending = EndOfStream | Quit | Crashed

  /** The replies written to the socket, in order, and how the loop ended. */
  datatype Session = Session(replies: seq<Reply>, ending: Ending)

  /**
   * The loop of procesarComandos over the handler of one line: one reply
   * per line, in order, until the input ends, a line passes the exit test
   * (after its reply is written), or a line throws (before any reply is
   * written).
   */
  function RunLoop(lines: seq<string>, handle: string -> Outcome): (s: Session)
    ensures |s.replies| <= |lines|
    ensures s.ending == EndOfStream ==> |s.replies| == |lines|
    ensures s.ending == Quit ==> |s.replies| >= 1
    ensures s.ending == Crashed ==> |s.replies| < |lines|
  {
    if lines == [] then Session([], EndOfStream)
    else
      match handle(lines[0])
      case Crash => Session([], Crashed)
      case Answer(reply) =>
        if IsQuit(lines[0]) then Session([reply], Quit)
        else
          var rest := RunLoop(lines[1..], handle);
          Session([reply] + rest.replies, rest.ending)
  }

  /** The i-th reply of a loop is the handler's answer to the i-th line. */
  lemma {:induction false} LoopAnswersEachLine(lines: seq<string>, handle: string -> Outcome)
    ensures var s := RunLoop(lines, handle);
            forall i :: 0 <= i < |s.replies| ==> handle(lines[i]) == Answer(s.replies[i])
  {
    if lines != [] && handle(lines[0]).Answer? && !IsQuit(lines[0]) {
      LoopAnswersEachLine(lines[1..], handle);
      var s := RunLoop(lines, handle);
      var rest := RunLoop(lines[1..], handle);
      forall i | 1 <= i < |s.replies|
        ensures handle(lines[i]) == Answer(s.replies[i])
      {
        assert s.replies[i] == rest.replies[i - 1];
        assert lines[i] == lines[1..][i - 1];
      }
    }
  }

  /**
   * A loop stops exactly where procesarComandos does: after the first line
   * that passes the exit test, or before the first line that throws; no
   * earlier line passes the exit test.
   */
  lemma {:induction false} LoopStopsAtFirstExit(lines: seq<string>, handle: string -> Outcome)
    ensures var s := RunLoop(lines, handle);
            && (s.ending == Quit ==> IsQuit(lines[|s.replies| - 1]))
            && (s.ending == Crashed ==> handle(lines[|s.replies|]) == Crash)
            && (forall i :: 0 <= i < |s.replies| && (s.ending != Quit || i < |s.replies| - 1) ==> !IsQuit(lines[i]))
  {
    if lines != [] && handle(lines[0]).Answer? && !IsQuit(lines[0]) {
      LoopStopsAtFirstExit(lines[1..], handle);
      var s := RunLoop(lines, handle);
      var rest := RunLoop(lines[1..], handle);
      var n := |rest.replies|;
      assert rest.ending == Quit ==> lines[1..][n - 1] == lines[n];
      assert rest.ending == Crashed ==> lines[1..][n] == lines[n + 1];
      forall i | 1 <= i < |s.replies| && (s.ending != Quit || i < |s.replies| - 1)
        ensures !IsQuit(lines[i])
      {
        assert lines[i] == lines[1..][i - 1];
      }
    }
  }

  /** When the handler answers every exit line with `r`, a loop that ends by the exit test has `r` as its last reply. */
  lemma {:induction false} LoopQuitReplies(lines: seq<string>, handle: string -> Outcome, r: Reply)
    requires forall line :: IsQuit(line) ==> handle(line) == Answer(r)
    requires RunLoop(lines, handle).ending == Quit
    ensures var s := RunLoop(lines, handle);
            s.replies[|s.replies| - 1] == r
  {
    if !IsQuit(lines[0]) {
      LoopQuitReplies(lines[1..], handle, r);
    }
  }

  /** A handler that never throws gives a loop that never ends by a crash. */
  lemma {:induction false} LoopWithoutCrash(lines: seq<string>, handle: string -> Outcome)
    requires forall line :: handle(line).Answer?
    ensures RunLoop(lines, handle).ending != Crashed
  {
    if lines != [] && !IsQuit(lines[0]) {
      LoopWithoutCrash(lines[1..], handle);
    }
  }

  /**
   * Two handlers that agree wherever the first one answers give the same
   * loop on every input where the first one's loop does not crash.
   */
  lemma {:induction false} LoopAgreesWithoutCrash(lines: seq<string>, h1: string -> Outcome, h2: string -> Outcome)
    requires forall line :: h1(line).Answer? ==> h2(line) == h1(line)
    requires RunLoop(lines, h1).ending != Crashed
    ensures RunLoop(lines, h2) == RunLoop(lines, h1)
  {
    if lines != [] && !IsQuit(lines[0]) {
      LoopAgreesWithoutCrash(lines[1..], h1, h2);
    }
  }

  /** procesarComandos over the lines a client sends, handled by procesarComando against `store`. */
  function ProcesarComandos(lines: seq<string>, store: CapacityStore.Store): (s: Session)
    ensures |s.replies| <= |lines|
    ensures s.ending == EndOfStream ==> |s.replies| == |lines|
    ensures s.ending == Quit ==> |s.replies| >= 1
    ensures s.ending == Crashed ==> |s.replies| < |lines|
  {
    RunLoop(lines, line => ProcesarComando(line, store))
  }

  /** The i-th reply of a session is the answer to the i-th line. */
  lemma SessionAnswersEachLine(lines: seq<string>, store: CapacityStore.Store)
    ensures var s := ProcesarComandos(lines, store);
            forall i :: 0 <= i < |s.replies| ==> ProcesarComando(lines[i], store) == Answer(s.replies[i])
  {
    LoopAnswersEachLine(lines, line => ProcesarComando(line, store));
  }

  /**
   * A session stops exactly where the loop does: after the first line that
   * passes the exit test, or before the first line that throws; no earlier
   * line passes the exit test.
   */
  lemma SessionStopsAtFirstExit(lines: seq<string>, store: CapacityStore.Store)
    ensures var s := ProcesarComandos(lines, store);
            && (s.ending == Quit ==> IsQuit(lines[|s.replies| - 1]))
            && (s.ending == Crashed ==> ProcesarComando(lines[|s.replies|], store) == Crash)
            && (forall i :: 0 <= i < |s.replies| && (s.ending != Quit || i < |s.replies| - 1) ==> !IsQuit(lines[i]))
  {
    LoopStopsAtFirstExit(lines, line => ProcesarComando(line, store));
  }

  /** A session that ends by the exit test says ADIOS last. */
  lemma QuitSaysGoodbyeLast(lines: seq<string>, store: CapacityStore.Store)
    requires ProcesarComandos(lines, store).ending == Quit
    ensures var s := ProcesarComandos(lines, store);
            s.replies[|s.replies| - 1] == Goodbye
  {
    var h := line => ProcesarComando(line, store);
    forall line | IsQuit(line)
      ensures h(line) == Answer(Goodbye)
    {
      QuitAnswersGoodbye(line, store);
    }
    LoopQuitReplies(lines, h, Goodbye);
  }

  /** A refused command leaves the connection open for the following lines. */
  lemma ErrorKeepsSessionOpen(line: string, rest: seq<string>, store: CapacityStore.Store, f: Fault)
    requires ProcesarComando(line, store) == Answer(Error(f))
    ensures ProcesarComandos([line] + rest, store)
            == Session([Error(f)] + ProcesarComandos(rest, store).replies, ProcesarComandos(rest, store).ending)
  {
    if IsQuit(line) {
      QuitAnswersGoodbye(line, store);
    }
    assert ([line] + rest)[1..] == rest;
  }

  /** "SALIR|arg" is answered ADIOS, but it does not pass the exit test, so the connection stays open. */
  lemma SalirWithArgumentKeepsSessionOpen(arg: string, rest: seq<string>, store: CapacityStore.Store)
    requires Bar !in arg && arg != []
    ensures ProcesarComando("SALIR" + [Bar] + arg, store) == Answer(Goodbye)
    ensures ProcesarComandos(["SALIR" + [Bar] + arg] + rest, store)
            == Session([Goodbye] + ProcesarComandos(rest, store).replies, ProcesarComandos(rest, store).ending)
  {
    var line := "SALIR" + [Bar] + arg;
    SplitPair("SALIR", Bar, arg);
    assert line[5] == Bar;
    AnswerOfSplitLine(line, store);
    TrimUntrimmable("SALIR");
    TrimShape(line);
    assert !IsQuit(line) by {
      assert LeadingTrimmed(line) == 0 by {
        assert !IsTrimmable(line[0]);
      }
      assert |Trim(line)| > 5 by {
        assert !IsTrimmable(line[5]);
      }
      assert |ToUpper(Trim(line))| != |ToUpper("SALIR")|;
    }
    assert ([line] + rest)[1..] == rest;
  }

  // ---------------------------------------------------------------------
  // Well-formed requests, as a client writes them
  // ---------------------------------------------------------------------

  /** A line holding a '|' and splitting into at least one field is dispatched on its first field. */
  lemma AnswerOfSplitLine(line: string, store: CapacityStore.Store)
    requires Bar in line && JavaSplit(line, Bar) != []
    ensures ProcesarComando(line, store)
            == Answer(Dispatch(CommandVerb(JavaSplit(line, Bar)), JavaSplit(line, Bar), store))
  {
    TrimShape(line);
    var i :| 0 <= i < |line| && line[i] == Bar;
    assert !IsTrimmable(line[i]);
  }

  /** Each of the three command words reads back as itself. */
  lemma KnownVerb(w: string)
    requires w in {"CAPACIDAD", "NOTIFICAR", "SALIR"}
    ensures ToUpper(Trim(w)) == w
  {
    TrimUntrimmable(w);
    UpperOfUpperWord(w);
  }

  lemma UpperOfUpperWord(w: string)
    requires forall i :: 0 <= i < |w| ==> 'A' <= w[i] <= 'Z'
    ensures ToUpper(w) == w
  {
  }

  /** The capacity request for a day text. */
  function CapacityCommand(fecha: string): string {
    "CAPACIDAD" + [Bar] + fecha
  }

  /**
   * A capacity request for a one-field day text is refused when the trimmed
   * text fails the date pattern, and otherwise answered from the table
   * entry for it, or refused as not available.
   */
  lemma AnswerToCapacityCommand(fecha: string, store: CapacityStore.Store)
    requires Bar !in fecha && fecha != []
    ensures var t := Trim(fecha);
            ProcesarComando(CapacityCommand(fecha), store)
            == Answer(if !Calendar.IsDatePattern(t) then Error(BadDate)
                      else if t in store && store[t] >= 0.0 then Capacity(store[t])
                      else Error(NoCapacity(t)))
  {
    var line := CapacityCommand(fecha);
    var parts := ["CAPACIDAD", fecha];
    SplitPair("CAPACIDAD", Bar, fecha);
    assert JavaSplit(line, Bar) == parts;
    assert line[9] == Bar;
    AnswerOfSplitLine(line, store);
    KnownVerb("CAPACIDAD");
    assert CommandVerb(parts) == "CAPACIDAD";
    CapacityQueryReplies(parts, store);
  }

  /** A well-formed capacity request is answered from the table entry for that day, or refused as not available. */
  lemma AnswerToWellFormedCapacityCommand(fecha: string, store: CapacityStore.Store)
    requires Calendar.IsDatePattern(fecha)
    ensures ProcesarComando(CapacityCommand(fecha), store)
            == Answer(if fecha in store && store[fecha] >= 0.0 then Capacity(store[fecha])
                      else Error(NoCapacity(fecha)))
  {
    Calendar.DatePatternIsOneField(fecha);
    AnswerToCapacityCommand(fecha, store);
  }

  /** The notification request for two counts. */
  function NotifyCommand(contenedores: int, envases: int): string {
    "NOTIFICAR" + [Bar] + IntToString(contenedores) + [Bar] + IntToString(envases)
  }

  /** The decimal rendering of an int has no surrounding blanks. */
  lemma IntToStringUntrimmed(n: int)
    ensures Trim(IntToString(n)) == IntToString(n)
  {
    var s := IntToString(n);
    if n < 0 {
      assert s[|s| - 1] == NatToString(-n)[|NatToString(-n)| - 1];
    }
    TrimUntrimmable(s);
  }

  /** A notification with two positive 32-bit counts is acknowledged with exactly those counts. */
  lemma AnswerToNotifyCommand(contenedores: int, envases: int, store: CapacityStore.Store)
    requires 0 < contenedores <= IntMax && 0 < envases <= IntMax
    ensures ProcesarComando(NotifyCommand(contenedores, envases), store) == Answer(Notified(contenedores, envases))
  {
    var a, b := IntToString(contenedores), IntToString(envases);
    var line := NotifyCommand(contenedores, envases);
    var parts := ["NOTIFICAR", a, b];
    IntToStringHasNoSeparators(contenedores);
    IntToStringHasNoSeparators(envases);
    SplitTriple("NOTIFICAR", Bar, a, b);
    assert JavaSplit(line, Bar) == parts;
    assert line[9] == Bar;
    AnswerOfSplitLine(line, store);
    KnownVerb("NOTIFICAR");
    assert CommandVerb(parts) == "NOTIFICAR";
    IntToStringUntrimmed(contenedores);
    IntToStringUntrimmed(envases);
    ParseIntOfIntToString(contenedores);
    ParseIntOfIntToString(envases);
    assert ParseInt(Trim(parts[1])) == Some(contenedores);
    assert ParseInt(Trim(parts[2])) == Some(envases);
    assert ProcesarNotificacion(parts) == Notified(contenedores, envases);
  }

  /** The command word is matched ignoring case and surrounding blanks. */
  lemma VerbIgnoresCase(verb: string, args: string, store: CapacityStore.Store)
    requires Bar !in verb && Bar !in args && args != []
    requires !IsBlank(verb)
    ensures ProcesarComando(verb + [Bar] + args, store)
            == ProcesarComando(ToUpper(Trim(verb)) + [Bar] + args, store)
  {
    var up := ToUpper(Trim(verb));
    var line1, line2 := verb + [Bar] + args, up + [Bar] + args;
    var parts1, parts2 := [verb, args], [up, args];
    TrimKeepsAbsent(verb, Bar);
    UpperKeepsAbsent(Trim(verb), Bar);
    SplitPair(verb, Bar, args);
    SplitPair(up, Bar, args);
    assert line1[|verb|] == Bar;
    assert line2[|up|] == Bar;
    AnswerOfSplitLine(line1, store);
    AnswerOfSplitLine(line2, store);
    UpperOfTrimmedIsTrimmed(verb);
    UpperIdempotent(Trim(verb));
    assert CommandVerb(parts1) == up && CommandVerb(parts2) == up;
    DispatchReadsArguments(up, parts1, parts2, store);
  }

  /** The handlers read the parts after the command word only. */
  lemma DispatchReadsArguments(verb: string, p: seq<string>, q: seq<string>, store: CapacityStore.Store)
    requires |p| == |q| && p != [] && p[1..] == q[1..]
    ensures Dispatch(verb, p, store) == Dispatch(verb, q, store)
  {
    if |p| >= 2 {
      assert p[1] == p[1..][0] == q[1];
    }
    if |p| >= 3 {
      assert p[2] == p[1..][1] == q[2];
    }
  }

  /**
   * The table is only read, and only at the day a well-formed CAPACIDAD
   * line names: any two tables that agree on that day's query give the
   * same outcome, and for every other line the table plays no part.
   */
  lemma OnlyQueriedDayMatters(line: string, s1: CapacityStore.Store, s2: CapacityStore.Store)
    requires !IsBlank(line) && JavaSplit(line, Bar) != []
             && CommandVerb(JavaSplit(line, Bar)) == "CAPACIDAD" && |JavaSplit(line, Bar)| == 2
             ==> CapacityStore.ConsultarCapacidad(s1, Trim(JavaSplit(line, Bar)[1]))
                 == CapacityStore.ConsultarCapacidad(s2, Trim(JavaSplit(line, Bar)[1]))
    ensures ProcesarComando(line, s1) == ProcesarComando(line, s2)
  {
  }

  // ---------------------------------------------------------------------
  // Corrected handling of separator-only lines
  // ---------------------------------------------------------------------

  /**
   * procesarComando with the separator-only line read as having an empty
   * command word, as "|x" already is, so that it is refused with an ERROR
   * reply instead of throwing.
   */
  function ProcesarComandoGuarded(line: string, store: CapacityStore.Store): (r: Reply)
    ensures ProcesarComando(line, store).Answer? ==> r == ProcesarComando(line, store).reply
    ensures ProcesarComando(line, store) == Crash ==> r == Error(UnknownCommand(""))
  {
    CrashIffSeparatorRun(line, store);
    TrimShape(line);
    SplitEmptyIff(line, Bar);
    if IsBlank(line) then Error(EmptyCommand)
    else
      var parts := JavaSplit(line, Bar);
      Dispatch(if parts == [] then "" else CommandVerb(parts), parts, store)
  }

  /** procesarComandos over the corrected handler: never ends by a crash. */
  function ProcesarComandosGuarded(lines: seq<string>, store: CapacityStore.Store): (s: Session)
    ensures s.ending != Crashed
    ensures |s.replies| <= |lines|
    ensures s.ending == EndOfStream ==> |s.replies| == |lines|
    ensures s.ending == Quit ==> |s.replies| >= 1
  {
    LoopWithoutCrash(lines, line => Answer(ProcesarComandoGuarded(line, store)));
    RunLoop(lines, line => Answer(ProcesarComandoGuarded(line, store)))
  }

  /** Under the corrected handler every line up to the exit line gets its reply, in order. */
  lemma GuardedAnswersEachLine(lines: seq<string>, store: CapacityStore.Store)
    ensures var s := ProcesarComandosGuarded(lines, store);
            && (forall i :: 0 <= i < |s.replies| ==> s.replies[i] == ProcesarComandoGuarded(lines[i], store))
            && (s.ending == Quit ==> IsQuit(lines[|s.replies| - 1]))
            && (forall i :: 0 <= i < |s.replies| && (s.ending != Quit || i < |s.replies| - 1) ==> !IsQuit(lines[i]))
  {
    LoopAnswersEachLine(lines, line => Answer(ProcesarComandoGuarded(line, store)));
    LoopStopsAtFirstExit(lines, line => Answer(ProcesarComandoGuarded(line, store)));
  }

  /** The corrected loop agrees with the original on every input that does not throw. */
  lemma GuardedAgreesWithoutCrash(lines: seq<string>, store: CapacityStore.Store)
    requires ProcesarComandos(lines, store).ending != Crashed
    ensures ProcesarComandosGuarded(lines, store) == ProcesarComandos(lines, store)
  {
    var h1 := line => ProcesarComando(line, store);
    var h2 := line => Answer(ProcesarComandoGuarded(line, store));
    forall line | h1(line).Answer?
      ensures h2(line) == h1(line)
    {
      assert ProcesarComando(line, store).Answer?;
    }
    LoopAgreesWithoutCrash(lines, h1, h2);
  }

  /**
   * The input that shows the defect: a line of nothing but '|' (for
   * instance "|") ends the connection with no reply, whatever follows it;
   * the corrected handler refuses it and carries on with the next line.
   */
  lemma SeparatorLineEndsSession(line: string, rest: seq<string>, store: CapacityStore.Store)
    requires IsSeparatorRun(line)
    ensures ProcesarComandos([line] + rest, store) == Session([], Crashed)
    ensures ProcesarComandosGuarded([line] + rest, store)
            == Session([Error(UnknownCommand(""))] + ProcesarComandosGuarded(rest, store).replies,
                       ProcesarComandosGuarded(rest, store).ending)
  {
    CrashIffSeparatorRun(line, store);
    TrimUntrimmable(line);
    assert !IsQuit(line) by {
      assert ToUpper(line)[0] == UpperChar(Bar);
    }
    assert ([line] + rest)[1..] == rest;
  }
}
