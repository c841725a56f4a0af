/**
 * The central server's client for a socket plant (ConSocketGateway): it
 * reads "host:port" once, and for each capacity query opens a connection,
 * sends one CAPACIDAD line, reads one reply line and decodes it.
 *
 * The connection is a parameter: `send` maps the command line to what the
 * socket gave back (a reply line, end of stream, or an I/O failure).
 * Double.parseDouble is the parameter `parseDouble`.
 */
module SocketGateway {
  import opened Wrappers
  import opened JavaText
  import Calendar
  import CapacityStore
  import LineProtocol

  const Colon: char := ':'

  /** A configured gateway: where it connects, and the plant's display name. */
  datatype Gateway = Gateway(host: string, puerto: int, nombre: string)

  /** The exceptions a gateway call ends with. */
  datatype Failure =
    | IllegalArgument(message: string)
      /** NullPointerException: the connection ended before any reply line. */
    | NullReply
      /** ArrayIndexOutOfBoundsException: the reply has fewer than two '|' fields. */
    | MissingField
      /** NumberFormatException from Double.parseDouble on the value field. */
    | BadNumber(text: string)

  /** What one exchange on the socket gave back, once the socket could be created. */
  datatype Transport =
    | Delivered(line: Option<string>)   // readLine's result; None is end of stream
    | Failed                            // connect, timeout or I/O error (an IOException)

  /** The ports java.net.Socket accepts; any other makes its constructor throw. */
  predicate ValidPort(puerto: int) {
    0 <= puerto <= 0xFFFF
  }

  /** The IllegalArgumentException message of java.net.InetSocketAddress for a port out of range. */
  function PortMessage(puerto: int): string {
    "port out of range:" + IntToString(puerto)
  }

  /**
   * The constructor: the URL must split on ':' into exactly two fields, and
   * the second must be a decimal int; the port is not range-checked.
   */
  function Crear(url: string, nombre: string): (r: Result<Gateway, Failure>)
    ensures r.Err? ==> r.error.IllegalArgument?
    ensures r.Ok? ==> r.value.nombre == nombre && Colon !in r.value.host && IsInt32(r.value.puerto)
    ensures r.Ok? <==> |JavaSplit(url, Colon)| == 2 && ParseInt(JavaSplit(url, Colon)[1]).Some?
    ensures Colon !in url ==> r.Err?
  {
    var partes := JavaSplit(url, Colon);
    if |partes| != 2 then
      Err(IllegalArgument("URL debe tener formato 'host:puerto'. Recibido: " + url))
    else
      match ParseInt(partes[1])
      case None => Err(IllegalArgument("Puerto inválido: " + partes[1]))
      case Some(p) => Ok(Gateway(partes[0], p, nombre))
  }

  /** A URL written as host ':' port, with no ':' in the host, configures exactly that host and port. */
  lemma UrlRoundTrip(host: string, puerto: int, nombre: string)
    requires Colon !in host && IsInt32(puerto)
    ensures Crear(host + [Colon] + IntToString(puerto), nombre) == Ok(Gateway(host, puerto, nombre))
  {
    IntToStringHasNoSeparators(puerto);
    SplitPair(host, Colon, IntToString(puerto));
    ParseIntOfIntToString(puerto);
  }

  /** Trailing ':' are dropped by the split, so "host:port:" configures the same gateway as "host:port". */
  lemma TrailingColonIgnored(host: string, puerto: int, nombre: string)
    requires Colon !in host && IsInt32(puerto)
    ensures Crear(host + [Colon] + IntToString(puerto) + [Colon], nombre) == Ok(Gateway(host, puerto, nombre))
  {
    var p := IntToString(puerto);
    IntToStringHasNoSeparators(puerto);
    FieldsOfJoin(host, Colon, p + [Colon]);
    FieldsOfJoin(p, Colon, []);
    assert p + [Colon] == p + [Colon] + [];
    assert host + [Colon] + p + [Colon] == host + [Colon] + (p + [Colon]);
    assert Fields(host + [Colon] + p + [Colon], Colon) == [host, p, []];
    assert (host + [Colon] + p + [Colon])[|host|] == Colon;
    assert DropTrailingEmpty([host, p, []]) == [host, p];
    ParseIntOfIntToString(puerto);
  }

  /** A URL with a third non-empty field (an IPv6 literal, say) is refused. */
  lemma ThreeFieldsRefused(a: string, b: string, c: string, nombre: string)
    requires Colon !in a && Colon !in b && Colon !in c && c != []
    ensures Crear(a + [Colon] + b + [Colon] + c, nombre).Err?
  {
    SplitTriple(a, Colon, b, c);
  }

  /**
   * enviarComando: the reply line read, or, when the exchange fails with an
   * IOException, the command itself. A port outside 0..65535, which the
   * constructor let through, makes `new Socket` throw an
   * IllegalArgumentException that is not caught.
   */
  function EnviarComando(g: Gateway, comando: string, send: string -> Transport): (r: Result<Option<string>, Failure>)
    ensures r.Err? <==> !ValidPort(g.puerto)
    ensures r.Err? ==> r.error == IllegalArgument(PortMessage(g.puerto))
    ensures r.Ok? && send(comando).Failed? ==> r.value == Some(comando)
    ensures r.Ok? && send(comando).Delivered? ==> r.value == send(comando).line
  {
    if !ValidPort(g.puerto) then Err(IllegalArgument(PortMessage(g.puerto)))
    else
      match send(comando)
      case Failed => Ok(Some(comando))
      case Delivered(line) => Ok(line)
  }

  /**
   * parsearRespuestaCapacidad: the first field, trimmed, must be exactly
   * "OK" (case matters) for the second field to be read as the value; any
   * other status reads as 0. A missing reply or a missing field throws.
   */
  function ParsearRespuestaCapacidad(respuesta: Option<string>, parseDouble: string -> Option<real>): (r: Result<real, Failure>)
    ensures respuesta.None? ==> r == Err(NullReply)
    ensures respuesta.Some? && |JavaSplit(respuesta.value, LineProtocol.Bar)| < 2 ==> r == Err(MissingField)
    ensures respuesta.Some? && |JavaSplit(respuesta.value, LineProtocol.Bar)| >= 2 ==>
              var partes := JavaSplit(respuesta.value, LineProtocol.Bar);
              if Trim(partes[0]) != "OK" then r == Ok(0.0)
              else if parseDouble(Trim(partes[1])).Some? then r == Ok(parseDouble(Trim(partes[1])).value)
              else r == Err(BadNumber(Trim(partes[1])))
  {
    match respuesta
    case None => Err(NullReply)
    case Some(s) =>
      var partes := JavaSplit(s, LineProtocol.Bar);
      if |partes| < 2 then Err(MissingField)
      else
        var estado := Trim(partes[0]);
        var valor := Trim(partes[1]);
        if estado == "OK" then
          match parseDouble(valor)
          case None => Err(BadNumber(valor))
          case Some(v) => Ok(v)
        else Ok(0.0)
  }

  const NullDateMessage: string := "La fecha no puede ser null"

  /** The line sent for a day: "CAPACIDAD|" and the day as dd-MM-yyyy. */
  function CapacityRequest(d: Calendar.Date): string {
    LineProtocol.CapacityCommand(Calendar.Format(d))
  }

  /** The request line splits into the verb and the day text. */
  lemma CapacityRequestFields(d: Calendar.Date)
    ensures JavaSplit(CapacityRequest(d), LineProtocol.Bar) == ["CAPACIDAD", Calendar.Format(d)]
  {
    Calendar.FormatIsOneField(d);
    SplitPair("CAPACIDAD", LineProtocol.Bar, Calendar.Format(d));
  }

  /** The request line, echoed back as a reply, has the status field CAPACIDAD and so decodes to 0. */
  lemma EchoedRequestReadsAsZero(d: Calendar.Date, parseDouble: string -> Option<real>)
    ensures ParsearRespuestaCapacidad(Some(CapacityRequest(d)), parseDouble) == Ok(0.0)
  {
    var line := CapacityRequest(d);
    CapacityRequestFields(d);
    var partes := JavaSplit(line, LineProtocol.Bar);
    assert |partes| == 2 && partes[0] == "CAPACIDAD";
    TrimUntrimmable("CAPACIDAD");
    assert Trim(partes[0]) != "OK";
  }

  /**
   * consultarCapacidadDisponible: a null day is refused before any exchange;
   * a port out of range throws; a failed exchange reads as 0, a closed
   * connection throws, and a reply line is decoded.
   */
  function ConsultarCapacidadDisponible(g: Gateway, fecha: Option<Calendar.Date>, send: string -> Transport,
                                        parseDouble: string -> Option<real>): (r: Result<real, Failure>)
    ensures fecha.None? ==> r == Err(IllegalArgument(NullDateMessage))
    ensures fecha.Some? && !ValidPort(g.puerto) ==> r == Err(IllegalArgument(PortMessage(g.puerto)))
    ensures fecha.Some? && ValidPort(g.puerto) ==>
              match send(CapacityRequest(fecha.value))
              case Failed => r == Ok(0.0)
              case Delivered(None) => r == Err(NullReply)
              case Delivered(Some(reply)) => r == ParsearRespuestaCapacidad(Some(reply), parseDouble)
  {
    match fecha
    case None => Err(IllegalArgument(NullDateMessage))
    case Some(d) =>
      EchoedRequestReadsAsZero(d, parseDouble);
      match EnviarComando(g, CapacityRequest(d), send)
      case Err(e) => Err(e)
      case Ok(respuesta) => ParsearRespuestaCapacidad(respuesta, parseDouble)
  }

  /** With a port the constructor accepts but a socket refuses, every query for a day throws instead of reading 0. */
  lemma BadPortThrows(g: Gateway, d: Calendar.Date, send: string -> Transport, parseDouble: string -> Option<real>)
    requires !ValidPort(g.puerto)
    ensures ConsultarCapacidadDisponible(g, Some(d), send, parseDouble).Err?
    ensures Colon !in g.host && IsInt32(g.puerto) ==> Crear(g.host + [Colon] + IntToString(g.puerto), g.nombre) == Ok(g)
  {
    if Colon !in g.host && IsInt32(g.puerto) {
      UrlRoundTrip(g.host, g.puerto, g.nombre);
    }
  }

  /** When the exchange fails with an I/O error, the echoed command decodes to 0, exactly like a refusal. */
  lemma FailureReadsAsZero(g: Gateway, d: Calendar.Date, send: string -> Transport, parseDouble: string -> Option<real>)
    requires ValidPort(g.puerto) && send(CapacityRequest(d)).Failed?
    ensures ConsultarCapacidadDisponible(g, Some(d), send, parseDouble) == Ok(0.0)
  {
    EchoedRequestReadsAsZero(d, parseDouble);
  }

  /** A rendered double that survives the reply line and reads back as itself. */
  predicate ShowsCleanly(showDouble: real -> string, parseDouble: string -> Option<real>, v: real) {
    var t := showDouble(v);
    && t != []
    && LineProtocol.Bar !in t
    && !IsTrimmable(t[0]) && !IsTrimmable(t[|t| - 1])
    && parseDouble(t) == Some(v)
  }

  /** The server's "OK|value" reply decodes to the value it rendered. */
  lemma CapacityReplyRoundTrip(v: real, showDouble: real -> string, parseDouble: string -> Option<real>)
    requires ShowsCleanly(showDouble, parseDouble, v)
    ensures ParsearRespuestaCapacidad(Some(LineProtocol.Render(LineProtocol.Capacity(v), showDouble)), parseDouble)
            == Ok(v)
  {
    assert "OK|" + showDouble(v) == "OK" + [LineProtocol.Bar] + showDouble(v);
    SplitPair("OK", LineProtocol.Bar, showDouble(v));
    TrimUntrimmable("OK");
    TrimUntrimmable(showDouble(v));
  }

  /** Every "ERROR|text" reply of the server decodes to 0. */
  lemma RefusalReadsAsZero(f: LineProtocol.Fault, showDouble: real -> string, parseDouble: string -> Option<real>)
    ensures ParsearRespuestaCapacidad(Some(LineProtocol.Render(LineProtocol.Error(f), showDouble)), parseDouble)
            == Ok(0.0)
  {
    var text := LineProtocol.FaultText(f);
    LineProtocol.FaultTextStartsWithLetter(f);
    assert "ERROR|" + text == "ERROR" + [LineProtocol.Bar] + text;
    SplitLeadingField("ERROR", LineProtocol.Bar, text);
    TrimUntrimmable("ERROR");
  }

  /** The server's "ADIOS" reply has a single field, so decoding it throws. */
  lemma GoodbyeReplyThrows(showDouble: real -> string, parseDouble: string -> Option<real>)
    ensures ParsearRespuestaCapacidad(Some(LineProtocol.Render(LineProtocol.Goodbye, showDouble)), parseDouble)
            == Err(MissingField)
  {
  }

  /** A connection to the socket plant: it answers the first line, or closes without a reply when that line throws. */
  function ServerLink(store: CapacityStore.Store, showDouble: real -> string, comando: string): (t: Transport)
    ensures t.Delivered?
    ensures t.line.None? <==> LineProtocol.IsSeparatorRun(comando)
  {
    LineProtocol.CrashIffSeparatorRun(comando, store);
    match LineProtocol.ProcesarComando(comando, store)
    case Crash => Delivered(None)
    case Answer(reply) => Delivered(Some(LineProtocol.Render(reply, showDouble)))
  }

  /** The socket plant's answer to the request line for a day. */
  lemma ServerAnswerToRequest(d: Calendar.Date, store: CapacityStore.Store)
    ensures var key := Calendar.Format(d);
            LineProtocol.ProcesarComando(CapacityRequest(d), store)
            == LineProtocol.Answer(
                 if !Calendar.IsDatePattern(key) then LineProtocol.Error(LineProtocol.BadDate)
                 else if key in store && store[key] >= 0.0 then LineProtocol.Capacity(store[key])
                 else LineProtocol.Error(LineProtocol.NoCapacity(key)))
  {
    Calendar.FormatIsOneField(d);
    LineProtocol.AnswerToCapacityCommand(Calendar.Format(d), store);
  }

  /** The reply the socket plant writes to the request for a day decodes to the stored figure, or to 0. */
  lemma ServerReplyDecodes(d: Calendar.Date, store: CapacityStore.Store,
                           showDouble: real -> string, parseDouble: string -> Option<real>)
    requires var key := Calendar.Format(d);
             Calendar.IsDatePattern(key) && key in store && store[key] >= 0.0 ==>
               ShowsCleanly(showDouble, parseDouble, store[key])
    ensures var key := Calendar.Format(d);
            ServerLink(store, showDouble, CapacityRequest(d)).line.Some?
            && ParsearRespuestaCapacidad(ServerLink(store, showDouble, CapacityRequest(d)).line, parseDouble)
               == Ok(if Calendar.IsDatePattern(key) && key in store && store[key] >= 0.0 then store[key] else 0.0)
  {
    var key := Calendar.Format(d);
    ServerAnswerToRequest(d, store);
    var answer := LineProtocol.ProcesarComando(CapacityRequest(d), store).reply;
    assert ServerLink(store, showDouble, CapacityRequest(d)).line == Some(LineProtocol.Render(answer, showDouble));
    if Calendar.IsDatePattern(key) && key in store && store[key] >= 0.0 {
      CapacityReplyRoundTrip(store[key], showDouble, parseDouble);
    } else if Calendar.IsDatePattern(key) {
      RefusalReadsAsZero(LineProtocol.NoCapacity(key), showDouble, parseDouble);
    } else {
      RefusalReadsAsZero(LineProtocol.BadDate, showDouble, parseDouble);
    }
  }

  /**
   * Against the socket plant, at a port a socket accepts, a query reads the
   * stored figure for the day when there is a non-negative one (provided
   * the rendered figure reads back as itself); every other case (no entry,
   * a negative entry, a year the server's date check refuses) reads as 0,
   * which is also what a failed exchange reads as. A port out of range throws.
   */
  lemma GatewayAgainstServer(g: Gateway, d: Calendar.Date, store: CapacityStore.Store,
                             showDouble: real -> string, parseDouble: string -> Option<real>)
    requires var key := Calendar.Format(d);
             Calendar.IsDatePattern(key) && key in store && store[key] >= 0.0 ==>
               ShowsCleanly(showDouble, parseDouble, store[key])
    ensures var key := Calendar.Format(d);
            ConsultarCapacidadDisponible(g, Some(d), c => ServerLink(store, showDouble, c), parseDouble)
            == if !ValidPort(g.puerto) then Err(IllegalArgument(PortMessage(g.puerto)))
               else Ok(if Calendar.IsDatePattern(key) && key in store && store[key] >= 0.0 then store[key] else 0.0)
  {
    var send := c => ServerLink(store, showDouble, c);
    if ValidPort(g.puerto) {
      ServerReplyDecodes(d, store, showDouble, parseDouble);
      var reply := send(CapacityRequest(d)).line.value;
      assert send(CapacityRequest(d)) == Delivered(Some(reply));
      assert ConsultarCapacidadDisponible(g, Some(d), send, parseDouble)
             == ParsearRespuestaCapacidad(Some(reply), parseDouble);
    }
  }
}
