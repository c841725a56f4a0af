/**
 * The REST plant's assignment record (Asignacion): the four-state life
 * cycle, the constructor the service uses, and the state setter.
 */
module Assignment {
  import opened Wrappers
  import Calendar

  /** EstadoAsignacion: exactly these four states. */
  datatype EstadoAsignacion = Pendiente | Procesando | Completado | Rechazado

  /** Enum.name(): the constant's identifier. */
  function Name(e: EstadoAsignacion): string {
    match e
    case Pendiente => "PENDIENTE"
    case Procesando => "PROCESANDO"
    case Completado => "COMPLETADO"
    case Rechazado => "RECHAZADO"
  }

  /** Enum.valueOf: the constant whose name is exactly `name`; any other text is an IllegalArgumentException. */
  function ValueOf(name: string): (r: Option<EstadoAsignacion>)
    ensures r.Some? ==> Name(r.value) == name
    ensures r.None? <==> forall e: EstadoAsignacion :: Name(e) != name
  {
    if name == "PENDIENTE" then Some(Pendiente)
    else if name == "PROCESANDO" then Some(Procesando)
    else if name == "COMPLETADO" then Some(Completado)
    else if name == "RECHAZADO" then Some(Rechazado)
    else None
  }

  /** Every state is found again from its name. */
  lemma ValueOfName(e: EstadoAsignacion)
    ensures ValueOf(Name(e)) == Some(e)
  {
  }

  /** The states the service refuses to leave. */
  predicate IsTerminal(e: EstadoAsignacion) {
    e == Completado || e == Rechazado
  }

  /**
   * The note the service attaches when it decides on an assignment. The
   * source writes these as text with a date and doubles in them; the
   * renderings of those are not part of this model.
   */
  datatype Mensaje =
    | NoCapacityRegistered(fecha: Calendar.Date)
    | InsufficientCapacity(required: real, available: real)
    | Accepted

  /**
   * An assignment. `id` is None until the record is saved; the repository
   * gives it its position in the saved sequence. `recibidoEn` is the clock
   * reading at construction.
   */
  datatype Asignacion = Asignacion(
    id: Option<nat>,
    fecha: Calendar.Date,
    totalContenedores: int,
    totalEnvases: int,
    pesoEstimado: real,
    asignadoPor: string,
    recibidoEn: int,
    estado: EstadoAsignacion,
    contenedorIds: seq<string>,
    mensaje: Option<Mensaje>)

  /**
   * The six-argument constructor (after the no-argument one has stamped
   * the clock and set PENDIENTE): the arguments are stored as given, and a
   * null list of container ids becomes an empty list. Sequences are values,
   * so the stored list is already independent of the caller's.
   */
  function NuevaAsignacion(fecha: Calendar.Date, totalContenedores: int, totalEnvases: int,
                           pesoEstimado: real, asignadoPor: string,
                           contenedorIds: Option<seq<string>>, recibidoEn: int): (a: Asignacion)
    ensures a.estado == Pendiente && !IsTerminal(a.estado)
    ensures a.id.None? && a.mensaje.None? && a.recibidoEn == recibidoEn
    ensures a.fecha == fecha && a.totalContenedores == totalContenedores && a.totalEnvases == totalEnvases
    ensures a.pesoEstimado == pesoEstimado && a.asignadoPor == asignadoPor
    ensures contenedorIds.None? ==> a.contenedorIds == []
    ensures contenedorIds.Some? ==> a.contenedorIds == contenedorIds.value
  {
    Asignacion(None, fecha, totalContenedores, totalEnvases, pesoEstimado, asignadoPor, recibidoEn,
               Pendiente, if contenedorIds.Some? then contenedorIds.value else [], None)
  }

  /** setEstado: the state becomes `e` and every other field is kept. */
  function SetEstado(a: Asignacion, e: EstadoAsignacion): (r: Asignacion)
    ensures r.estado == e
    ensures r.(estado := a.estado) == a
  {
    a.(estado := e)
  }

  /** Setting the state twice keeps only the second, and setting the current state changes nothing. */
  lemma SetEstadoOverwrites(a: Asignacion, e1: EstadoAsignacion, e2: EstadoAsignacion)
    ensures SetEstado(SetEstado(a, e1), e2) == SetEstado(a, e2)
    ensures SetEstado(a, a.estado) == a
  {
  }
}
