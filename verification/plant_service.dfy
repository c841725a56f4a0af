/**
 * The REST plant's bookkeeping (PlasSbService): one capacity record per
 * day and the saved assignments, with the two repositories as a map and a
 * sequence. Every operation returns the new state and its result, or the
 * exception it throws, in which case nothing is saved.
 */
module PlantService {
  import opened Wrappers
  import opened JavaText
  import Calendar
  import opened Assignment

  /**
   * A day's capacity record. The entity as written holds only `fecha` and
   * `peso`; the service also reads and writes a used weight, kept here as
   * `pesoUsado`.
   */
  datatype Capacidad = Capacidad(fecha: Calendar.Date, peso: real, pesoUsado: real)

  /**
   * The three Capacidad methods the service calls whose definitions are not
   * part of this model: puedeAcomodar, agregarPesoUsado, getPesoDisponible.
   */
  datatype CapacityRules = CapacityRules(
    puedeAcomodar: (Capacidad, real) -> bool,
    agregarPesoUsado: (Capacidad, real) -> Capacidad,
    pesoDisponible: Capacidad -> real)

  /**
   * The reading of those methods that the service's own checks suggest:
   * what is available is the capacity less what is used, a weight fits when
   * it is at most what is available, and accepting it adds it to the used
   * weight.
   */
  const AssumedRules: CapacityRules := CapacityRules(
    (c: Capacidad, w: real) => w <= c.peso - c.pesoUsado,
    (c: Capacidad, w: real) => c.(pesoUsado := c.pesoUsado + w),
    (c: Capacidad) => c.peso - c.pesoUsado)

  /** The two repositories. */
  datatype Plant = Plant(capacidades: map<Calendar.Date, Capacidad>, asignaciones: seq<Asignacion>)

  /** The exceptions the service throws. */
  datatype Failure =
    | NonPositiveCapacity                     // IllegalArgumentException
    | BelowUsed(capacidad: real, usado: real) // IllegalArgumentException
    | InvalidAssignment                       // IllegalArgumentException
    | InvalidState(name: string)              // IllegalArgumentException
    | NotFound(id: nat)                       // IllegalArgumentException
    | RejectedIsFinal                         // IllegalStateException
    | CompletedIsFinal                        // IllegalStateException

  datatype Registered = Registered(plant: Plant, capacidad: Capacidad)
  datatype Saved = Saved(plant: Plant, asignacion: Asignacion)

  const Empty: Plant := Plant(map[], [])

  // ---------------------------------------------------------------------
  // Capacity
  // ---------------------------------------------------------------------

  /** get_capacidad_fecha: the registered capacity of the day, 0 when there is none. */
  function GetCapacidadFecha(p: Plant, fecha: Calendar.Date): (r: real)
    ensures fecha !in p.capacidades ==> r == 0.0
  {
    if fecha in p.capacidades then p.capacidades[fecha].peso else 0.0
  }

  /**
   * registrarCapacidad: a capacity must be positive; on a day that already
   * has a record it may not drop below the weight already used, and only
   * the capacity changes; a new day gets a fresh record.
   */
  function RegistrarCapacidad(p: Plant, fecha: Calendar.Date, capacidad: real): (r: Result<Registered, Failure>)
    ensures capacidad <= 0.0 ==> r == Err(NonPositiveCapacity)
    ensures capacidad > 0.0 && fecha in p.capacidades && capacidad < p.capacidades[fecha].pesoUsado ==>
              r == Err(BelowUsed(capacidad, p.capacidades[fecha].pesoUsado))
    ensures r.Ok? <==> capacidad > 0.0 && (fecha in p.capacidades ==> capacidad >= p.capacidades[fecha].pesoUsado)
    ensures r.Ok? ==>
              && r.value.capacidad.peso == capacidad
              && r.value.capacidad.pesoUsado == (if fecha in p.capacidades then p.capacidades[fecha].pesoUsado else 0.0)
              && r.value.plant == Plant(p.capacidades[fecha := r.value.capacidad], p.asignaciones)
  {
    if capacidad <= 0.0 then Err(NonPositiveCapacity)
    else if fecha in p.capacidades then
      var existente := p.capacidades[fecha];
      if capacidad < existente.pesoUsado then Err(BelowUsed(capacidad, existente.pesoUsado))
      else
        var c := existente.(peso := capacidad);
        Ok(Registered(Plant(p.capacidades[fecha := c], p.asignaciones), c))
    else
      var c := Capacidad(fecha, capacidad, 0.0);
      Ok(Registered(Plant(p.capacidades[fecha := c], p.asignaciones), c))
  }

  /** A registered capacity is what get_capacidad_fecha then reads, and the other days read as before. */
  lemma RegisteredCapacityIsRead(p: Plant, fecha: Calendar.Date, capacidad: real, other: Calendar.Date)
    requires RegistrarCapacidad(p, fecha, capacidad).Ok?
    ensures GetCapacidadFecha(RegistrarCapacidad(p, fecha, capacidad).value.plant, fecha) == capacidad
    ensures other != fecha ==>
              GetCapacidadFecha(RegistrarCapacidad(p, fecha, capacidad).value.plant, other) == GetCapacidadFecha(p, other)
  {
  }

  // ---------------------------------------------------------------------
  // Assignments
  // ---------------------------------------------------------------------

  /** The record as the repository saves it: it gets its position as its id. */
  function SaveNew(p: Plant, a: Asignacion): (q: Plant)
    ensures q.asignaciones == p.asignaciones + [a.(id := Some(|p.asignaciones|))]
    ensures q.capacidades == p.capacidades
  {
    Plant(p.capacidades, p.asignaciones + [a.(id := Some(|p.asignaciones|))])
  }

  /**
   * recibirAsignacion: invalid totals or weight throw and nothing is saved;
   * otherwise the assignment is always saved, as RECHAZADO when the day has
   * no capacity record or the weight does not fit (capacity untouched), and
   * in its initial state with the weight added to the day's used weight
   * when it fits.
   */
  function RecibirAsignacion(p: Plant, rules: CapacityRules, fecha: Calendar.Date,
                             totalContenedores: int, totalEnvases: int, pesoEstimado: real,
                             asignadoPor: string, contenedorIds: Option<seq<string>>, recibidoEn: int)
    : (r: Result<Saved, Failure>)
    ensures r.Err? <==> totalContenedores <= 0 || totalEnvases < 0 || pesoEstimado < 0.0
    ensures r.Err? ==> r.error == InvalidAssignment
    ensures r.Ok? ==>
              var a := r.value.asignacion;
              && r.value.plant.asignaciones == p.asignaciones + [a]
              && a.id == Some(|p.asignaciones|)
              && a.fecha == fecha && a.pesoEstimado == pesoEstimado && a.recibidoEn == recibidoEn
              && a.totalContenedores == totalContenedores && a.totalEnvases == totalEnvases
              && a.asignadoPor == asignadoPor
              && a.contenedorIds == (if contenedorIds.Some? then contenedorIds.value else [])
              && (fecha !in p.capacidades ==> a.mensaje == Some(NoCapacityRegistered(fecha)))
              && (fecha in p.capacidades && !rules.puedeAcomodar(p.capacidades[fecha], pesoEstimado) ==>
                    a.mensaje == Some(InsufficientCapacity(pesoEstimado, rules.pesoDisponible(p.capacidades[fecha]))))
              && (a.estado == Rechazado <==>
                    fecha !in p.capacidades || !rules.puedeAcomodar(p.capacidades[fecha], pesoEstimado))
              && (a.estado == Rechazado ==> r.value.plant.capacidades == p.capacidades)
              && (a.estado != Rechazado ==>
                    && a.estado == Pendiente && a.mensaje == Some(Accepted)
                    && r.value.plant.capacidades
                       == p.capacidades[fecha := rules.agregarPesoUsado(p.capacidades[fecha], pesoEstimado)])
  {
    if totalContenedores <= 0 || totalEnvases < 0 || pesoEstimado < 0.0 then Err(InvalidAssignment)
    else
      var asignacion := NuevaAsignacion(fecha, totalContenedores, totalEnvases, pesoEstimado,
                                        asignadoPor, contenedorIds, recibidoEn);
      if fecha !in p.capacidades then
        var a := SetEstado(asignacion, Rechazado).(mensaje := Some(NoCapacityRegistered(fecha)));
        var q := SaveNew(p, a);
        Ok(Saved(q, q.asignaciones[|p.asignaciones|]))
      else
        var capacidad := p.capacidades[fecha];
        if !rules.puedeAcomodar(capacidad, pesoEstimado) then
          var a := SetEstado(asignacion, Rechazado)
                     .(mensaje := Some(InsufficientCapacity(pesoEstimado, rules.pesoDisponible(capacidad))));
          var q := SaveNew(p, a);
          Ok(Saved(q, q.asignaciones[|p.asignaciones|]))
        else
          var a := asignacion.(mensaje := Some(Accepted));
          var q := SaveNew(Plant(p.capacidades[fecha := rules.agregarPesoUsado(capacidad, pesoEstimado)], p.asignaciones), a);
          Ok(Saved(q, q.asignaciones[|p.asignaciones|]))
  }

  // ---------------------------------------------------------------------
  // Listing
  // ---------------------------------------------------------------------

  /** The optional state filter: a null or empty text means none; any other text must name a state once upper-cased. */
  function EstadoFilter(estadoStr: Option<string>): (r: Result<Option<EstadoAsignacion>, Failure>)
    ensures r.Err? <==> estadoStr.Some? && estadoStr.value != [] && ValueOf(ToUpper(estadoStr.value)).None?
    ensures r.Err? ==> r.error == InvalidState(estadoStr.value)
    ensures r.Ok? && r.value.Some? ==> estadoStr.Some? && Name(r.value.value) == ToUpper(estadoStr.value)
    ensures r.Ok? && r.value.None? ==> estadoStr.None? || estadoStr.value == []
  {
    if estadoStr.None? || estadoStr.value == [] then Ok(None)
    else
      match ValueOf(ToUpper(estadoStr.value))
      case None => Err(InvalidState(estadoStr.value))
      case Some(e) => Ok(Some(e))
  }

  /** Whether an assignment passes the given day and state filters. */
  predicate Matches(a: Asignacion, fecha: Option<Calendar.Date>, estado: Option<EstadoAsignacion>) {
    (fecha.None? || a.fecha == fecha.value) && (estado.None? || a.estado == estado.value)
  }

  /** The matching assignments, in repository order, each as often as it is stored. */
  function Select(s: seq<Asignacion>, fecha: Option<Calendar.Date>, estado: Option<EstadoAsignacion>)
    : (r: seq<Asignacion>)
    ensures forall a :: multiset(r)[a] == if Matches(a, fecha, estado) then multiset(s)[a] else 0
  {
    if s == [] then []
    else
      assert s == [s[0]] + s[1..];
      (if Matches(s[0], fecha, estado) then [s[0]] else []) + Select(s[1..], fecha, estado)
  }

  /** Newest first (ORDER BY recibidoEn DESC). */
  predicate NewestFirst(s: seq<Asignacion>) {
    forall i, j :: 0 <= i < j < |s| ==> s[i].recibidoEn >= s[j].recibidoEn
  }

  /** `a` inserted ahead of the first assignment received no later than it. */
  function InsertByRecibido(a: Asignacion, s: seq<Asignacion>): (r: seq<Asignacion>)
    ensures |r| == |s| + 1
    ensures r[0] == a || (s != [] && r[0] == s[0])
    ensures multiset(r) == multiset(s) + multiset{a}
  {
    if s == [] || a.recibidoEn >= s[0].recibidoEn then [a] + s
    else
      assert s == [s[0]] + s[1..];
      [s[0]] + InsertByRecibido(a, s[1..])
  }

  /** Inserting into a newest-first sequence keeps it newest first. */
  lemma {:induction false} InsertKeepsNewestFirst(a: Asignacion, s: seq<Asignacion>)
    requires NewestFirst(s)
    ensures NewestFirst(InsertByRecibido(a, s))
  {
    if s != [] && a.recibidoEn < s[0].recibidoEn {
      var rest := InsertByRecibido(a, s[1..]);
      InsertKeepsNewestFirst(a, s[1..]);
      var r := [s[0]] + rest;
      assert r == InsertByRecibido(a, s);
      assert rest[0].recibidoEn <= s[0].recibidoEn by {
        if rest[0] != a {
          assert rest[0] == s[1..][0] == s[1];
        }
      }
      forall i, j | 0 <= i < j < |r| ensures r[i].recibidoEn >= r[j].recibidoEn {
        if i == 0 {
          assert rest[0].recibidoEn >= rest[j - 1].recibidoEn;
        } else {
          assert r[i] == rest[i - 1] && r[j] == rest[j - 1];
        }
      }
    }
  }

  /** The assignments reordered newest first. */
  function SortNewestFirst(s: seq<Asignacion>): (r: seq<Asignacion>)
    ensures NewestFirst(r)
    ensures multiset(r) == multiset(s)
  {
    if s == [] then []
    else
      assert s == [s[0]] + s[1..];
      InsertKeepsNewestFirst(s[0], SortNewestFirst(s[1..]));
      InsertByRecibido(s[0], SortNewestFirst(s[1..]))
  }

  /**
   * listarAsignaciones: an unknown state name throws; otherwise exactly the
   * assignments on the given day and in the given state, either filter
   * being optional. The queries without a state filter return them newest
   * first; the ones with a state filter keep the repository's order.
   */
  function ListarAsignaciones(p: Plant, fecha: Option<Calendar.Date>, estadoStr: Option<string>)
    : (r: Result<seq<Asignacion>, Failure>)
    ensures r.Err? <==> EstadoFilter(estadoStr).Err?
    ensures r.Err? ==> r.error == InvalidState(estadoStr.value)
    ensures r.Ok? ==>
              forall a :: multiset(r.value)[a]
                          == if Matches(a, fecha, EstadoFilter(estadoStr).value) then multiset(p.asignaciones)[a] else 0
    ensures r.Ok? && EstadoFilter(estadoStr).value.None? ==> NewestFirst(r.value)
  {
    match EstadoFilter(estadoStr)
    case Err(f) => Err(f)
    case Ok(estado) =>
      var selected := Select(p.asignaciones, fecha, estado);
      if estado.None? then Ok(SortNewestFirst(selected)) else Ok(selected)
  }

  /** With neither filter every stored assignment is listed. */
  lemma ListAllIsEverything(p: Plant, a: Asignacion)
    ensures ListarAsignaciones(p, None, None).Ok?
    ensures a in ListarAsignaciones(p, None, None).value <==> a in p.asignaciones
  {
    var r := ListarAsignaciones(p, None, None).value;
    assert multiset(r)[a] == multiset(p.asignaciones)[a];
  }

  // ---------------------------------------------------------------------
  // State changes
  // ---------------------------------------------------------------------

  /**
   * actualizarEstadoAsignacion: the id must exist, then the new state's
   * name must be valid, then the current state must not be RECHAZADO or
   * COMPLETADO; only the state of that one assignment changes.
   */
  function ActualizarEstadoAsignacion(p: Plant, id: nat, nuevoEstadoStr: string): (r: Result<Saved, Failure>)
    ensures id >= |p.asignaciones| ==> r == Err(NotFound(id))
    ensures id < |p.asignaciones| && ValueOf(ToUpper(nuevoEstadoStr)).None? ==> r == Err(InvalidState(nuevoEstadoStr))
    ensures id < |p.asignaciones| && ValueOf(ToUpper(nuevoEstadoStr)).Some? ==>
              && (p.asignaciones[id].estado == Rechazado ==> r == Err(RejectedIsFinal))
              && (p.asignaciones[id].estado == Completado ==> r == Err(CompletedIsFinal))
    ensures r.Ok? <==> id < |p.asignaciones| && ValueOf(ToUpper(nuevoEstadoStr)).Some?
                       && !IsTerminal(p.asignaciones[id].estado)
    ensures r.Ok? ==>
              && r.value.asignacion == SetEstado(p.asignaciones[id], ValueOf(ToUpper(nuevoEstadoStr)).value)
              && r.value.plant == Plant(p.capacidades, p.asignaciones[id := r.value.asignacion])
  {
    if id >= |p.asignaciones| then Err(NotFound(id))
    else
      var asignacion := p.asignaciones[id];
      match ValueOf(ToUpper(nuevoEstadoStr))
      case None => Err(InvalidState(nuevoEstadoStr))
      case Some(nuevoEstado) =>
        if asignacion.estado == Rechazado then Err(RejectedIsFinal)
        else if asignacion.estado == Completado then Err(CompletedIsFinal)
        else
          var a := SetEstado(asignacion, nuevoEstado);
          Ok(Saved(Plant(p.capacidades, p.asignaciones[id := a]), a))
  }

  /** A sequence of state-change requests; a refused one leaves the state as it was. */
  function ApplyUpdates(p: Plant, updates: seq<(nat, string)>): (q: Plant)
    ensures q.capacidades == p.capacidades
    ensures |q.asignaciones| == |p.asignaciones|
    decreases |updates|
  {
    if updates == [] then p
    else
      var next := match ActualizarEstadoAsignacion(p, updates[0].0, updates[0].1)
                  case Ok(saved) => saved.plant
                  case Err(_) => p;
      ApplyUpdates(next, updates[1..])
  }

  /** RECHAZADO and COMPLETADO are final: no sequence of requests changes such an assignment in any way. */
  lemma {:induction false} TerminalIsFinal(p: Plant, updates: seq<(nat, string)>, i: nat)
    requires i < |p.asignaciones| && IsTerminal(p.asignaciones[i].estado)
    ensures ApplyUpdates(p, updates).asignaciones[i] == p.asignaciones[i]
    decreases |updates|
  {
    if updates != [] {
      var r := ActualizarEstadoAsignacion(p, updates[0].0, updates[0].1);
      var next := if r.Ok? then r.value.plant else p;
      assert next.asignaciones[i] == p.asignaciones[i];
      TerminalIsFinal(next, updates[1..], i);
    }
  }

  /** A non-final assignment can be moved to any state, including back to PENDIENTE. */
  lemma AnyMoveFromOpenState(p: Plant, id: nat, e: EstadoAsignacion)
    requires id < |p.asignaciones| && !IsTerminal(p.asignaciones[id].estado)
    ensures ActualizarEstadoAsignacion(p, id, Name(e)).Ok?
    ensures ActualizarEstadoAsignacion(p, id, Name(e)).value.asignacion.estado == e
  {
    var n := Name(e);
    assert ToUpper(n) == n by {
      forall k | 0 <= k < |n| ensures ToUpper(n)[k] == n[k] {
        assert 'A' <= n[k] <= 'Z';
      }
    }
    ValueOfName(e);
  }

  // ---------------------------------------------------------------------
  // Invariants, under the assumed capacity rules
  // ---------------------------------------------------------------------

  /** Each record sits under its own day with 0 <= used <= capacity, and each saved assignment's id is its position. */
  predicate Valid(p: Plant) {
    && (forall d :: d in p.capacidades ==>
          p.capacidades[d].fecha == d && 0.0 <= p.capacidades[d].pesoUsado <= p.capacidades[d].peso)
    && (forall i :: 0 <= i < |p.asignaciones| ==> p.asignaciones[i].id == Some(i))
  }

  /** The weight of the assignments for day `d` that were accepted when received. */
  function AcceptedWeight(s: seq<Asignacion>, d: Calendar.Date): real {
    if s == [] then 0.0
    else
      var a := s[|s| - 1];
      AcceptedWeight(s[..|s| - 1], d) + (if a.fecha == d && a.mensaje == Some(Accepted) then a.pesoEstimado else 0.0)
  }

  /** The used weight of every day is the weight accepted for it; a day with no record has none accepted. */
  ghost predicate UsedIsAccepted(p: Plant) {
    forall d :: AcceptedWeight(p.asignaciones, d) == if d in p.capacidades then p.capacidades[d].pesoUsado else 0.0
  }

  lemma EmptyPlantIsValid()
    ensures Valid(Empty) && UsedIsAccepted(Empty)
  {
  }

  lemma {:induction false} AcceptedWeightAppend(s: seq<Asignacion>, a: Asignacion, d: Calendar.Date)
    ensures AcceptedWeight(s + [a], d)
            == AcceptedWeight(s, d) + (if a.fecha == d && a.mensaje == Some(Accepted) then a.pesoEstimado else 0.0)
  {
    assert (s + [a])[..|s|] == s;
  }

  /** Replacing an assignment by one with the same day, weight and note keeps every day's accepted weight. */
  lemma {:induction false} AcceptedWeightUpdate(s: seq<Asignacion>, i: nat, b: Asignacion, d: Calendar.Date)
    requires i < |s| && b.fecha == s[i].fecha && b.pesoEstimado == s[i].pesoEstimado && b.mensaje == s[i].mensaje
    ensures AcceptedWeight(s[i := b], d) == AcceptedWeight(s, d)
  {
    var t := s[i := b];
    if i < |s| - 1 {
      assert t[..|t| - 1] == s[..|s| - 1][i := b];
      AcceptedWeightUpdate(s[..|s| - 1], i, b, d);
    } else {
      assert t[..|t| - 1] == s[..|s| - 1];
    }
  }

  /** Registering a capacity keeps both invariants. */
  lemma RegistrarKeepsInvariants(p: Plant, fecha: Calendar.Date, capacidad: real)
    requires Valid(p) && UsedIsAccepted(p)
    requires RegistrarCapacidad(p, fecha, capacidad).Ok?
    ensures Valid(RegistrarCapacidad(p, fecha, capacidad).value.plant)
    ensures UsedIsAccepted(RegistrarCapacidad(p, fecha, capacidad).value.plant)
  {
    var q := RegistrarCapacidad(p, fecha, capacidad).value.plant;
    forall d ensures AcceptedWeight(q.asignaciones, d) == if d in q.capacidades then q.capacidades[d].pesoUsado else 0.0 {
      assert AcceptedWeight(p.asignaciones, d) == if d in p.capacidades then p.capacidades[d].pesoUsado else 0.0;
    }
  }

  /** Receiving an assignment under the assumed rules keeps both invariants: accepted weight never exceeds capacity. */
  lemma RecibirKeepsInvariants(p: Plant, fecha: Calendar.Date, totalContenedores: int, totalEnvases: int,
                               pesoEstimado: real, asignadoPor: string, contenedorIds: Option<seq<string>>,
                               recibidoEn: int)
    requires Valid(p) && UsedIsAccepted(p)
    requires RecibirAsignacion(p, AssumedRules, fecha, totalContenedores, totalEnvases, pesoEstimado,
                               asignadoPor, contenedorIds, recibidoEn).Ok?
    ensures var q := RecibirAsignacion(p, AssumedRules, fecha, totalContenedores, totalEnvases, pesoEstimado,
                                       asignadoPor, contenedorIds, recibidoEn).value.plant;
            Valid(q) && UsedIsAccepted(q)
  {
    var saved := RecibirAsignacion(p, AssumedRules, fecha, totalContenedores, totalEnvases, pesoEstimado,
                                   asignadoPor, contenedorIds, recibidoEn).value;
    var q, a := saved.plant, saved.asignacion;
    forall d ensures AcceptedWeight(q.asignaciones, d) == if d in q.capacidades then q.capacidades[d].pesoUsado else 0.0 {
      AcceptedWeightAppend(p.asignaciones, a, d);
      assert AcceptedWeight(p.asignaciones, d) == if d in p.capacidades then p.capacidades[d].pesoUsado else 0.0;
    }
    forall i | 0 <= i < |q.asignaciones| ensures q.asignaciones[i].id == Some(i) {
      if i < |p.asignaciones| {
        assert q.asignaciones[i] == p.asignaciones[i];
      }
    }
  }

  /** Changing a state keeps both invariants: the weight of an accepted assignment stays counted whatever its state becomes. */
  lemma ActualizarKeepsInvariants(p: Plant, id: nat, nuevoEstadoStr: string)
    requires Valid(p) && UsedIsAccepted(p)
    requires ActualizarEstadoAsignacion(p, id, nuevoEstadoStr).Ok?
    ensures Valid(ActualizarEstadoAsignacion(p, id, nuevoEstadoStr).value.plant)
    ensures UsedIsAccepted(ActualizarEstadoAsignacion(p, id, nuevoEstadoStr).value.plant)
  {
    var saved := ActualizarEstadoAsignacion(p, id, nuevoEstadoStr).value;
    var q := saved.plant;
    forall d ensures AcceptedWeight(q.asignaciones, d) == if d in q.capacidades then q.capacidades[d].pesoUsado else 0.0 {
      AcceptedWeightUpdate(p.asignaciones, id, saved.asignacion, d);
      assert AcceptedWeight(p.asignaciones, d) == if d in p.capacidades then p.capacidades[d].pesoUsado else 0.0;
    }
  }
}
