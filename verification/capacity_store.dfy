/**
 * The socket plant's in-memory capacity table (CapacidadService): remaining
 * capacity in tonnes keyed by the "dd-MM-yyyy" text of a day.
 */
module CapacityStore {

  type Store = map<string, real>

  /** What consultarCapacidad answers for a day with no entry. */
  const NotRegistered: real := -1.0

  /** consultarCapacidad: the stored figure, or -1 for a day with no entry. */
  function ConsultarCapacidad(s: Store, fecha: string): (r: real)
    ensures fecha in s ==> r == s[fecha]
    ensures fecha !in s ==> r == NotRegistered
  {
    if fecha in s then s[fecha] else NotRegistered
  }

  /** What reducirCapacidad returns (its boolean) together with the table it leaves. */
  datatype Reduction = Reduction(done: bool, store: Store)

  /**
   * reducirCapacidad: succeeds exactly when the day has an entry holding at
   * least `amount`, and then stores the difference; there is no lower bound
   * on `amount`, so a negative amount raises the figure.
   */
  function ReducirCapacidad(s: Store, fecha: string, amount: real): (r: Reduction)
    ensures r.done <==> fecha in s && amount <= s[fecha]
    ensures !r.done ==> r.store == s
    ensures r.done ==> r.store.Keys == s.Keys
    ensures r.done ==> r.store[fecha] == s[fecha] - amount && r.store[fecha] >= 0.0
    ensures forall k :: k in s && k != fecha ==> k in r.store && r.store[k] == s[k]
  {
    if fecha !in s then Reduction(false, s)
    else if s[fecha] < amount then Reduction(false, s)
    else Reduction(true, s[fecha := s[fecha] - amount])
  }

  /** Every figure in the table is non-negative. */
  predicate NonNegative(s: Store) {
    forall k :: k in s ==> s[k] >= 0.0
  }

  /** A reduction never drives a figure below zero, whatever the amount. */
  lemma ReductionKeepsNonNegative(s: Store, fecha: string, amount: real)
    requires NonNegative(s)
    ensures NonNegative(ReducirCapacidad(s, fecha, amount).store)
  {
  }

  /** After a successful reduction the query answers the old figure minus the amount. */
  lemma QueryAfterReduction(s: Store, fecha: string, amount: real, other: string)
    requires ReducirCapacidad(s, fecha, amount).done
    ensures ConsultarCapacidad(ReducirCapacidad(s, fecha, amount).store, fecha)
            == ConsultarCapacidad(s, fecha) - amount
    ensures other != fecha ==>
              ConsultarCapacidad(ReducirCapacidad(s, fecha, amount).store, other) == ConsultarCapacidad(s, other)
  {
  }

  // ---------------------------------------------------------------------
  // A run of reservations against one day, applied one after the other
  // ---------------------------------------------------------------------

  function Sum(xs: seq<real>): real {
    if xs == [] then 0.0 else Sum(xs[..|xs| - 1]) + xs[|xs| - 1]
  }

  /** The table after the reductions, and the amounts that were granted, in order. */
  datatype Run = Run(store: Store, granted: seq<real>)

  function ReduceAll(s: Store, fecha: string, amounts: seq<real>): Run
  {
    if amounts == [] then Run(s, [])
    else
      var before := ReduceAll(s, fecha, amounts[..|amounts| - 1]);
      var step := ReducirCapacidad(before.store, fecha, amounts[|amounts| - 1]);
      Run(step.store, if step.done then before.granted + [amounts[|amounts| - 1]] else before.granted)
  }

  /**
   * Applied one at a time, reductions never over-commit a day: the granted
   * amounts add up to exactly what the figure lost, and never to more than
   * the figure held at the start.
   */
  lemma {:induction false} NoOverReservation(s: Store, fecha: string, amounts: seq<real>)
    requires fecha in s && s[fecha] >= 0.0
    ensures var run := ReduceAll(s, fecha, amounts);
            && fecha in run.store
            && run.store[fecha] == s[fecha] - Sum(run.granted)
            && run.store[fecha] >= 0.0
            && Sum(run.granted) <= s[fecha]
  {
    if amounts != [] {
      var prefix := amounts[..|amounts| - 1];
      NoOverReservation(s, fecha, prefix);
      var before := ReduceAll(s, fecha, prefix);
      var a := amounts[|amounts| - 1];
      if ReducirCapacidad(before.store, fecha, a).done {
        var g := before.granted + [a];
        assert g[..|g| - 1] == before.granted;
      }
    }
  }

  // ---------------------------------------------------------------------
  // Seeding the table (inicializarCapacidades)
  // ---------------------------------------------------------------------

  /** Math.round(x * 100.0) / 100.0: Math.round is floor(x + 0.5). */
  function RoundToCents(x: real): real {
    (x * 100.0 + 0.5).Floor as real / 100.0
  }

  /** The seeded figure for a Math.random() draw: 80 + draw * 70, rounded to two decimals. */
  function SeedFigure(draw: real): real {
    RoundToCents(80.0 + draw * 70.0)
  }

  lemma SeedFigureRange(draw: real)
    requires 0.0 <= draw < 1.0
    ensures 80.0 <= SeedFigure(draw) <= 150.0
  {
    var x := (80.0 + draw * 70.0) * 100.0 + 0.5;
    assert 8000.5 <= x < 15000.5;
    assert 8000 <= x.Floor <= 15000;
  }

  /** The number of days seeded at start-up. */
  const SeedDays: nat := 10

  /** No later slot before `upTo` repeats the day text of slot `j`. */
  predicate LastOccurrence(fechas: seq<string>, j: nat, upTo: nat)
    requires j < upTo <= |fechas|
  {
    forall m :: j < m < upTo ==> fechas[m] != fechas[j]
  }

  /** What the first `i` rounds of the seeding loop have established about `s`. */
  predicate Seeded(fechas: seq<string>, draws: seq<real>, s: Store, i: nat)
    requires i <= |fechas| == |draws|
  {
    && (forall j :: 0 <= j < i ==> fechas[j] in s)
    && (forall k :: k in s ==> k in fechas[..i])
    && (forall k :: k in s ==> 80.0 <= s[k] <= 150.0)
    && (forall j :: 0 <= j < i && LastOccurrence(fechas, j, i) ==> s[fechas[j]] == SeedFigure(draws[j]))
  }

  /** One round of the seeding loop keeps what the earlier rounds established. */
  lemma {:induction false} SeedStep(fechas: seq<string>, draws: seq<real>, s: Store, i: nat)
    requires i < |fechas| == |draws|
    requires 0.0 <= draws[i] < 1.0
    requires Seeded(fechas, draws, s, i)
    ensures Seeded(fechas, draws, s[fechas[i] := SeedFigure(draws[i])], i + 1)
  {
    var t := s[fechas[i] := SeedFigure(draws[i])];
    SeedFigureRange(draws[i]);
    assert fechas[..i + 1] == fechas[..i] + [fechas[i]];
    forall k | k in t
      ensures k in fechas[..i + 1] && 80.0 <= t[k] <= 150.0
    {
      if k != fechas[i] {
        assert k in s;
      }
    }
    forall j | 0 <= j < i + 1 && LastOccurrence(fechas, j, i + 1)
      ensures t[fechas[j]] == SeedFigure(draws[j])
    {
      if j < i {
        assert fechas[i] != fechas[j];
        assert LastOccurrence(fechas, j, i);
      }
    }
  }

  /**
   * inicializarCapacidades, with the formatted day texts and the
   * Math.random() draws injected: one entry per day text, each figure in
   * [80, 150]; when a day text is repeated the later draw wins.
   */
  method InicializarCapacidades(fechas: seq<string>, draws: seq<real>) returns (s: Store)
    requires |fechas| == SeedDays && |draws| == SeedDays
    requires forall i :: 0 <= i < |draws| ==> 0.0 <= draws[i] < 1.0
    ensures forall i :: 0 <= i < |fechas| ==> fechas[i] in s
    ensures forall k :: k in s ==> k in fechas
    ensures forall k :: k in s ==> 80.0 <= s[k] <= 150.0
    ensures forall i :: 0 <= i < |fechas| && LastOccurrence(fechas, i, |fechas|) ==> s[fechas[i]] == SeedFigure(draws[i])
  {
    s := map[];
    var i := 0;
    while i < SeedDays
      invariant 0 <= i <= SeedDays
      invariant Seeded(fechas, draws, s, i)
    {
      SeedStep(fechas, draws, s, i);
      s := s[fechas[i] := SeedFigure(draws[i])];
      i := i + 1;
    }
    assert fechas[..i] == fechas;
  }
}
