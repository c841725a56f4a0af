/**
 * A container's fill reading (Estado): the three-level classification its
 * constructor computes from the fill fraction, and its identity — equality
 * on the reading's instant and the hash code that goes with it.
 */
module FillLevel {
  import JavaText
  import JavaHash

  /** The fill level: green up to 80 %, orange below 100 %, red otherwise. */
  datatype Nivel = Verde | Naranja | Rojo

  /** The constructor's classification of the fill fraction `cantidad`. */
  function Classify(cantidad: real): (n: Nivel)
    ensures n == Verde <==> 0.0 <= cantidad <= 0.8
    ensures n == Naranja <==> 0.8 < cantidad < 1.0
    ensures n == Rojo <==> cantidad < 0.0 || 1.0 <= cantidad
  {
    if 0.0 <= cantidad && cantidad <= 0.8 then Verde
    else if 0.8 < cantidad && cantidad < 1.0 then Naranja
    else Rojo
  }

  /** How full a level says the container is. */
  function Rank(n: Nivel): nat {
    match n
    case Verde => 0
    case Naranja => 1
    case Rojo => 2
  }

  /** Among readings that are not negative, a fuller container never gets a lower level. */
  lemma ClassifyMonotone(a: real, b: real)
    requires 0.0 <= a <= b
    ensures Rank(Classify(a)) <= Rank(Classify(b))
  {
  }

  /** Each level is reached: the boundaries 0.8 and 1.0 fall on the lower and the upper side respectively. */
  lemma ClassifyBoundaries()
    ensures Classify(0.0) == Verde && Classify(0.8) == Verde
    ensures Classify(0.9) == Naranja
    ensures Classify(1.0) == Rojo && Classify(-0.1) == Rojo
  {
  }

  /**
   * A reading. `fecha` is the instant (milliseconds since the epoch) and
   * `contenedor` the identifier of the container it belongs to.
   */
  datatype Estado = Estado(fecha: int, cantidad: real, contenedor: nat, llenado: Nivel)

  /** The three-argument constructor: stores its arguments and classifies the fraction. */
  function NuevoEstado(fecha: int, cantidad: real, contenedor: nat): (e: Estado)
    ensures e.fecha == fecha && e.cantidad == cantidad && e.contenedor == contenedor
    ensures e.llenado == Verde <==> 0.0 <= cantidad <= 0.8
    ensures e.llenado == Naranja <==> 0.8 < cantidad < 1.0
    ensures e.llenado == Rojo <==> cantidad < 0.0 || 1.0 <= cantidad
  {
    Estado(fecha, cantidad, contenedor, Classify(cantidad))
  }

  /** equals: two readings are equal when they were taken at the same instant. */
  predicate Equals(a: Estado, b: Estado) {
    a.fecha == b.fecha
  }

  /** Equality is an equivalence relation, and ignores everything but the instant. */
  lemma EqualsIsEquivalence(a: Estado, b: Estado, c: Estado)
    ensures Equals(a, a)
    ensures Equals(a, b) ==> Equals(b, a)
    ensures Equals(a, b) && Equals(b, c) ==> Equals(a, c)
    ensures Equals(a, b) <==> Equals(a.(cantidad := b.cantidad, contenedor := b.contenedor, llenado := b.llenado), b)
  {
  }

  /**
   * The hash codes the JVM gives the enum constants and the instants are
   * outside this model; they are parameters, and every value they give is
   * an `int`.
   */
  ghost predicate IntHashes(nivelHash: Nivel -> int, dateHash: int -> int) {
    (forall n :: JavaText.IsInt32(nivelHash(n))) && (forall t :: JavaText.IsInt32(dateHash(t)))
  }

  /** hashCode as written: Objects.hash over the level and the instant. */
  function HashCodeAsWritten(e: Estado, nivelHash: Nivel -> int, dateHash: int -> int): (h: int)
    ensures JavaText.IsInt32(h)
  {
    JavaHash.ObjectsHash([nivelHash(e.llenado), dateHash(e.fecha)])
  }

  /**
   * As written, the hash tells apart readings that `Equals` identifies:
   * for readings at the same instant it agrees exactly when the level's
   * hashes agree.
   */
  lemma HashAsWrittenSeesLevel(a: Estado, b: Estado, nivelHash: Nivel -> int, dateHash: int -> int)
    requires IntHashes(nivelHash, dateHash)
    requires Equals(a, b)
    ensures HashCodeAsWritten(a, nivelHash, dateHash) == HashCodeAsWritten(b, nivelHash, dateHash)
            <==> nivelHash(a.llenado) == nivelHash(b.llenado)
  {
    JavaHash.PairHashSeesFirst(nivelHash(a.llenado), nivelHash(b.llenado), dateHash(a.fecha));
  }

  /**
   * The concrete case: a half-full and a full reading of one container at
   * the same instant are equal, yet their hash codes differ whenever the
   * green and red constants hash differently.
   */
  lemma HashCodeBreaksEquals(fecha: int, contenedor: nat, nivelHash: Nivel -> int, dateHash: int -> int)
    requires IntHashes(nivelHash, dateHash)
    requires nivelHash(Verde) != nivelHash(Rojo)
    ensures var a, b := NuevoEstado(fecha, 0.5, contenedor), NuevoEstado(fecha, 1.0, contenedor);
            Equals(a, b) && HashCodeAsWritten(a, nivelHash, dateHash) != HashCodeAsWritten(b, nivelHash, dateHash)
  {
    var a, b := NuevoEstado(fecha, 0.5, contenedor), NuevoEstado(fecha, 1.0, contenedor);
    HashAsWrittenSeesLevel(a, b, nivelHash, dateHash);
  }

  /** hashCode as evidently intended: Objects.hash over the instant alone, the field `equals` compares. */
  function HashCode(e: Estado, dateHash: int -> int): (h: int)
    ensures JavaText.IsInt32(h)
  {
    JavaHash.ObjectsHash([dateHash(e.fecha)])
  }

  /** The corrected hash keeps the contract of hashCode: equal readings hash alike. */
  lemma HashCodeAgreesWithEquals(a: Estado, b: Estado, dateHash: int -> int)
    ensures Equals(a, b) ==> HashCode(a, dateHash) == HashCode(b, dateHash)
    ensures Equals(NuevoEstado(a.fecha, 0.5, a.contenedor), NuevoEstado(a.fecha, 1.0, a.contenedor))
    ensures HashCode(NuevoEstado(a.fecha, 0.5, a.contenedor), dateHash)
         == HashCode(NuevoEstado(a.fecha, 1.0, a.contenedor), dateHash)
  {
  }
}
