/**
 * Java's 32-bit hash arithmetic: `int` wrap-around, `Objects.hash` (the
 * polynomial 31·h + x over the argument hashes, starting from 1) and
 * `String.hashCode` (the same polynomial over the characters, starting
 * from 0).
 */
module JavaHash {
  import JavaText

  const TwoTo31: int := 0x8000_0000
  const TwoTo32: int := 0x1_0000_0000

  /** The `int` a Java expression yields: the mathematical value reduced into [-2^31, 2^31). */
  function Wrap32(x: int): (r: int)
    ensures JavaText.IsInt32(r)
    ensures (x - r) % TwoTo32 == 0
  {
    (x + TwoTo31) % TwoTo32 - TwoTo31
  }

  /** Wrapping loses exactly the multiples of 2^32: two values wrap alike iff they differ by a multiple of 2^32. */
  lemma WrapEqualIff(u: int, v: int)
    ensures Wrap32(u) == Wrap32(v) <==> (u - v) % TwoTo32 == 0
  {
    var a, b := u + TwoTo31, v + TwoTo31;
    assert a - b == u - v;
    assert a == TwoTo32 * (a / TwoTo32) + a % TwoTo32;
    assert b == TwoTo32 * (b / TwoTo32) + b % TwoTo32;
    if (u - v) % TwoTo32 == 0 {
      var k := (u - v) / TwoTo32;
      assert a == b + TwoTo32 * k;
      ModShift(b, k);
    } else if a % TwoTo32 == b % TwoTo32 {
      assert a - b == TwoTo32 * (a / TwoTo32 - b / TwoTo32);
      ModOfMultiple(a / TwoTo32 - b / TwoTo32);
      assert false;
    }
  }

  lemma ModShift(b: int, k: int)
    ensures (b + TwoTo32 * k) % TwoTo32 == b % TwoTo32
  {
  }

  lemma ModOfMultiple(k: int)
    ensures (TwoTo32 * k) % TwoTo32 == 0
  {
  }

  /** A Java `int` value is its own wrap. */
  lemma WrapOfInt32(x: int)
    requires JavaText.IsInt32(x)
    ensures Wrap32(x) == x
  {
  }

  /**
   * Multiplying by 31 loses nothing on `int`s: 31 is odd, so it has an
   * inverse modulo 2^32 (3186588639, since 31 · 3186588639 = 1 + 23 · 2^32).
   */
  lemma {:induction false} Times31Cancels(x: int, y: int)
    requires JavaText.IsInt32(x) && JavaText.IsInt32(y)
    requires (31 * (x - y)) % TwoTo32 == 0
    ensures x == y
  {
    var z := x - y;
    var q := (31 * z) / TwoTo32;
    assert 31 * z == TwoTo32 * q;
    var inv := 3186588639;
    assert inv * 31 == 1 + 23 * TwoTo32;
    calc {
      z;
      (inv * 31 - 23 * TwoTo32) * z;
      inv * (31 * z) - 23 * TwoTo32 * z;
      inv * (TwoTo32 * q) - 23 * TwoTo32 * z;
      TwoTo32 * (inv * q - 23 * z);
    }
    assert -TwoTo32 < z < TwoTo32;
  }

  /** Objects.hash over the argument hashes (a null argument contributes 0). */
  function ObjectsHash(hs: seq<int>): (r: int)
    ensures JavaText.IsInt32(r)
  {
    if hs == [] then 1 else Wrap32(31 * ObjectsHash(hs[..|hs| - 1]) + hs[|hs| - 1])
  }

  /**
   * One step of the polynomial is injective in the accumulated hash: when
   * the last argument hashes agree, the whole hashes agree exactly when the
   * earlier ones do.
   */
  lemma {:induction false} StepInjective(x: int, y: int, h: int)
    requires JavaText.IsInt32(x) && JavaText.IsInt32(y)
    ensures Wrap32(31 * x + h) == Wrap32(31 * y + h) <==> x == y
  {
    WrapEqualIff(31 * x + h, 31 * y + h);
    assert (31 * x + h) - (31 * y + h) == 31 * (x - y);
    if Wrap32(31 * x + h) == Wrap32(31 * y + h) {
      Times31Cancels(x, y);
    }
  }

  /** One-argument Objects.hash is 31 + the argument, wrapped. */
  lemma {:induction false} SingleHash(a: int)
    ensures ObjectsHash([a]) == Wrap32(31 + a)
  {
    assert [a][..0] == [];
  }

  /** Two-argument Objects.hash is one more step over the one-argument hash. */
  lemma {:induction false} PairHash(a: int, h: int)
    ensures ObjectsHash([a, h]) == Wrap32(31 * ObjectsHash([a]) + h)
  {
    assert [a, h][..1] == [a];
  }

  /** One-argument Objects.hash tells its `int` arguments apart. */
  lemma {:induction false} SingleHashInjective(a: int, b: int)
    requires JavaText.IsInt32(a) && JavaText.IsInt32(b)
    ensures ObjectsHash([a]) == ObjectsHash([b]) <==> a == b
  {
    SingleHash(a);
    SingleHash(b);
    WrapEqualIff(31 + a, 31 + b);
    assert -TwoTo32 < a - b < TwoTo32;
  }

  /** Two-argument Objects.hash tells its first arguments apart when the second ones agree. */
  lemma {:induction false} PairHashSeesFirst(a: int, b: int, h: int)
    requires JavaText.IsInt32(a) && JavaText.IsInt32(b)
    ensures ObjectsHash([a, h]) == ObjectsHash([b, h]) <==> a == b
  {
    PairHash(a, h);
    PairHash(b, h);
    StepInjective(ObjectsHash([a]), ObjectsHash([b]), h);
    SingleHashInjective(a, b);
  }

  /** String.hashCode: the chars folded with 31·h + c, starting from 0 (each char taken as one UTF-16 code unit). */
  function StringHash(s: string): (r: int)
    ensures JavaText.IsInt32(r)
  {
    if s == [] then 0 else Wrap32(31 * StringHash(s[..|s| - 1]) + s[|s| - 1] as int)
  }
}
