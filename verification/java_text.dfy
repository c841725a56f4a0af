/**
 * The few java.lang.String and java.lang.Integer operations the modelled
 * code relies on, written out so that their edge cases are explicit:
 * String.trim, String.toUpperCase, String.split with a one-character
 * separator, Integer.parseInt and the decimal rendering of an int.
 */
module JavaText {
  import opened Wrappers

  /** String.trim removes every leading and trailing char whose code is at most U+0020. */
  predicate IsTrimmable(c: char) {
    c <= ' '
  }

  predicate IsBlank(s: string) {
    forall i :: 0 <= i < |s| ==> IsTrimmable(s[i])
  }

  /** The suffix of `s` left after dropping its leading trimmable chars. */
  function TrimStart(s: string): (r: string)
    ensures |r| <= |s|
    ensures r == [] || !IsTrimmable(r[0])
    ensures forall i :: 0 <= i < |s| - |r| ==> IsTrimmable(s[i])
  {
    if s != [] && IsTrimmable(s[0]) then TrimStart(s[1..]) else s
  }

  /** The prefix of `s` left after dropping its trailing trimmable chars. */
  function TrimEnd(s: string): (r: string)
    ensures |r| <= |s|
    ensures r == [] || !IsTrimmable(r[|r| - 1])
    ensures forall i :: |r| <= i < |s| ==> IsTrimmable(s[i])
  {
    if s != [] && IsTrimmable(s[|s| - 1]) then TrimEnd(s[..|s| - 1]) else s
  }

  /** TrimStart(s) is a suffix of `s`. */
  lemma {:induction false} TrimStartIsSuffix(s: string)
    ensures TrimStart(s) == s[|s| - |TrimStart(s)|..]
  {
    if s != [] && IsTrimmable(s[0]) {
      TrimStartIsSuffix(s[1..]);
    }
  }

  /** TrimEnd(s) is a prefix of `s`. */
  lemma {:induction false} TrimEndIsPrefix(s: string)
    ensures TrimEnd(s) == s[..|TrimEnd(s)|]
  {
    if s != [] && IsTrimmable(s[|s| - 1]) {
      TrimEndIsPrefix(s[..|s| - 1]);
    }
  }

  /** How many trimmable chars String.trim drops from the front of `s`. */
  function LeadingTrimmed(s: string): (k: nat)
    ensures k <= |s|
  {
    |s| - |TrimStart(s)|
  }

  /** String.trim: drops leading and trailing trimmable chars. */
  function Trim(s: string): (r: string)
    ensures |r| <= |s|
  {
    TrimEnd(TrimStart(s))
  }

  /** Trim(s) is the infix of `s` after LeadingTrimmed(s) chars, with only trimmable chars around it. */
  lemma {:induction false} TrimInfix(s: string)
    ensures LeadingTrimmed(s) + |Trim(s)| <= |s|
    ensures Trim(s) == s[LeadingTrimmed(s)..LeadingTrimmed(s) + |Trim(s)|]
    ensures forall i :: 0 <= i < LeadingTrimmed(s) ==> IsTrimmable(s[i])
    ensures forall i :: LeadingTrimmed(s) + |Trim(s)| <= i < |s| ==> IsTrimmable(s[i])
  {
    var t := TrimStart(s);
    var r := TrimEnd(t);
    var k := |s| - |t|;
    TrimStartIsSuffix(s);
    TrimEndIsPrefix(t);
    assert t == s[k..];
    assert r == s[k..k + |r|];
    forall i | k + |r| <= i < |s|
      ensures IsTrimmable(s[i])
    {
      assert s[i] == t[i - k];
    }
  }

  /** Trim(s) is the infix of `s` whose first and last chars are not trimmable and around which there is nothing else. */
  lemma {:induction false} TrimShape(s: string)
    ensures Trim(s) == [] <==> IsBlank(s)
    ensures Trim(s) != [] ==> !IsTrimmable(Trim(s)[0]) && !IsTrimmable(Trim(s)[|Trim(s)| - 1])
    ensures LeadingTrimmed(s) + |Trim(s)| <= |s|
    ensures Trim(s) == s[LeadingTrimmed(s)..LeadingTrimmed(s) + |Trim(s)|]
    ensures forall i :: 0 <= i < LeadingTrimmed(s) ==> IsTrimmable(s[i])
    ensures forall i :: LeadingTrimmed(s) + |Trim(s)| <= i < |s| ==> IsTrimmable(s[i])
  {
    TrimInfix(s);
    var k, r := LeadingTrimmed(s), Trim(s);
    if r != [] {
      var t := TrimStart(s);
      TrimEndIsPrefix(t);
      assert r[0] == t[0] && r[0] == s[k];
      assert !IsBlank(s);
    } else {
      assert IsBlank(s);
    }
  }

  /** A char that is neither trimmable nor `c` does not occur in `s` when it does not occur in Trim(s). */
  lemma NotInTrimmed(s: string, c: char)
    requires !IsTrimmable(c)
    requires c !in Trim(s)
    ensures c !in s
  {
    TrimShape(s);
    var r := Trim(s);
    var k := LeadingTrimmed(s);
    forall i | 0 <= i < |s|
      ensures s[i] != c
    {
      if k <= i < k + |r| {
        assert s[i] == r[i - k];
      }
    }
  }

  /** A char absent from `s` is absent from Trim(s). */
  lemma TrimKeepsAbsent(s: string, c: char)
    requires c !in s
    ensures c !in Trim(s)
  {
    TrimShape(s);
    var k := LeadingTrimmed(s);
    forall i | 0 <= i < |Trim(s)|
      ensures Trim(s)[i] != c
    {
      assert Trim(s)[i] == s[k + i];
    }
  }

  /** Trimming a string that starts and ends with non-trimmable chars changes nothing. */
  lemma TrimUntrimmable(s: string)
    requires s != [] ==> !IsTrimmable(s[0]) && !IsTrimmable(s[|s| - 1])
    ensures Trim(s) == s
  {
  }

  /** Character.toUpperCase restricted to ASCII letters. */
  function UpperChar(c: char): char {
    if 'a' <= c <= 'z' then (c as int - 'a' as int + 'A' as int) as char else c
  }

  /** String.toUpperCase, on ASCII letters (see README for non-ASCII case mappings). */
  function ToUpper(s: string): (r: string)
    ensures |r| == |s|
    ensures forall i :: 0 <= i < |s| ==> r[i] == UpperChar(s[i])
  {
    seq(|s|, i requires 0 <= i < |s| => UpperChar(s[i]))
  }

  /** Upper-casing a second time changes nothing. */
  lemma UpperIdempotent(s: string)
    ensures ToUpper(ToUpper(s)) == ToUpper(s)
  {
  }

  /** A char that is not an upper-case letter is absent from ToUpper(s) when absent from `s`. */
  lemma UpperKeepsAbsent(s: string, c: char)
    requires !('A' <= c <= 'Z')
    requires c !in s
    ensures c !in ToUpper(s)
  {
    forall i | 0 <= i < |s|
      ensures ToUpper(s)[i] != c
    {
      assert ToUpper(s)[i] == UpperChar(s[i]);
    }
  }

  /** The upper-cased trim of a string is already trimmed. */
  lemma UpperOfTrimmedIsTrimmed(s: string)
    ensures Trim(ToUpper(Trim(s))) == ToUpper(Trim(s))
  {
    TrimShape(s);
    TrimUntrimmable(ToUpper(Trim(s)));
  }

  /** String.equalsIgnoreCase, on ASCII letters. */
  predicate EqualsIgnoreCase(a: string, b: string) {
    ToUpper(a) == ToUpper(b)
  }

  // ---------------------------------------------------------------------
  // Splitting on a one-character separator
  // ---------------------------------------------------------------------

  /** Every field of `s` between occurrences of `sep`, empty ones included. */
  function Fields(s: string, sep: char): (r: seq<string>)
    ensures |r| >= 1
    ensures forall i :: 0 <= i < |r| ==> sep !in r[i]
  {
    if s == [] then [[]]
    else
      var rest := Fields(s[1..], sep);
      if s[0] == sep then [[]] + rest
      else [[s[0]] + rest[0]] + rest[1..]
  }

  /** `fs` with its trailing empty strings removed. */
  function DropTrailingEmpty(fs: seq<string>): (r: seq<string>)
    ensures |r| <= |fs| && r == fs[..|r|]
    ensures r == [] || r[|r| - 1] != []
    ensures forall i :: |r| <= i < |fs| ==> fs[i] == []
  {
    if fs != [] && fs[|fs| - 1] == [] then DropTrailingEmpty(fs[..|fs| - 1]) else fs
  }

  /**
   * String.split with a regular expression matching exactly the char `sep`
   * and limit 0: a string in which `sep` never occurs comes back whole, even
   * when it is empty; otherwise the fields come back with the trailing empty
   * ones dropped, so a string made only of separators yields no field at all.
   */
  function JavaSplit(s: string, sep: char): (r: seq<string>)
    ensures forall i :: 0 <= i < |r| ==> sep !in r[i]
    ensures sep !in s ==> r == [s]
  {
    if sep !in s then [s] else DropTrailingEmpty(Fields(s, sep))
  }

  lemma FieldsWithoutSep(s: string, sep: char)
    requires sep !in s
    ensures Fields(s, sep) == [s]
  {
    if s != [] {
      assert sep !in s[1..] by {
        forall i | 0 <= i < |s[1..]| ensures s[1..][i] != sep {
          assert s[1..][i] == s[i + 1];
        }
      }
      FieldsWithoutSep(s[1..], sep);
      assert [s[0]] + s[1..] == s;
    }
  }

  /** Splitting `a + [sep] + t` yields `a` followed by the fields of `t`. */
  lemma {:induction false} FieldsOfJoin(a: string, sep: char, t: string)
    requires sep !in a
    ensures Fields(a + [sep] + t, sep) == [a] + Fields(t, sep)
  {
    var s := a + [sep] + t;
    if a == [] {
      assert s[1..] == t;
    } else {
      assert s[1..] == a[1..] + [sep] + t;
      FieldsOfJoin(a[1..], sep, t);
      assert [a[0]] + a[1..] == a;
    }
  }

  /** A string of separators only has nothing but empty fields. */
  lemma {:induction false} FieldsOfSeparatorRun(s: string, sep: char)
    requires forall i :: 0 <= i < |s| ==> s[i] == sep
    ensures forall i :: 0 <= i < |Fields(s, sep)| ==> Fields(s, sep)[i] == []
  {
    if s != [] {
      assert forall i :: 0 <= i < |s[1..]| ==> s[1..][i] == sep by {
        forall i | 0 <= i < |s[1..]| ensures s[1..][i] == sep {
          assert s[1..][i] == s[i + 1];
        }
      }
      FieldsOfSeparatorRun(s[1..], sep);
      var rest := Fields(s[1..], sep);
      assert s[0] == sep;
      assert Fields(s, sep) == [[]] + rest;
      forall i | 0 < i < |Fields(s, sep)| ensures Fields(s, sep)[i] == [] {
        assert Fields(s, sep)[i] == rest[i - 1];
      }
    }
  }

  /** A string that does not start with the separator has a non-empty first field. */
  lemma FirstFieldOfNonSeparator(s: string, sep: char)
    requires s != [] && s[0] != sep
    ensures Fields(s, sep)[0] != []
  {
  }

  /** A string whose fields are all empty holds separators only. */
  lemma {:induction false} SeparatorRunOfEmptyFields(s: string, sep: char)
    requires forall i :: 0 <= i < |Fields(s, sep)| ==> Fields(s, sep)[i] == []
    ensures forall i :: 0 <= i < |s| ==> s[i] == sep
  {
    if s != [] {
      var fs := Fields(s, sep);
      var rest := Fields(s[1..], sep);
      if s[0] != sep {
        FirstFieldOfNonSeparator(s, sep);
      }
      assert s[0] == sep;
      assert fs == [[]] + rest;
      forall i | 0 <= i < |rest| ensures rest[i] == [] {
        assert rest[i] == fs[i + 1];
      }
      SeparatorRunOfEmptyFields(s[1..], sep);
      forall i | 0 < i < |s| ensures s[i] == sep {
        assert s[i] == s[1..][i - 1];
      }
    }
  }

  lemma {:induction false} DropAllEmpty(fs: seq<string>)
    requires forall i :: 0 <= i < |fs| ==> fs[i] == []
    ensures DropTrailingEmpty(fs) == []
  {
    if fs != [] {
      DropAllEmpty(fs[..|fs| - 1]);
    }
  }

  /** String.split yields no field at all exactly for a non-empty string of separators only. */
  lemma SplitEmptyIff(s: string, sep: char)
    ensures JavaSplit(s, sep) == [] <==> (s != [] && forall i :: 0 <= i < |s| ==> s[i] == sep)
  {
    var fs := Fields(s, sep);
    if sep in s && DropTrailingEmpty(fs) == [] {
      assert forall i :: 0 <= i < |fs| ==> fs[i] == [];
      SeparatorRunOfEmptyFields(s, sep);
    }
    if s != [] && forall i :: 0 <= i < |s| ==> s[i] == sep {
      assert s[0] == sep;
      FieldsOfSeparatorRun(s, sep);
      DropAllEmpty(fs);
    }
  }

  /** Splitting `a|b` with neither part holding the separator and `b` non-empty gives back both parts. */
  lemma SplitPair(a: string, sep: char, b: string)
    requires sep !in a && sep !in b && b != []
    ensures JavaSplit(a + [sep] + b, sep) == [a, b]
  {
    FieldsOfJoin(a, sep, b);
    FieldsWithoutSep(b, sep);
    assert (a + [sep] + b)[|a|] == sep;
  }

  /** Splitting `a|t`, where `t` does not start with the separator, yields `a` and at least one more field. */
  lemma SplitLeadingField(a: string, sep: char, t: string)
    requires sep !in a && t != [] && t[0] != sep
    ensures |JavaSplit(a + [sep] + t, sep)| >= 2 && JavaSplit(a + [sep] + t, sep)[0] == a
  {
    var s := a + [sep] + t;
    assert s[|a|] == sep;
    FieldsOfJoin(a, sep, t);
    FirstFieldOfNonSeparator(t, sep);
    assert Fields(s, sep)[1] != [];
  }

  /** Splitting `a|b|c` with no part holding the separator and `c` non-empty gives back the three parts. */
  lemma SplitTriple(a: string, sep: char, b: string, c: string)
    requires sep !in a && sep !in b && sep !in c && c != []
    ensures JavaSplit(a + [sep] + b + [sep] + c, sep) == [a, b, c]
  {
    var t := b + [sep] + c;
    var s := a + [sep] + t;
    assert s == a + [sep] + b + [sep] + c;
    FieldsOfJoin(a, sep, t);
    FieldsOfJoin(b, sep, c);
    FieldsWithoutSep(c, sep);
    assert Fields(s, sep) == [a, b, c];
    assert s[|a|] == sep;
  }

  // ---------------------------------------------------------------------
  // Decimal integers
  // ---------------------------------------------------------------------

  const IntMin: int := -0x8000_0000
  const IntMax: int := 0x7FFF_FFFF

  predicate IsInt32(n: int) {
    IntMin <= n <= IntMax
  }

  /** The regular-expression class \d (ASCII digits only, as java.util.regex uses by default). */
  predicate IsDigit(c: char) {
    '0' <= c <= '9'
  }

  predicate AllDigits(s: string) {
    forall i :: 0 <= i < |s| ==> IsDigit(s[i])
  }

  function DigitValue(c: char): nat
    requires IsDigit(c)
  {
    c as int - '0' as int
  }

  function DigitChar(d: nat): (c: char)
    requires d < 10
    ensures IsDigit(c) && DigitValue(c) == d
  {
    ('0' as int + d) as char
  }

  /** The value of a string of decimal digits, most significant first. */
  function DigitsValue(s: string): nat
    requires AllDigits(s)
  {
    if s == [] then 0 else DigitsValue(s[..|s| - 1]) * 10 + DigitValue(s[|s| - 1])
  }

  /** Integer.toString of a non-negative value: its shortest decimal rendering. */
  function NatToString(n: nat): (r: string)
    ensures r != [] && AllDigits(r)
  {
    if n < 10 then [DigitChar(n)] else NatToString(n / 10) + [DigitChar(n % 10)]
  }

  /** Integer.toString / string concatenation of an int. */
  function IntToString(n: int): (r: string)
    ensures r != []
  {
    if n < 0 then "-" + NatToString(-n) else NatToString(n)
  }

  /**
   * Integer.parseInt (ASCII digits): an optional '-' or '+', then one or
   * more digits, whose value must fit in 32 bits; anything else is a
   * NumberFormatException, modelled as None.
   */
  function ParseInt(s: string): (r: Option<int>)
    ensures r.Some? ==> IsInt32(r.value)
    ensures r.Some? ==> s != [] && !IsTrimmable(s[0]) && !IsTrimmable(s[|s| - 1])
  {
    if s == [] then None
    else
      var negative := s[0] == '-';
      var digits := if s[0] == '-' || s[0] == '+' then s[1..] else s;
      if digits == [] || !AllDigits(digits) then None
      else
        var v: int := if negative then -(DigitsValue(digits) as int) else DigitsValue(digits);
        if IsInt32(v) then Some(v) else None
  }

  lemma {:induction false} NatToStringValue(n: nat)
    ensures DigitsValue(NatToString(n)) == n
  {
    if n >= 10 {
      NatToStringValue(n / 10);
      var s := NatToString(n);
      assert s[..|s| - 1] == NatToString(n / 10);
    }
  }

  /** Integer.parseInt reads back every 32-bit value rendered by Integer.toString. */
  lemma ParseIntOfIntToString(n: int)
    requires IsInt32(n)
    ensures ParseInt(IntToString(n)) == Some(n)
  {
    var s := IntToString(n);
    if n < 0 {
      var d := NatToString(-n);
      NatToStringValue(-n);
      assert s == "-" + d && s[0] == '-';
      assert s[1..] == d;
    } else {
      var d := NatToString(n);
      NatToStringValue(n);
      assert s == d && IsDigit(d[0]);
      assert s[0] != '-' && s[0] != '+';
    }
  }

  /** The decimal rendering of an int holds none of the separators the protocols use. */
  lemma IntToStringHasNoSeparators(n: int)
    ensures '|' !in IntToString(n) && ':' !in IntToString(n)
  {
    var s := IntToString(n);
    forall i | 0 <= i < |s| ensures s[i] != '|' && s[i] != ':' {
      if n < 0 && i > 0 {
        assert s[i] == NatToString(-n)[i - 1];
      }
    }
  }
}
