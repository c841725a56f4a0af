/**
 * Calendar days and their "dd-MM-yyyy" text, the date format shared by the
 * socket protocol, the socket gateway and the capacity table.
 */
module Calendar {
  import opened JavaText

  /** A java.util.Date reduced to the calendar day it falls on in the JVM's default time zone. */
  datatype Date = Date(day: nat, month: nat, year: nat)

  predicate IsCalendarDay(d: Date) {
    1 <= d.day <= 31 && 1 <= d.month <= 12 && 1 <= d.year
  }

  function Pow10(k: nat): (p: nat)
    ensures p >= 1
  {
    if k == 0 then 1 else 10 * Pow10(k - 1)
  }

  /** `s` left-padded with '0' up to `width` chars; a longer `s` is kept whole. */
  function PadLeft(s: string, width: nat): (r: string)
    ensures |r| == if |s| >= width then |s| else width
    ensures |s| <= |r| && r[|r| - |s|..] == s
    ensures forall i :: 0 <= i < |r| - |s| ==> r[i] == '0'
    decreases width - |s|
  {
    if |s| >= width then s
    else
      var r := PadLeft(['0'] + s, width);
      assert r[|r| - |s| - 1..] == ['0'] + s;
      assert r[|r| - |s|..] == r[|r| - |s| - 1..][1..];
      assert r[|r| - |s| - 1] == '0';
      r
  }

  /** A number field of a SimpleDateFormat pattern with `width` letters: zero-padded, never truncated. */
  function NumberField(n: nat, width: nat): (r: string)
    ensures AllDigits(r)
    ensures |r| == width <==> |NatToString(n)| <= width
    ensures |r| >= width
  {
    var s := NatToString(n);
    var r := PadLeft(s, width);
    assert forall i :: |r| - |s| <= i < |r| ==> r[i] == s[i - (|r| - |s|)];
    r
  }

  /** SimpleDateFormat("dd-MM-yyyy").format of a day. */
  function Format(d: Date): string {
    NumberField(d.day, 2) + "-" + NumberField(d.month, 2) + "-" + NumberField(d.year, 4)
  }

  /** String.matches("\\d{2}-\\d{2}-\\d{4}"), a whole-string match. */
  predicate IsDatePattern(s: string) {
    && |s| == 10
    && s[2] == '-' && s[5] == '-'
    && IsDigit(s[0]) && IsDigit(s[1]) && IsDigit(s[3]) && IsDigit(s[4])
    && AllDigits(s[6..])
  }

  /** A rendering of n fits in k >= 1 digits exactly when n < 10^k. */
  lemma {:induction false} NatToStringLength(n: nat, k: nat)
    requires k >= 1
    ensures |NatToString(n)| <= k <==> n < Pow10(k)
  {
    if n >= 10 {
      assert |NatToString(n)| == |NatToString(n / 10)| + 1;
      if k == 1 {
        assert Pow10(1) == 10;
      } else {
        NatToStringLength(n / 10, k - 1);
        assert n / 10 < Pow10(k - 1) <==> n < 10 * Pow10(k - 1);
      }
    } else {
      assert Pow10(k) >= 10 by {
        assert Pow10(k) == 10 * Pow10(k - 1);
      }
    }
  }

  /** Three digit runs joined by '-' match the pattern exactly when they have widths 2, 2 and 4. */
  lemma JoinedFieldsPattern(a: string, b: string, c: string)
    requires AllDigits(a) && AllDigits(b) && AllDigits(c)
    requires |a| >= 2 && |b| >= 2 && |c| >= 4
    ensures IsDatePattern(a + "-" + b + "-" + c) <==> |a| == 2 && |b| == 2 && |c| == 4
  {
    var s := a + "-" + b + "-" + c;
    if |a| == 2 && |b| == 2 && |c| == 4 {
      assert s[0] == a[0] && s[1] == a[1] && s[2] == '-';
      assert s[3] == b[0] && s[4] == b[1] && s[5] == '-';
      assert s[6..] == c;
    }
  }

  /** Digit runs joined by '-' hold no '|'. */
  lemma JoinedFieldsHaveNoBar(a: string, b: string, c: string)
    requires AllDigits(a) && AllDigits(b) && AllDigits(c)
    ensures '|' !in a + "-" + b + "-" + c
  {
    var s := a + "-" + b + "-" + c;
    forall i | 0 <= i < |s| ensures s[i] != '|' {
      if i < |a| {
        assert s[i] == a[i];
      } else if i == |a| || i == |a| + 1 + |b| {
      } else if i < |a| + 1 + |b| {
        assert s[i] == b[i - |a| - 1];
      } else {
        assert s[i] == c[i - |a| - |b| - 2];
      }
    }
  }

  /**
   * The formatted day matches the protocol's date pattern exactly when day
   * and month fit in two digits and the year in four; a year from 10000 on
   * is rendered with five or more digits and fails the pattern.
   */
  lemma FormatMatchesPattern(d: Date)
    ensures IsDatePattern(Format(d)) <==> d.day < 100 && d.month < 100 && d.year < 10000
  {
    NatToStringLength(d.day, 2);
    NatToStringLength(d.month, 2);
    NatToStringLength(d.year, 4);
    assert Pow10(2) == 100 && Pow10(4) == 10000 by {
      assert Pow10(1) == 10;
      assert Pow10(3) == 1000;
    }
    JoinedFieldsPattern(NumberField(d.day, 2), NumberField(d.month, 2), NumberField(d.year, 4));
  }

  /** On real calendar days only the year can break the pattern. */
  lemma CalendarDayMatchesPattern(d: Date)
    requires IsCalendarDay(d)
    ensures IsDatePattern(Format(d)) <==> d.year <= 9999
  {
    FormatMatchesPattern(d);
  }

  /** The formatted day is non-empty, holds no '|' and has no surrounding blanks, so it is one protocol field. */
  lemma FormatIsOneField(d: Date)
    ensures Format(d) != [] && '|' !in Format(d)
    ensures Trim(Format(d)) == Format(d)
  {
    var a, b, c := NumberField(d.day, 2), NumberField(d.month, 2), NumberField(d.year, 4);
    JoinedFieldsHaveNoBar(a, b, c);
    var s := Format(d);
    assert s[0] == a[0];
    assert s[|s| - 1] == c[|c| - 1];
    TrimUntrimmable(s);
  }

  /** A text matching the date pattern is one protocol field with no surrounding blanks. */
  lemma DatePatternIsOneField(s: string)
    requires IsDatePattern(s)
    ensures '|' !in s && Trim(s) == s
  {
    forall i | 0 <= i < |s| ensures s[i] != '|' {
      if i >= 6 {
        assert s[i] == s[6..][i - 6];
      }
    }
    assert s[9] == s[6..][3];
    TrimUntrimmable(s);
  }
}
