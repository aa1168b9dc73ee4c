/**
  The pieces of Python's string handling that the modelled code relies on:
  `str.split`, `int(...)` and `str(...)` on integers, zero padding as in
  `%02d`, ASCII lower-casing and the ISO rendering of a calendar date.
 */
module Text {
  import opened Wrappers

  // ---------------------------------------------------------------- split

  /** Number of occurrences of `c` in `s`. */
  function Occurrences(s: string, c: char): nat
  {
    if s == [] then 0 else (if s[0] == c then 1 else 0) + Occurrences(s[1..], c)
  }

  /** `s.split(sep)`: cuts at every separator, so there is one more part than separators. */
  function Split(s: string, sep: char): (parts: seq<string>)
    ensures |parts| == Occurrences(s, sep) + 1
    ensures forall i :: 0 <= i < |parts| ==> sep !in parts[i]
    decreases |s|
  {
    if s == [] then [[]]
    else
      var rest := Split(s[1..], sep);
      if s[0] == sep then [[]] + rest
      else [[s[0]] + rest[0]] + rest[1..]
  }

  /** `sep.join(parts)`. */
  function Join(parts: seq<string>, sep: char): string
    requires |parts| > 0
    decreases |parts|
  {
    if |parts| == 1 then parts[0] else parts[0] + [sep] + Join(parts[1..], sep)
  }

  /** Splitting and re-joining gives back the original string. */
  lemma {:induction false} JoinSplit(s: string, sep: char)
    ensures Join(Split(s, sep), sep) == s
    decreases |s|
  {
    if s != [] {
      JoinSplit(s[1..], sep);
      var rest := Split(s[1..], sep);
      if s[0] == sep {
        assert Split(s, sep)[1..] == rest;
      } else if |rest| == 1 {
        assert Join(Split(s, sep), sep) == [s[0]] + rest[0];
      } else {
        var parts := Split(s, sep);
        assert parts[1..] == rest[1..];
        assert Join(rest, sep) == rest[0] + [sep] + Join(rest[1..], sep);
      }
    }
  }

  /** A string without the separator is a single part. */
  lemma {:induction false} SplitWithoutSeparator(a: string, sep: char)
    requires sep !in a
    ensures Split(a, sep) == [a]
    decreases |a|
  {
    if a != [] {
      SplitWithoutSeparator(a[1..], sep);
      assert [a[0]] + a[1..] == a;
    }
  }

  /** A leading part without the separator is split off as it is. */
  lemma {:induction false} SplitAfterPart(a: string, sep: char, t: string)
    requires sep !in a
    ensures Split(a + [sep] + t, sep) == [a] + Split(t, sep)
    decreases |a|
  {
    var s := a + [sep] + t;
    if a == [] {
      assert s[0] == sep && s[1..] == t;
    } else {
      assert s[1..] == a[1..] + [sep] + t;
      SplitAfterPart(a[1..], sep, t);
      assert [a[0]] + a[1..] == a;
    }
  }

  /** Joining three separator-free parts and splitting again gives back the parts. */
  lemma SplitThree(a: string, b: string, c: string, sep: char)
    requires sep !in a && sep !in b && sep !in c
    ensures Split(a + [sep] + b + [sep] + c, sep) == [a, b, c]
  {
    SplitWithoutSeparator(c, sep);
    SplitAfterPart(b, sep, c);
    assert a + [sep] + b + [sep] + c == a + [sep] + (b + [sep] + c);
    SplitAfterPart(a, sep, b + [sep] + c);
  }

  // ---------------------------------------------------------------- decimal digits

  predicate IsDigit(c: char) { '0' <= c <= '9' }

  predicate AllDigits(s: string) { forall i :: 0 <= i < |s| ==> IsDigit(s[i]) }

  function DigitValue(c: char): nat
    requires IsDigit(c)
  {
    c as int - '0' as int
  }

  function DigitChar(d: nat): (c: char)
    requires d < 10
    ensures IsDigit(c) && DigitValue(c) == d
  {
    ('0' as int + d) as char
  }

  /** The value of a string of decimal digits, most significant digit first. */
  function DigitsValue(s: string): nat
    requires AllDigits(s)
    decreases |s|
  {
    if s == [] then 0 else DigitsValue(s[..|s| - 1]) * 10 + DigitValue(s[|s| - 1])
  }

  /** Python's `str(n)` for a natural number: decimal, without leading zeros. */
  function ShowNat(n: nat): (s: string)
    ensures |s| > 0 && AllDigits(s)
    ensures s[0] == '0' ==> s == "0"
    decreases n
  {
    if n < 10 then [DigitChar(n)] else ShowNat(n / 10) + [DigitChar(n % 10)]
  }

  /** Python's `str(i)` for an integer. */
  function ShowInt(i: int): string
  {
    if i < 0 then "-" + ShowNat(-i) else ShowNat(i)
  }

  /** Python's `int(s)` for an optional sign followed by decimal digits; anything else raises. */
  function ParseInt(s: string): Option<int>
  {
    if s == [] then None
    else if s[0] == '+' || s[0] == '-' then
      var digits := s[1..];
      if digits != [] && AllDigits(digits) then
        var v: int := DigitsValue(digits);
        Some(if s[0] == '-' then -v else v)
      else None
    else if AllDigits(s) then Some(DigitsValue(s))
    else None
  }

  /** Drops leading zeros but keeps a last digit: what `str(int(s))` does to a digit string. */
  function DropLeadingZeros(s: string): string
    decreases |s|
  {
    if |s| > 1 && s[0] == '0' then DropLeadingZeros(s[1..]) else s
  }

  /** Reading back the decimal rendering of `n` gives `n`. */
  lemma {:induction false} DigitsValueShowNat(n: nat)
    ensures DigitsValue(ShowNat(n)) == n
    decreases n
  {
    if n >= 10 {
      DigitsValueShowNat(n / 10);
      var s := ShowNat(n);
      assert s[..|s| - 1] == ShowNat(n / 10);
    }
  }

  /** `int` reads back what `str` wrote, for every integer. */
  lemma ParseShowInt(i: int)
    ensures ParseInt(ShowInt(i)) == Some(i)
  {
    if i < 0 {
      DigitsValueShowNat(-i);
      assert ShowInt(i)[1..] == ShowNat(-i);
    } else {
      DigitsValueShowNat(i);
    }
  }

  /** A leading zero does not change the value of a digit string. */
  lemma {:induction false} DigitsValueLeadingZero(s: string)
    requires AllDigits(s)
    ensures AllDigits("0" + s) && DigitsValue("0" + s) == DigitsValue(s)
    decreases |s|
  {
    var z := "0" + s;
    if s != [] {
      assert z[..|z| - 1] == "0" + s[..|s| - 1];
      DigitsValueLeadingZero(s[..|s| - 1]);
    }
  }

  /** A digit string that does not start with '0' has a positive value. */
  lemma {:induction false} DigitsValuePositive(s: string)
    requires s != [] && AllDigits(s) && s[0] != '0'
    ensures DigitsValue(s) > 0
    decreases |s|
  {
    if |s| > 1 {
      DigitsValuePositive(s[..|s| - 1]);
    }
  }

  /** A digit string without a leading zero is the rendering of its own value. */
  lemma {:induction false} ShowNatCanonical(s: string)
    requires s != [] && AllDigits(s) && (s[0] == '0' ==> |s| == 1)
    ensures ShowNat(DigitsValue(s)) == s
    decreases |s|
  {
    if |s| > 1 {
      var init := s[..|s| - 1];
      DigitsValuePositive(init);
      ShowNatCanonical(init);
      var v := DigitsValue(s);
      assert v / 10 == DigitsValue(init) && v % 10 == DigitValue(s[|s| - 1]);
      assert [DigitChar(v % 10)] == [s[|s| - 1]];
      assert init + [s[|s| - 1]] == s;
    }
  }

  /** `str(int(s))` on a non-empty digit string drops its leading zeros ("03" -> "3", "00" -> "0"). */
  lemma {:induction false} ShowNatDropsLeadingZeros(s: string)
    requires s != [] && AllDigits(s)
    ensures ShowNat(DigitsValue(s)) == DropLeadingZeros(s)
    decreases |s|
  {
    if |s| > 1 && s[0] == '0' {
      assert s == "0" + s[1..];
      DigitsValueLeadingZero(s[1..]);
      ShowNatDropsLeadingZeros(s[1..]);
    } else {
      ShowNatCanonical(s);
    }
  }

  // ---------------------------------------------------------------- padding, dates, case

  /** Left-pads `s` with '0' up to `width` characters, as `%0<width>d` does. */
  function ZeroPad(s: string, width: nat): (r: string)
    ensures |r| == if |s| >= width then |s| else width
    ensures r[|r| - |s|..] == s
    ensures forall i :: 0 <= i < |r| - |s| ==> r[i] == '0'
  {
    if |s| >= width then s else seq(width - |s|, _ => '0') + s
  }

  /** Leading zeros keep a digit string's value. */
  lemma {:induction false} LeadingZerosValue(k: nat, s: string)
    requires AllDigits(s)
    ensures AllDigits(seq(k, _ => '0') + s) && DigitsValue(seq(k, _ => '0') + s) == DigitsValue(s)
    decreases k
  {
    if k > 0 {
      var shorter := seq(k - 1, _ => '0') + s;
      assert seq(k, _ => '0') + s == "0" + shorter;
      LeadingZerosValue(k - 1, s);
      DigitsValueLeadingZero(shorter);
    } else {
      assert seq(k, _ => '0') + s == s;
    }
  }

  /** Zero padding keeps a digit string's value. */
  lemma ZeroPadValue(s: string, width: nat)
    requires AllDigits(s)
    ensures AllDigits(ZeroPad(s, width)) && DigitsValue(ZeroPad(s, width)) == DigitsValue(s)
  {
    if |s| < width {
      LeadingZerosValue(width - |s|, s);
    }
  }

  /** A calendar date as Python's `datetime.date` holds it. */
  datatype CalendarDate = CalendarDate(year: nat, month: nat, day: nat)

  /** `date.strftime('%Y-%m-%d')`, which is also `str(date)`. */
  function IsoDate(d: CalendarDate): string
  {
    ZeroPad(ShowNat(d.year), 4) + "-" + ZeroPad(ShowNat(d.month), 2) + "-" + ZeroPad(ShowNat(d.day), 2)
  }

  /** The parts of an ISO date contain only digits, never the '-' separator. */
  lemma IsoDateParts(d: CalendarDate)
    ensures var y, m, dd := ZeroPad(ShowNat(d.year), 4), ZeroPad(ShowNat(d.month), 2), ZeroPad(ShowNat(d.day), 2);
      && AllDigits(y) && AllDigits(m) && AllDigits(dd)
      && '-' !in y && '-' !in m && '-' !in dd
      && IsoDate(d) == y + ['-'] + m + ['-'] + dd
  {
    ZeroPadValue(ShowNat(d.year), 4);
    ZeroPadValue(ShowNat(d.month), 2);
    ZeroPadValue(ShowNat(d.day), 2);
  }

  function LowerChar(c: char): char
  {
    if 'A' <= c <= 'Z' then (c as int - 'A' as int + 'a' as int) as char else c
  }

  /** The upper-case partner of an ASCII lower-case letter; other characters are their own. */
  function UpperChar(c: char): char
  {
    if 'a' <= c <= 'z' then (c as int - 'a' as int + 'A' as int) as char else c
  }

  /** `s.lower()` on ASCII letters; the only change is A-Z to a-z. */
  function Lower(s: string): (r: string)
    ensures |r| == |s|
    ensures forall i :: 0 <= i < |s| ==> r[i] == LowerChar(s[i])
  {
    seq(|s|, i requires 0 <= i < |s| => LowerChar(s[i]))
  }

  /** `s` spells `t` up to the case of its letters. */
  predicate CaseVariant(s: string, t: string)
  {
    |s| == |t| && forall i :: 0 <= i < |s| ==> s[i] == t[i] || s[i] == UpperChar(t[i])
  }

  /**
    For a target with no upper-case letter, `s.lower() == t` holds exactly
    when `s` is `t` with any of its letters written in upper case.
   */
  lemma LowerIsCaseVariant(s: string, t: string)
    requires forall i :: 0 <= i < |t| ==> !('A' <= t[i] <= 'Z')
    ensures Lower(s) == t <==> CaseVariant(s, t)
  {
    if |s| == |t| {
      if CaseVariant(s, t) {
        assert forall i :: 0 <= i < |s| ==> Lower(s)[i] == t[i];
      }
      if Lower(s) == t {
        forall i | 0 <= i < |s|
          ensures s[i] == t[i] || s[i] == UpperChar(t[i])
        {
          assert LowerChar(s[i]) == t[i];
        }
      }
    }
  }
}
