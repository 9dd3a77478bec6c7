/** The pieces of `java.lang` that the file format of
    `FileBackedTasksManager` relies on: decimal printing and parsing of
    numbers (`String.valueOf`, `Long.parseLong`, `Integer.parseInt`) and
    `String.join` / `String.split` on a one-character separator. */
module Text {
  import opened Wrappers

  const LONG_MIN: int := -0x8000_0000_0000_0000
  const LONG_MAX: int := 0x7fff_ffff_ffff_ffff
  const INT_MIN: int := -0x8000_0000
  const INT_MAX: int := 0x7fff_ffff

  predicate IsDigit(c: char) {
    '0' <= c <= '9'
  }

  predicate AllDigits(s: string) {
    forall i | 0 <= i < |s| :: IsDigit(s[i])
  }

  function DigitChar(d: int): (c: char)
    requires 0 <= d < 10
    ensures IsDigit(c) && c as int - '0' as int == d
  {
    ('0' as int + d) as char
  }

  function DigitValue(c: char): (d: int)
    requires IsDigit(c)
    ensures 0 <= d < 10
  {
    c as int - '0' as int
  }

  /** The digits of `n`, most significant first, without leading zeros. */
  function NatToString(n: nat): (s: string)
    ensures |s| >= 1 && AllDigits(s)
    ensures |s| > 1 ==> s[0] != '0'
  {
    if n < 10 then [DigitChar(n)] else NatToString(n / 10) + [DigitChar(n % 10)]
  }

  /** `String.valueOf(long)`: a minus sign before the digits of a negative number. */
  function IntToString(n: int): (s: string)
    ensures |s| >= 1 && ',' !in s
    ensures n >= 0 ==> AllDigits(s)
    ensures n < 0 ==> s[0] == '-' && AllDigits(s[1..])
  {
    if n < 0 then "-" + NatToString(-n) else NatToString(n)
  }

  /** The value of a run of digits. */
  function DigitsValue(s: string): nat
    requires AllDigits(s)
  {
    if s == [] then 0 else DigitsValue(s[..|s| - 1]) * 10 + DigitValue(s[|s| - 1])
  }

  /** The grammar `Long.parseLong` and `Integer.parseInt` accept, before
      their range check: an optional sign and at least one digit. */
  function ParseDecimal(s: string): (r: Option<int>)
    ensures r.Some? <==> |s| > 0 && (if s[0] == '-' || s[0] == '+' then |s| > 1 && AllDigits(s[1..]) else AllDigits(s))
  {
    if |s| > 0 && (s[0] == '-' || s[0] == '+') then
      if |s| > 1 && AllDigits(s[1..]) then
        var v: int := DigitsValue(s[1..]);
        Some(if s[0] == '-' then -v else v)
      else None
    else if |s| > 0 && AllDigits(s) then Some(DigitsValue(s))
    else None
  }

  /** `Long.parseLong`: the grammar, and a value that fits 64 bits. */
  function ParseLong(s: string): (r: Option<int>)
    ensures r.Some? ==> LONG_MIN <= r.value <= LONG_MAX && ParseDecimal(s) == r
    ensures ParseDecimal(s).Some? && LONG_MIN <= ParseDecimal(s).value <= LONG_MAX ==> r == ParseDecimal(s)
  {
    var v := ParseDecimal(s);
    if v.Some? && LONG_MIN <= v.value <= LONG_MAX then v else None
  }

  /** `Integer.parseInt`: the grammar, and a value that fits 32 bits. */
  function ParseInt(s: string): (r: Option<int>)
    ensures r.Some? ==> INT_MIN <= r.value <= INT_MAX && ParseDecimal(s) == r
    ensures ParseDecimal(s).Some? && INT_MIN <= ParseDecimal(s).value <= INT_MAX ==> r == ParseDecimal(s)
  {
    var v := ParseDecimal(s);
    if v.Some? && INT_MIN <= v.value <= INT_MAX then v else None
  }

  lemma {:induction false} NatRoundTrip(n: nat)
    ensures DigitsValue(NatToString(n)) == n
  {
    if n >= 10 {
      var s := NatToString(n / 10);
      NatRoundTrip(n / 10);
      var s' := s + [DigitChar(n % 10)];
      assert s'[..|s'| - 1] == s;
    }
  }

  /** Printing then parsing gives the number back, whatever its sign. */
  lemma DecimalRoundTrip(n: int)
    ensures ParseDecimal(IntToString(n)) == Some(n)
    ensures LONG_MIN <= n <= LONG_MAX ==> ParseLong(IntToString(n)) == Some(n)
    ensures INT_MIN <= n <= INT_MAX ==> ParseInt(IntToString(n)) == Some(n)
  {
    var s := IntToString(n);
    if n < 0 {
      NatRoundTrip(-n);
      assert s[1..] == NatToString(-n);
    } else {
      NatRoundTrip(n);
      assert s[0] != '-' && s[0] != '+';
    }
  }

  /** `String.join(sep, parts)`. */
  function Join(parts: seq<string>, sep: char): (s: string)
    ensures |parts| == 1 ==> s == parts[0]
  {
    if |parts| == 0 then ""
    else if |parts| == 1 then parts[0]
    else parts[0] + [sep] + Join(parts[1..], sep)
  }

  /** Cutting at every occurrence of `sep`, keeping every piece: the pieces
      of `split(sep, -1)`, one more than there are separators. */
  function SplitAll(s: string, sep: char): (r: seq<string>)
    ensures |r| >= 1
    ensures forall i | 0 <= i < |r| :: sep !in r[i]
  {
    if |s| == 0 then [""]
    else
      var rest := SplitAll(s[1..], sep);
      if s[0] == sep then [""] + rest else [[s[0]] + rest[0]] + rest[1..]
  }

  /** The pieces less the empty ones at the end. */
  function TrimTrailing(ps: seq<string>): (r: seq<string>)
    ensures |r| <= |ps| && r == ps[..|r|]
    ensures forall i | |r| <= i < |ps| :: ps[i] == ""
    ensures |r| > 0 ==> r[|r| - 1] != ""
  {
    if |ps| > 0 && ps[|ps| - 1] == "" then TrimTrailing(ps[..|ps| - 1]) else ps
  }

  /** `String.split(sep)`: a string without the separator is its own single
      piece (even the empty string); otherwise the pieces with the trailing
      empty ones removed. */
  function Split(s: string, sep: char): (r: seq<string>)
    ensures sep !in s ==> r == [s]
  {
    if sep !in s then [s] else TrimTrailing(SplitAll(s, sep))
  }

  lemma {:induction false} SplitAllWhole(s: string, sep: char)
    requires sep !in s
    ensures SplitAll(s, sep) == [s]
  {
    if |s| > 0 {
      SplitAllWhole(s[1..], sep);
      assert [s[0]] + s[1..] == s;
    }
  }

  lemma {:induction false} SplitAllCut(p: string, sep: char, rest: string)
    requires sep !in p
    ensures SplitAll(p + [sep] + rest, sep) == [p] + SplitAll(rest, sep)
  {
    var s := p + [sep] + rest;
    if |p| == 0 {
      assert s[1..] == rest;
    } else {
      assert s[1..] == p[1..] + [sep] + rest;
      SplitAllCut(p[1..], sep, rest);
      assert [p[0]] + p[1..] == p;
    }
  }

  /** Cutting a joined string at the separator gives the parts back, when no
      part holds the separator. */
  lemma {:induction false} SplitAllJoin(parts: seq<string>, sep: char)
    requires |parts| >= 1
    requires forall i | 0 <= i < |parts| :: sep !in parts[i]
    ensures SplitAll(Join(parts, sep), sep) == parts
  {
    if |parts| == 1 {
      SplitAllWhole(parts[0], sep);
    } else {
      SplitAllJoin(parts[1..], sep);
      SplitAllCut(parts[0], sep, Join(parts[1..], sep));
      assert [parts[0]] + parts[1..] == parts;
    }
  }

  lemma {:induction false} JoinHasSeparator(parts: seq<string>, sep: char)
    requires |parts| >= 2
    ensures sep in Join(parts, sep)
  {
    assert Join(parts, sep)[|parts[0]|] == sep;
  }

  /** `split` undoes `join` exactly when the last part is not empty (with one
      part, even then): only trailing empty parts are lost. */
  lemma SplitJoin(parts: seq<string>, sep: char)
    requires |parts| >= 1
    requires forall i | 0 <= i < |parts| :: sep !in parts[i]
    ensures |parts| >= 2 ==> Split(Join(parts, sep), sep) == TrimTrailing(parts)
    ensures |parts| == 1 || parts[|parts| - 1] != "" ==> Split(Join(parts, sep), sep) == parts
  {
    if |parts| >= 2 {
      JoinHasSeparator(parts, sep);
      SplitAllJoin(parts, sep);
    }
  }
}
