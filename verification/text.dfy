/** String helpers for the display forms of the library's objects: decimal
    rendering of Java `int`s (`String.valueOf`) and joining with a
    separator. */
module Text {

  /** The decimal digit character of `d`. */
  function Digit(d: nat): char
    requires d < 10
  {
    "0123456789"[d]
  }

  /** The value of a decimal digit character. */
  function DigitValue(c: char): nat
    requires '0' <= c <= '9'
  {
    (c as int - '0' as int) as nat
  }

  predicate IsDigits(s: string) {
    forall i :: 0 <= i < |s| ==> '0' <= s[i] <= '9'
  }

  /** The decimal rendering of a non-negative number, without leading zeros. */
  function NatString(n: nat): (s: string)
    ensures |s| > 0 && IsDigits(s)
    ensures |s| > 1 ==> s[0] != '0'
    decreases n
  {
    if n < 10 then [Digit(n)] else NatString(n / 10) + [Digit(n % 10)]
  }

  /** The number a string of decimal digits denotes. */
  function DigitsValue(s: string): nat
    requires IsDigits(s)
  {
    if |s| == 0 then 0 else 10 * DigitsValue(s[..|s| - 1]) + DigitValue(s[|s| - 1])
  }

  /** `p[start..pos]` is all decimal digits. */
  predicate DigitsIn(p: string, start: int, pos: int)
    requires 0 <= start <= pos <= |p|
  {
    forall i :: start <= i < pos ==> '0' <= p[i] <= '9'
  }

  /** The number the digits `p[start..pos]` denote, read left to right. */
  function DigitsAt(p: string, start: int, pos: int): nat
    requires 0 <= start <= pos <= |p| && DigitsIn(p, start, pos)
    decreases pos - start
  {
    if pos == start then 0 else 10 * DigitsAt(p, start, pos - 1) + DigitValue(p[pos - 1])
  }

  /** Reading digits in place agrees with the value of the digit string. */
  lemma {:induction false} DigitsAtValue(p: string, start: int, pos: int)
    requires 0 <= start <= pos <= |p| && DigitsIn(p, start, pos)
    ensures IsDigits(p[start..pos]) && DigitsAt(p, start, pos) == DigitsValue(p[start..pos])
    decreases pos - start
  {
    if pos > start {
      DigitsAtValue(p, start, pos - 1);
      assert p[start..pos][..pos - 1 - start] == p[start..pos - 1];
    }
  }

  /** Reading more digits never gives a smaller number. */
  lemma {:induction false} DigitsAtMonotone(p: string, start: int, pos: int, k: int)
    requires 0 <= start <= pos <= k <= |p| && DigitsIn(p, start, k)
    ensures DigitsAt(p, start, pos) <= DigitsAt(p, start, k)
    decreases k - pos
  {
    if pos < k {
      DigitsAtMonotone(p, start, pos, k - 1);
    }
  }

  /** Reading a rendered number back gives the number. */
  lemma {:induction false} NatStringRoundTrip(n: nat)
    ensures DigitsValue(NatString(n)) == n
  {
    if n >= 10 {
      var s := NatString(n);
      NatStringRoundTrip(n / 10);
      assert s[..|s| - 1] == NatString(n / 10);
      assert DigitValue(s[|s| - 1]) == n % 10;
    } else {
      assert DigitValue(Digit(n)) == n;
    }
  }

  /** `String.valueOf(int)`: a minus sign before the magnitude of a negative
      number. */
  function IntString(n: int): (s: string)
    ensures n >= 0 ==> s == NatString(n)
    ensures n < 0 ==> s == "-" + NatString(-n)
  {
    if n < 0 then "-" + NatString(-n) else NatString(n)
  }

  /** The parts in order with `sep` between neighbours and nowhere else. */
  function Join(parts: seq<string>, sep: string): string {
    if |parts| == 0 then ""
    else if |parts| == 1 then parts[0]
    else parts[0] + sep + Join(parts[1..], sep)
  }

  /** Every part followed by `sep`, the form a `StringBuffer` loop builds
      before it trims its last separator. */
  function EachFollowedBy(parts: seq<string>, sep: string): (s: string)
    ensures |s| >= |sep| * |parts|
  {
    if |parts| == 0 then "" else parts[0] + sep + EachFollowedBy(parts[1..], sep)
  }

  /** Trimming the trailing separator from `EachFollowedBy` leaves the joined
      parts. */
  lemma {:induction false} TrimmedEachIsJoin(parts: seq<string>, sep: string)
    requires |parts| > 0
    ensures EachFollowedBy(parts, sep)[..|EachFollowedBy(parts, sep)| - |sep|] == Join(parts, sep)
  {
    if |parts| > 1 {
      TrimmedEachIsJoin(parts[1..], sep);
      var rest := EachFollowedBy(parts[1..], sep);
      var s := EachFollowedBy(parts, sep);
      assert s == parts[0] + sep + rest;
      assert s[..|s| - |sep|] == parts[0] + sep + rest[..|rest| - |sep|];
    } else {
      assert EachFollowedBy(parts, sep) == parts[0] + sep + "";
    }
  }

  /** The first part, then each later part preceded by `sep`: the form a loop
      that starts from element 0 builds. */
  function FirstThenEachPreceded(parts: seq<string>, sep: string): string
    requires |parts| > 0
  {
    if |parts| == 1 then parts[0]
    else FirstThenEachPreceded(parts[..|parts| - 1], sep) + sep + parts[|parts| - 1]
  }

  /** That loop also builds the joined parts. */
  lemma {:induction false} FirstThenEachIsJoin(parts: seq<string>, sep: string)
    requires |parts| > 0
    ensures FirstThenEachPreceded(parts, sep) == Join(parts, sep)
  {
    if |parts| > 1 {
      FirstThenEachIsJoin(parts[..|parts| - 1], sep);
      JoinSnoc(parts[..|parts| - 1], parts[|parts| - 1], sep);
      assert parts[..|parts| - 1] + [parts[|parts| - 1]] == parts;
    }
  }

  /** Joining after appending one more part adds it behind one separator. */
  lemma {:induction false} JoinSnoc(parts: seq<string>, last: string, sep: string)
    requires |parts| > 0
    ensures Join(parts + [last], sep) == Join(parts, sep) + sep + last
  {
    if |parts| > 1 {
      assert (parts + [last])[1..] == parts[1..] + [last];
      JoinSnoc(parts[1..], last, sep);
    } else {
      assert (parts + [last])[1..] == [last];
    }
  }
}
