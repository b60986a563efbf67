/** `RegexParser`: the LL(1) pattern parser that builds an NFA graph
    directly, numbering groups in the order their `(` appear, and the
    escaping of literal strings for use in patterns. The pattern is read
    with `")\0"` appended, as in `RegexSpec`. */
module RegexParsers {
  import opened Wrappers
  import opened Text
  import opened CharSets
  import opened RegexGraphs
  import RegexSpecs

  /** Repetition codes; a positive count is a `{n}` repetition. */
  const ZeroOrGreater: int := -1
  const OneOrGreater: int := -2
  const ZeroOrOne: int := -3

  /** How a parsing step ends: its value and the position after it, or a
      `ParseException` with what went wrong and the position it reports. */
  datatype Parsed<T> = Done(value: T, next: int) | Fail(problem: Problem, at: int)

  /** What a `ParseException` of the parser reports; `Message` gives its
      text. */
  datatype Problem =
    | MisplacedRepetition
    | CountTooLarge
    | BadCountChar(c: char)
    | ZeroCount
    | UnterminatedSet(from: int)
    | BadTermination(isSub: bool)
    | ExtraCharacters

  /** The message of the exception. */
  function Message(e: Problem): string {
    match e
    case MisplacedRepetition =>
      "Bad placement of repetition ( *, +, ?, or {#} ) in pattern; these operators must follow a character or set of characters or group"
    case CountTooLarge => "Repetition count too large. (limited by 'int')"
    case BadCountChar(c) => "Invalid character in \"{#}\" repetition notation: " + [c]
    case ZeroCount => "Zero is not a valid count for \"{#}\" repetition notation."
    case UnterminatedSet(from) => "Unterminated set of characters from position " + IntString(from) + " ( expecting ']' )"
    case BadTermination(isSub) => (if isSub then "Subexpression" else "Pattern") + " was incorrectly terminated."
    case ExtraCharacters => "Extra characters at end of pattern"
  }

  /** `ALL_CHARS`: every code unit. */
  const AllChars: set<int> := set c: int | 0 <= c <= MaxChar

  const LambdaEdge: Graph := Simple(Lambda)

  /** One code unit. */
  function Char(c: char): Graph {
    Simple(Chars({c as int}))
  }

  // ---------------------------------------------------------------------
  // Escaping.

  /** `needEsc`. */
  predicate NeedEsc(c: char) {
    c == '(' || c == ')' || c == '{' || c == '}' || c == '*' || c == '+' ||
    c == '?' || c == '.' || c == '|' || c == '[' || c == ']' || c == '\\'
  }

  function EscChar(c: char): string {
    if NeedEsc(c) then ['\\', c] else [c]
  }

  /** A literal with a backslash before each character that needs one. */
  function Escaped(s: string): (r: string)
    ensures (forall i :: 0 <= i < |s| ==> !NeedEsc(s[i])) ==> r == s
    ensures |r| >= |s|
  {
    if |s| == 0 then "" else EscChar(s[0]) + Escaped(s[1..])
  }

  lemma {:induction false} EscapedAppend(a: string, b: string)
    ensures Escaped(a + b) == Escaped(a) + Escaped(b)
  {
    if |a| > 0 {
      assert (a + b)[0] == a[0];
      assert (a + b)[1..] == a[1..] + b;
      EscapedAppend(a[1..], b);
      calc {
        Escaped(a + b);
        EscChar(a[0]) + Escaped(a[1..] + b);
        EscChar(a[0]) + (Escaped(a[1..]) + Escaped(b));
        (EscChar(a[0]) + Escaped(a[1..])) + Escaped(b);
      }
    } else {
      assert a + b == b;
    }
  }

  /** Escaping one more character of a prefix. */
  lemma EscapedSnoc(s: string, i: int)
    requires 0 <= i < |s|
    ensures Escaped(s[..i + 1]) == Escaped(s[..i]) + EscChar(s[i])
  {
    assert s[..i + 1] == s[..i] + [s[i]];
    EscapedAppend(s[..i], [s[i]]);
    assert Escaped([s[i]]) == EscChar(s[i]) + Escaped([]);
  }

  /** `escapeString`: the literal itself when nothing in it needs a
      backslash, otherwise its safe prefix followed by the escaped rest. */
  method EscapeString(literal: string) returns (r: string)
    ensures r == Escaped(literal)
  {
    var i := 0;
    var stop := |literal|;
    while i < stop && !NeedEsc(literal[i])
      invariant 0 <= i <= stop
      invariant forall k :: 0 <= k < i ==> !NeedEsc(literal[k])
    {
      i := i + 1;
    }
    if i == stop {
      assert literal[..i] == literal;
      return literal;
    }
    r := literal[..i];
    while i < stop
      invariant 0 <= i <= stop
      invariant r == Escaped(literal[..i])
    {
      var ch := literal[i];
      EscapedSnoc(literal, i);
      if NeedEsc(ch) {
        r := r + ['\\', ch];
      } else {
        r := r + [ch];
      }
      i := i + 1;
    }
    assert literal[..i] == literal;
  }

  // ---------------------------------------------------------------------
  // Building graphs.

  /** `makeSequence`: one element stands for itself. */
  function MakeSequence(items: seq<Graph>): (g: Graph)
    ensures GroupCount(g) == GroupSum(items)
    ensures NodeCount(g) == Total(items)
  {
    if |items| == 1 then
      assert items == [] + [items[0]];
      GroupSumSnoc([], items[0]);
      items[0]
    else Sequence(items)
  }

  /** `makeRepetition`: the last element read becomes repeated — `{n}` as a
      repetition, `?` as a choice between a lambda edge and the element,
      `*` and `+` as loops; with no element the operator is misplaced. The
      element keeps its groups. */
  function MakeRepetition(items: seq<Graph>, count: int): (r: Option<seq<Graph>>)
    requires count > 0 || count == ZeroOrGreater || count == OneOrGreater || count == ZeroOrOne
    ensures r.Some? <==> |items| > 0
    ensures r.Some? ==> |r.value| == |items| && r.value[..|items| - 1] == items[..|items| - 1]
    ensures r.Some? ==> GroupSum(r.value) == GroupSum(items)
  {
    if |items| == 0 then
      None
    else
      var idx := |items| - 1;
      RepeatedGroups(items[idx], count);
      GroupSumSnoc(items[..idx], Repeated(items[idx], count));
      Some(items[..idx] + [Repeated(items[idx], count)])
  }

  /** The graph an operator makes of the element before it. */
  function Repeated(prev: Graph, count: int): Graph {
    if count > 0 then Repeat(count, prev)
    else if count == ZeroOrOne then Choice([LambdaEdge, prev])
    else Loop(count == ZeroOrGreater, prev)
  }

  /** A repeated element keeps its groups, counted once. */
  lemma RepeatedGroups(prev: Graph, count: int)
    ensures GroupCount(Repeated(prev, count)) == GroupCount(prev)
  {
    if count <= 0 && count == ZeroOrOne {
      var parts := [LambdaEdge, prev];
      assert parts[..1] == [LambdaEdge] && parts[1] == prev;
      assert [LambdaEdge][..0] == [];
      assert GroupSum([LambdaEdge]) == 0;
      assert GroupSum(parts) == GroupCount(prev);
    }
  }

  /** The value of a finished expression: the alternatives when there was a
      `|`, otherwise the sequence of the elements. */
  function Finish(options: seq<Graph>, items: seq<Graph>): (g: Graph)
    ensures GroupCount(g) == GroupSum(options) + GroupSum(items)
  {
    GroupSumSnoc(options, MakeSequence(items));
    if |options| > 0 then Choice(options + [MakeSequence(items)]) else MakeSequence(items)
  }

  // ---------------------------------------------------------------------
  // `{n}`.

  /** The digits of `{n}` from `pos` as `parseGroupCount` reads them, with
      `number` read so far: each step computes `number * 10 + digit` in
      32-bit arithmetic and only a result below `number` counts as an
      overflow. A terminator other than `}` and a zero count are errors, in
      that order. */
  function CountLoopAsWritten(p: string, pos: int, number: int): (r: Parsed<int>)
    requires 0 <= pos < |p| && p[|p| - 1] == '\0' && 0 <= number <= 0x7FFF_FFFF
    ensures r.Done? ==> pos < r.next <= |p| - 1 && p[r.next - 1] == '}' && 0 < r.value <= 0x7FFF_FFFF
    decreases |p| - pos
  {
    var ch := p[pos];
    var pos1 := pos + 1;
    if '0' <= ch <= '9' then
      var tmp := Int32(number * 10 + DigitValue(ch));
      if tmp < number then Fail(CountTooLarge, pos1) else CountLoopAsWritten(p, pos1, tmp)
    else if ch != '}' then Fail(BadCountChar(ch), pos1)
    else if number == 0 then Fail(ZeroCount, pos1)
    else Done(number, pos1)
  }

  /** The same loop with the overflow check made exact: a count above
      2^31 - 1 is rejected, and `number` is always the value of the digits
      from `start` to `pos`. */
  function CountLoop(p: string, start: int, pos: int, number: int): (r: Parsed<int>)
    requires RegexSpecs.Padded(p) && 0 <= start <= pos <= |p| - 1 && 0 <= number <= 0x7FFF_FFFF
    requires DigitsIn(p, start, pos) && number == DigitsAt(p, start, pos)
    ensures r.Done? ==> pos < r.next <= |p| - 1 && p[r.next - 1] == '}' && 0 < r.value <= 0x7FFF_FFFF
    ensures r.Done? ==> DigitsIn(p, start, r.next - 1) && r.value == DigitsAt(p, start, r.next - 1)
    decreases |p| - pos
  {
    var ch := p[pos];
    var pos1 := pos + 1;
    if '0' <= ch <= '9' then
      var exact := number * 10 + DigitValue(ch);
      DigitsStep(p, start, pos);
      if exact > 0x7FFF_FFFF then Fail(CountTooLarge, pos1) else CountLoop(p, start, pos1, exact)
    else if ch != '}' then Fail(BadCountChar(ch), pos1)
    else if number == 0 then Fail(ZeroCount, pos1)
    else Done(number, pos1)
  }

  /** One more digit: the number so far times ten plus the digit. */
  lemma DigitsStep(p: string, start: int, pos: int)
    requires 0 <= start <= pos < |p| && '0' <= p[pos] <= '9'
    ensures DigitsIn(p, start, pos) ==>
      DigitsIn(p, start, pos + 1) && DigitsAt(p, start, pos + 1) == 10 * DigitsAt(p, start, pos) + DigitValue(p[pos])
  {
  }

  /** `parseGroupCount` as written, just after the `{`. */
  function ParseGroupCountAsWritten(p: string, pos: int): (r: Parsed<int>)
    requires RegexSpecs.Padded(p) && 0 <= pos <= |p| - 1
    ensures r.Done? ==> pos < r.next <= |p| - 1 && p[r.next - 1] == '}' && 0 < r.value <= 0x7FFF_FFFF
  {
    CountLoopAsWritten(p, pos, 0)
  }

  /** `parseGroupCount` with the overflow check made exact: a count is the
      number its digits denote. */
  function ParseGroupCount(p: string, pos: int): (r: Parsed<int>)
    requires RegexSpecs.Padded(p) && 0 <= pos <= |p| - 1
    ensures r.Done? ==> pos < r.next <= |p| - 1 && p[r.next - 1] == '}'
    ensures r.Done? ==> IsDigits(p[pos..r.next - 1]) && r.value == DigitsValue(p[pos..r.next - 1])
    ensures r.Done? ==> 0 < r.value <= 0x7FFF_FFFF
  {
    var r := CountLoop(p, pos, pos, 0);
    if r.Done? then DigitsAtValue(p, pos, r.next - 1); r else r
  }

  lemma {:induction false} CountLoopReads(p: string, start: int, pos: int, k: int)
    requires RegexSpecs.Padded(p) && 0 <= start <= pos <= k < |p| - 2
    requires DigitsIn(p, start, k) && p[k] == '}' && 0 < DigitsAt(p, start, k) <= 0x7FFF_FFFF
    ensures DigitsAt(p, start, pos) <= DigitsAt(p, start, k)
    ensures CountLoop(p, start, pos, DigitsAt(p, start, pos)) == Done(DigitsAt(p, start, k), k + 1)
    decreases k - pos
  {
    DigitsAtMonotone(p, start, pos, k);
    if pos < k {
      DigitsAtMonotone(p, start, pos + 1, k);
      CountLoopReads(p, start, pos + 1, k);
    }
  }

  /** Every positive count up to 2^31 - 1, closed by `}`, reads as the
      number its digits denote. */
  lemma GroupCountReads(p: string, pos: int, k: int)
    requires RegexSpecs.Padded(p) && 0 <= pos <= k < |p| - 2
    requires IsDigits(p[pos..k]) && p[k] == '}'
    requires 0 < DigitsValue(p[pos..k]) <= 0x7FFF_FFFF
    ensures ParseGroupCount(p, pos) == Done(DigitsValue(p[pos..k]), k + 1)
  {
    assert DigitsIn(p, pos, k) by {
      forall i | pos <= i < k ensures '0' <= p[i] <= '9' {
        assert p[i] == p[pos..k][i - pos];
      }
    }
    DigitsAtValue(p, pos, k);
    CountLoopReads(p, pos, pos, k);
  }

  /** As written, zeros after a count that stays below 2^31 multiply it by
      ten each, as they should. */
  lemma {:induction false} AsWrittenZeros(p: string, pos: int, k: int, number: int)
    requires 0 <= pos <= k < |p| && p[|p| - 1] == '\0'
    requires forall i :: pos <= i < k ==> p[i] == '0'
    requires 0 < number && number * Pow10(k - pos) <= 0x7FFF_FFFF
    ensures number <= number * Pow10(k - pos)
    ensures CountLoopAsWritten(p, pos, number) == CountLoopAsWritten(p, k, number * Pow10(k - pos))
    decreases k - pos
  {
    if pos < k {
      var rest := Pow10(k - (pos + 1));
      assert number * Pow10(k - pos) == (number * 10) * rest;
      AsWrittenZeros(p, pos + 1, k, number * 10);
    }
  }

  /** As written, a `1` and ten zeros closed by `}` wrap past 2^32
      undetected and count 1410065408, while the digits denote 10^10. */
  lemma AsWrittenWraps(p: string)
    requires RegexSpecs.Padded(p) && |p| > 12 && p[0] == '1' && p[11] == '}'
    requires forall i :: 1 <= i < 11 ==> p[i] == '0'
    ensures ParseGroupCountAsWritten(p, 0) == Done(1410065408, 12)
    ensures IsDigits(p[..11]) && DigitsValue(p[..11]) == 10000000000
  {
    WrapCount(p);
    TenZeros(p);
  }

  lemma WrapCount(p: string)
    requires |p| > 12 && p[|p| - 1] == '\0' && p[0] == '1' && p[11] == '}'
    requires forall i :: 1 <= i < 11 ==> p[i] == '0'
    ensures CountLoopAsWritten(p, 0, 0) == Done(1410065408, 12)
  {
    FirstDigit(p);
    assert Pow10(9) == 1000000000;
    AsWrittenZeros(p, 1, 10, 1);
    LastZeroWraps(p);
  }

  lemma FirstDigit(p: string)
    requires |p| > 1 && p[|p| - 1] == '\0' && p[0] == '1'
    ensures CountLoopAsWritten(p, 0, 0) == CountLoopAsWritten(p, 1, 1)
  {
    assert Int32(1) == 1;
  }

  lemma LastZeroWraps(p: string)
    requires |p| > 12 && p[|p| - 1] == '\0' && p[10] == '0' && p[11] == '}'
    ensures CountLoopAsWritten(p, 10, 1000000000) == Done(1410065408, 12)
  {
    WrapValue();
    assert CountLoopAsWritten(p, 10, 1000000000) == CountLoopAsWritten(p, 11, 1410065408);
  }

  /** 10^10 in 32-bit two's complement. */
  lemma WrapValue()
    ensures Int32(10000000000) == 1410065408
  {
    assert 10000000000 % 0x1_0000_0000 == 1410065408;
  }

  lemma TenZeros(p: string)
    requires |p| > 12 && p[0] == '1' && forall i :: 1 <= i < 11 ==> p[i] == '0'
    ensures IsDigits(p[..11]) && DigitsValue(p[..11]) == 10000000000
  {
    DigitsAtPowers(p, 11);
    DigitsAtValue(p, 0, 11);
    assert p[0..11] == p[..11];
    assert Pow10(10) == 10000000000;
  }

  /** The digits of `1` followed by zeros denote a power of ten. */
  lemma {:induction false} DigitsAtPowers(p: string, k: int)
    requires 1 <= k <= |p| && p[0] == '1' && forall i :: 1 <= i < k ==> p[i] == '0'
    ensures DigitsIn(p, 0, k) && DigitsAt(p, 0, k) == Pow10(k - 1)
    decreases k
  {
    if k > 1 {
      DigitsAtPowers(p, k - 1);
    }
  }

  function Pow10(n: nat): (r: nat)
    ensures r >= 1
  {
    if n == 0 then 1 else 10 * Pow10(n - 1)
  }

  // ---------------------------------------------------------------------
  // Character sets.

  const NoChar: int := -1

  /** The ranges `pairs[2k]..pairs[2k+1]` cover `c`. */
  predicate InPairs(pairs: seq<int>, c: int) {
    exists k :: 0 <= k < |pairs| / 2 && pairs[2 * k] <= c <= pairs[2 * k + 1]
  }

  /** `SetOfChar.add(ranges, singles)` on an empty set. */
  function SetOf(pairs: seq<int>, singles: seq<int>): set<int> {
    set c: int | 0 <= c <= MaxChar && (c in singles || InPairs(pairs, c))
  }

  /** `SetOfChar.invert`. */
  function Complement(cs: set<int>): (r: set<int>)
    ensures forall c :: 0 <= c <= MaxChar ==> (c in r <==> c !in cs)
  {
    set c: int | 0 <= c <= MaxChar && c !in cs
  }

  /** The loop of `parseCharSet` from `pos`, with `first` the position of
      the first character inside the brackets and `last` the pending
      character. A `]` ends the set except as its first character; a `-`,
      and the `\0` of a pattern that goes on, between a pending character
      and anything but `]` or `\0` makes a range, its ends swapped when
      reversed; the `\0` of the padding means the set was never closed. */
  function SetLoop(p: string, first: int, pos: int, last: int, pairs: seq<int>, singles: seq<int>)
    : (r: Parsed<(seq<int>, seq<int>)>)
    requires RegexSpecs.Padded(p) && 0 <= first <= pos <= |p| - 1
    ensures r.Done? ==> pos < r.next <= |p| - 1 && p[r.next - 1] == ']'
    decreases |p| - pos
  {
    var sw := p[pos];
    var pos1 := pos + 1;
    if sw == '\0' && pos1 > |p| - 2 then
      Fail(UnterminatedSet(first - 1), pos1)
    else if (sw == '\0' || sw == '-') && last != NoChar && p[pos1] != ']' && p[pos1] != '\0' then
      var b := p[pos1] as int;
      var lo, hi := if last > b then b else last, if last > b then last else b;
      SetLoop(p, first, pos1 + 1, NoChar, pairs + [lo, hi], singles)
    else
      var singles1 := if last != NoChar then singles + [last] else singles;
      if sw != ']' || pos1 == first + 1 then SetLoop(p, first, pos1, sw as int, pairs, singles1)
      else Done((pairs, singles1), pos1)
  }

  /** `parseCharSet`, just after the `[`: an initial `^` inverts the set. */
  function ParseCharSet(p: string, pos: int): (r: Parsed<set<int>>)
    requires RegexSpecs.Padded(p) && 0 <= pos <= |p| - 1
    ensures r.Done? ==> pos < r.next <= |p| - 1 && p[r.next - 1] == ']'
    ensures r.Done? ==> forall c :: c in r.value ==> 0 <= c <= MaxChar
  {
    var invert := p[pos] == '^';
    var first := if invert then pos + 1 else pos;
    match SetLoop(p, first, first, NoChar, [], [])
    case Fail(m, at) => Fail(m, at)
    case Done((pairs, singles), next) =>
      var cs := SetOf(pairs, singles);
      Done(if invert then Complement(cs) else cs, next)
  }

  /** A set body without `]`, `-`, `^` or `\0`. */
  predicate PlainSetBody(w: string) {
    forall i :: 0 <= i < |w| ==> w[i] != ']' && w[i] != '-' && w[i] != '\0'
  }

  lemma {:induction false} PlainSetLoop(p: string, first: int, pos: int, last: int, singles: seq<int>, w: string)
    requires RegexSpecs.Padded(p) && 0 <= first <= pos && pos + |w| < |p| - 2
    requires p[pos..pos + |w|] == w && p[pos + |w|] == ']' && PlainSetBody(w)
    requires pos + |w| > first
    requires last == NoChar || 0 <= last
    ensures var r := SetLoop(p, first, pos, last, [], singles);
      r.Done? && r.next == pos + |w| + 1 && r.value.0 == [] &&
      forall c :: c in r.value.1 <==> c in singles || (last >= 0 && c == last) || c in RegexSpecs.CodeUnits(w)
    decreases |w|
  {
    if |w| > 0 {
      assert p[pos] == w[0];
      assert p[pos + 1..pos + 1 + |w[1..]|] == w[1..];
      var singles1 := if last != NoChar then singles + [last] else singles;
      PlainSetLoop(p, first, pos + 1, p[pos] as int, singles1, w[1..]);
      assert RegexSpecs.CodeUnits(w) == [w[0] as int] + RegexSpecs.CodeUnits(w[1..]);
    }
  }

  /** A set written as plain characters holds exactly those characters,
      and with a leading `^` exactly the others. */
  lemma PlainSetContents(p: string, pos: int, w: string, invert: bool)
    requires RegexSpecs.Padded(p) && 0 <= pos
    requires var start := if invert then pos + 1 else pos;
      start + |w| < |p| - 2 && p[start..start + |w|] == w && p[start + |w|] == ']' && PlainSetBody(w) && |w| > 0
    requires (p[pos] == '^') == invert
    ensures var r := ParseCharSet(p, pos);
      r.Done? && r.next == (if invert then pos + 1 else pos) + |w| + 1 &&
      forall c :: 0 <= c <= MaxChar ==> (c in r.value <==> invert != (c in RegexSpecs.CodeUnits(w)))
  {
    var start := if invert then pos + 1 else pos;
    assert p[start] == w[0];
    PlainSetLoop(p, start, start, NoChar, [], w);
    var singles := SetLoop(p, start, start, NoChar, [], []).value.1;
    forall c | 0 <= c <= MaxChar ensures c in SetOf([], singles) <==> c in RegexSpecs.CodeUnits(w) {
      assert !InPairs([], c);
    }
  }

  // ---------------------------------------------------------------------
  // Expressions.

  /** `parseGroupCount` as written, or with the exact overflow check when
      `exact`. */
  function CountWith(p: string, pos: int, exact: bool): (r: Parsed<int>)
    requires RegexSpecs.Padded(p) && 0 <= pos <= |p| - 1
    ensures r.Done? ==> pos < r.next <= |p| - 1 && p[r.next - 1] == '}' && 0 < r.value <= 0x7FFF_FFFF
    ensures exact ==> r == ParseGroupCount(p, pos)
    ensures !exact ==> r == ParseGroupCountAsWritten(p, pos)
  {
    if exact then ParseGroupCount(p, pos) else ParseGroupCountAsWritten(p, pos)
  }

  /** `parseExpr` from `pos` with `groups` group numbers handed out so
      far, reading counts with `CountWith(_, _, exact)`: the graph and the
      group count afterwards. The graph holds one group for each number
      handed out while it was read. */
  function ParseExpr(p: string, pos: int, isSub: bool, exact: bool, groups: int): (r: Parsed<(Graph, int)>)
    requires RegexSpecs.Padded(p) && 0 <= pos <= |p| - 1
    ensures r.Done? ==> pos < r.next <= |p| - 1 && p[r.next - 1] == ')'
    ensures r.Done? ==> groups <= r.value.1 && GroupCount(r.value.0) == r.value.1 - groups
    decreases |p| - pos, 3
  {
    ExprLoop(p, pos, isSub, exact, [], [], groups)
  }

  /** The loop of `parseExpr`, with the alternatives finished so far and
      the elements of the current one: `|` starts a new alternative, `)`
      ends the expression, anything else is one element. */
  function ExprLoop(p: string, pos: int, isSub: bool, exact: bool, options: seq<Graph>, items: seq<Graph>, groups: int)
    : (r: Parsed<(Graph, int)>)
    requires RegexSpecs.Padded(p) && 0 <= pos <= |p| - 1
    ensures r.Done? ==> pos < r.next <= |p| - 1 && p[r.next - 1] == ')'
    ensures r.Done? ==> groups <= r.value.1
    ensures r.Done? ==> GroupCount(r.value.0) == GroupSum(options) + GroupSum(items) + (r.value.1 - groups)
    decreases |p| - pos, 2
  {
    var ch := p[pos];
    if ch == '|' then
      GroupSumSnoc(options, MakeSequence(items));
      ExprLoop(p, pos + 1, isSub, exact, options + [MakeSequence(items)], [], groups)
    else if ch == ')' then Done((Finish(options, items), groups), pos + 1)
    else ElementThen(p, pos, isSub, exact, options, items, groups)
  }

  /** One element of the current alternative, then the rest of the loop. */
  function ElementThen(p: string, pos: int, isSub: bool, exact: bool, options: seq<Graph>, items: seq<Graph>, groups: int)
    : (r: Parsed<(Graph, int)>)
    requires RegexSpecs.Padded(p) && 0 <= pos <= |p| - 1
    ensures r.Done? ==> pos < r.next <= |p| - 1 && p[r.next - 1] == ')'
    ensures r.Done? ==> groups <= r.value.1
    ensures r.Done? ==> GroupCount(r.value.0) == GroupSum(options) + GroupSum(items) + (r.value.1 - groups)
    decreases |p| - pos, 1
  {
    var e := Element(p, pos, isSub, exact, items, groups);
    if e.Fail? then Fail(e.problem, e.at) else ExprLoop(p, e.next, isSub, exact, options, e.value.0, e.value.1)
  }

  /** One pass of the loop of `parseExpr` on a character other than `|`
      and `)`: the elements and the group count afterwards, and the
      position after what was read. A group takes the next number before
      its content is read. A backslash takes the next character literally;
      the `\0` of the padding means the pattern ended without its `)`. */
  function Element(p: string, pos: int, isSub: bool, exact: bool, items: seq<Graph>, groups: int)
    : (r: Parsed<(seq<Graph>, int)>)
    requires RegexSpecs.Padded(p) && 0 <= pos <= |p| - 1
    ensures r.Done? ==> pos < r.next <= |p| - 1
    ensures r.Done? ==> groups <= r.value.1 && GroupSum(r.value.0) == GroupSum(items) + (r.value.1 - groups)
    decreases |p| - pos, 0
  {
    var ch := p[pos];
    var pos1 := pos + 1;
    if ch == '(' then
      match ParseExpr(p, pos1, true, exact, groups + 1)
      case Done((g, groups1), next) =>
        GroupSumSnoc(items, Group(groups, g));
        Done((items + [Group(groups, g)], groups1), next)
      case Fail(m, at) => Fail(m, at)
    else if ch == '{' then
      match CountWith(p, pos1, exact)
      case Done(n, next) =>
        (match MakeRepetition(items, n)
         case Some(items1) => Done((items1, groups), next)
         case None => Fail(MisplacedRepetition, next))
      case Fail(m, at) => Fail(m, at)
    else if ch == '*' || ch == '+' || ch == '?' then
      var code := if ch == '*' then ZeroOrGreater else if ch == '+' then OneOrGreater else ZeroOrOne;
      match MakeRepetition(items, code)
      case Some(items1) => Done((items1, groups), pos1)
      case None => Fail(MisplacedRepetition, pos1)
    else if ch == '.' then
      GroupSumSnoc(items, Simple(Chars(AllChars)));
      Done((items + [Simple(Chars(AllChars))], groups), pos1)
    else if ch == '[' then
      match ParseCharSet(p, pos1)
      case Done(cs, next) =>
        GroupSumSnoc(items, Simple(Chars(cs)));
        Done((items + [Simple(Chars(cs))], groups), next)
      case Fail(m, at) => Fail(m, at)
    else if ch == '\\' then
      if pos1 + 1 > |p| - 2 then Fail(BadTermination(isSub), pos1 + 1)
      else
        GroupSumSnoc(items, Char(p[pos1]));
        Done((items + [Char(p[pos1])], groups), pos1 + 1)
    else if ch == '\0' && pos1 > |p| - 2 then Fail(BadTermination(isSub), pos1)
    else
      GroupSumSnoc(items, Char(ch));
      Done((items + [Char(ch)], groups), pos1)
  }

  /** What `needEsc` promises the element reader: a character that needs
      no escape stands for itself, and a backslash makes the character
      after it stand for itself. */
  lemma LiteralElement(p: string, pos: int, isSub: bool, exact: bool, items: seq<Graph>, groups: int)
    requires RegexSpecs.Padded(p) && 0 <= pos < |p| - 2
    ensures !NeedEsc(p[pos]) ==>
      Element(p, pos, isSub, exact, items, groups) == Done((items + [Char(p[pos])], groups), pos + 1)
    ensures p[pos] == '\\' && pos + 1 < |p| - 2 ==>
      Element(p, pos, isSub, exact, items, groups) == Done((items + [Char(p[pos + 1])], groups), pos + 2)
  {
  }

  /** No run of ten or more decimal digits: every count the pattern can
      hold is below 10^9, where the two count readers agree. */
  predicate ShortCounts(s: string) {
    forall i :: 0 <= i < |s| ==> !TenDigits(s, i)
  }

  /** Ten decimal digits start at `i`. */
  predicate TenDigits(s: string, i: int) {
    0 <= i && i + 10 <= |s| && DigitsIn(s, i, i + 10)
  }

  /** `parse` as written: counts read in 32-bit arithmetic, and only a
      stop before the last real character counts as extra characters. */
  function ParseAsWritten(s: string): (r: Parsed<Graph>)
    requires RegexSpecs.Utf16(s)
    ensures r.Done? ==> |s| <= r.next <= |s| + 1
  {
    var p := s + ")\0";
    assert RegexSpecs.Padded(p);
    match ParseExpr(p, 0, false, false, 0)
    case Done((g, _), next) => if next < |s| then Fail(ExtraCharacters, next) else Done(g, next)
    case Fail(m, at) => Fail(m, at)
  }

  /** `parse` with the exact count check and any stop before the padding
      counted as extra characters: a successful parse has read the whole
      pattern, and on a pattern without a run of ten digits it differs
      from the source only by refusing what it leaves unread. */
  function Parse(s: string): (r: Parsed<Graph>)
    requires RegexSpecs.Utf16(s)
    ensures r.Done? ==> r.next == |s| + 1
    ensures ShortCounts(s) ==> (ParseAsWritten(s).Fail? ==> r.Fail?)
    ensures ShortCounts(s) ==> (ParseAsWritten(s).Done? ==> (r.Done? <==> ParseAsWritten(s).next == |s| + 1))
    ensures ShortCounts(s) ==> (r.Done? ==> r == ParseAsWritten(s))
  {
    var p := s + ")\0";
    assert RegexSpecs.Padded(p);
    CountsIrrelevant(s);
    match ParseExpr(p, 0, false, true, 0)
    case Done((g, _), next) => if next <= |s| then Fail(ExtraCharacters, next) else Done(g, next)
    case Fail(m, at) => Fail(m, at)
  }

  /** Without a run of ten digits the count reader makes no difference. */
  lemma CountsIrrelevant(s: string)
    requires RegexSpecs.Utf16(s)
    ensures RegexSpecs.Padded(s + ")\0")
    ensures ShortCounts(s) ==> ParseExpr(s + ")\0", 0, false, false, 0) == ParseExpr(s + ")\0", 0, false, true, 0)
  {
    var p := s + ")\0";
    assert RegexSpecs.Padded(p);
    if ShortCounts(s) {
      assert ShortCounts(p) by {
        forall i ensures !TenDigits(p, i) {
          if 0 <= i && i + 10 <= |p| {
            if i + 10 <= |s| {
              assert !TenDigits(s, i);
              assert forall j :: i <= j < i + 10 ==> p[j] == s[j];
            } else {
              assert p[|s|] == ')';
            }
          }
        }
      }
      ExprLoopCounts(p, 0, false, [], [], 0);
    }
  }

  lemma {:induction false} ExprLoopCounts(p: string, pos: int, isSub: bool, options: seq<Graph>, items: seq<Graph>, groups: int)
    requires RegexSpecs.Padded(p) && ShortCounts(p) && 0 <= pos <= |p| - 1
    ensures ExprLoop(p, pos, isSub, false, options, items, groups) == ExprLoop(p, pos, isSub, true, options, items, groups)
    decreases |p| - pos, 2
  {
    var ch := p[pos];
    if ch == '|' {
      ExprLoopCounts(p, pos + 1, isSub, options + [MakeSequence(items)], [], groups);
    } else if ch != ')' {
      ElementThenCounts(p, pos, isSub, options, items, groups);
    }
  }

  lemma {:induction false} ElementThenCounts(p: string, pos: int, isSub: bool, options: seq<Graph>, items: seq<Graph>, groups: int)
    requires RegexSpecs.Padded(p) && ShortCounts(p) && 0 <= pos <= |p| - 1
    ensures ElementThen(p, pos, isSub, false, options, items, groups) == ElementThen(p, pos, isSub, true, options, items, groups)
    decreases |p| - pos, 1
  {
    ElementCounts(p, pos, isSub, items, groups);
    var e := Element(p, pos, isSub, true, items, groups);
    if e.Done? {
      ExprLoopCounts(p, e.next, isSub, options, e.value.0, e.value.1);
    }
  }

  lemma {:induction false} ElementCounts(p: string, pos: int, isSub: bool, items: seq<Graph>, groups: int)
    requires RegexSpecs.Padded(p) && ShortCounts(p) && 0 <= pos <= |p| - 1
    ensures Element(p, pos, isSub, false, items, groups) == Element(p, pos, isSub, true, items, groups)
    decreases |p| - pos, 0
  {
    var ch := p[pos];
    if ch == '(' {
      ExprLoopCounts(p, pos + 1, true, [], [], groups + 1);
    } else if ch == '{' {
      assert !TenDigits(p, pos + 1);
      CountReadersAgree(p, pos + 1);
    }
  }

  /** Where fewer than ten digits follow, both count readers read the
      same. */
  lemma CountReadersAgree(p: string, pos: int)
    requires RegexSpecs.Padded(p) && 0 <= pos <= |p| - 1 && !TenDigits(p, pos)
    ensures ParseGroupCountAsWritten(p, pos) == ParseGroupCount(p, pos)
  {
    CountLoopsAgree(p, pos, pos);
  }

  lemma {:induction false} CountLoopsAgree(p: string, start: int, pos: int)
    requires RegexSpecs.Padded(p) && !TenDigits(p, start) && 0 <= start <= pos <= |p| - 1 && pos - start < 10
    requires DigitsIn(p, start, pos) && DigitsAt(p, start, pos) < Pow10(pos - start) <= 1000000000
    ensures CountLoopAsWritten(p, pos, DigitsAt(p, start, pos)) == CountLoop(p, start, pos, DigitsAt(p, start, pos))
    decreases |p| - pos
  {
    if '0' <= p[pos] <= '9' {
      CountStep(p, start, pos);
      CountLoopsAgree(p, start, pos + 1);
    }
  }

  /** A digit within the ten: the next number stays below 10^9, so the
      32-bit step is exact and does not look like an overflow. */
  lemma CountStep(p: string, start: int, pos: int)
    requires !TenDigits(p, start) && 0 <= start <= pos < |p| && pos - start < 10
    requires DigitsIn(p, start, pos) && DigitsAt(p, start, pos) < Pow10(pos - start)
    requires '0' <= p[pos] <= '9'
    ensures pos + 1 - start < 10 && DigitsIn(p, start, pos + 1)
    ensures var n := DigitsAt(p, start, pos + 1);
      n == DigitsAt(p, start, pos) * 10 + DigitValue(p[pos]) && n < Pow10(pos + 1 - start) <= 1000000000 &&
      Int32(n) == n && n >= DigitsAt(p, start, pos)
  {
    DigitsStep(p, start, pos);
    assert pos + 1 - start != 10;
    Pow10Monotone(pos + 1 - start, 9);
    assert Pow10(9) == 1000000000;
  }

  lemma {:induction false} Pow10Monotone(a: nat, b: nat)
    requires a <= b
    ensures Pow10(a) <= Pow10(b)
    decreases b
  {
    if a < b {
      Pow10Monotone(a, b - 1);
    }
  }

  /** The graph of a literal: one node per character, each reading its
      character and leading to the next. */
  function Chain(s: string): (r: seq<Graph>)
    ensures |r| == |s| && forall i :: 0 <= i < |s| ==> r[i] == Char(s[i])
  {
    seq(|s|, i requires 0 <= i < |s| => Char(s[i]))
  }

  /** One escaped character of a literal is one element reading it. */
  lemma EscapedChar(p: string, pos: int, c: char, items: seq<Graph>, groups: int)
    requires RegexSpecs.Padded(p) && 0 <= pos && pos + |EscChar(c)| <= |p| - 2
    requires p[pos] == EscChar(c)[0] && (NeedEsc(c) ==> p[pos + 1] == c)
    ensures ExprLoop(p, pos, false, true, [], items, groups)
      == ExprLoop(p, pos + |EscChar(c)|, false, true, [], items + [Char(c)], groups)
  {
    var e := Element(p, pos, false, true, items, groups);
    assert e == Done((items + [Char(c)], groups), pos + |EscChar(c)|);
    assert ExprLoop(p, pos, false, true, [], items, groups) == ElementThen(p, pos, false, true, [], items, groups);
  }

  /** The first character of an escaped literal, and what is left of it. */
  lemma EscapedStep(p: string, pos: int, t: string, items: seq<Graph>, groups: int)
    requires RegexSpecs.Padded(p) && 0 <= pos && pos + |Escaped(t)| == |p| - 2
    requires p[pos..|p| - 2] == Escaped(t) && |t| > 0
    ensures var k := |EscChar(t[0])|;
      pos + k + |Escaped(t[1..])| == |p| - 2 && p[pos + k..|p| - 2] == Escaped(t[1..]) &&
      ExprLoop(p, pos, false, true, [], items, groups) == ExprLoop(p, pos + k, false, true, [], items + [Char(t[0])], groups)
  {
    var c := t[0];
    var k := |EscChar(c)|;
    var q := p[pos..|p| - 2];
    assert q == EscChar(c) + Escaped(t[1..]);
    assert p[pos] == q[0] == EscChar(c)[0];
    if NeedEsc(c) {
      assert p[pos + 1] == q[1] == c;
    }
    assert p[pos + k..|p| - 2] == q[k..];
    assert q[k..] == Escaped(t[1..]);
    EscapedChar(p, pos, c, items, groups);
  }

  lemma {:induction false} EscapedLoop(p: string, pos: int, t: string, items: seq<Graph>, groups: int)
    requires RegexSpecs.Padded(p) && 0 <= pos && pos + |Escaped(t)| == |p| - 2
    requires p[pos..|p| - 2] == Escaped(t)
    ensures ExprLoop(p, pos, false, true, [], items, groups) == Done((MakeSequence(items + Chain(t)), groups), |p| - 1)
    decreases |t|
  {
    if |t| == 0 {
      EscapedEnd(p, pos, t, items, groups);
    } else {
      EscapedStep(p, pos, t, items, groups);
      EscapedLoop(p, pos + |EscChar(t[0])|, t[1..], items + [Char(t[0])], groups);
      ChainCons(items, t);
    }
  }

  lemma EscapedEnd(p: string, pos: int, t: string, items: seq<Graph>, groups: int)
    requires RegexSpecs.Padded(p) && pos == |p| - 2 && |t| == 0
    ensures ExprLoop(p, pos, false, true, [], items, groups) == Done((MakeSequence(items + Chain(t)), groups), |p| - 1)
  {
    assert items + Chain(t) == items;
  }

  lemma ChainCons(items: seq<Graph>, t: string)
    requires |t| > 0
    ensures items + [Char(t[0])] + Chain(t[1..]) == items + Chain(t)
  {
  }

  lemma ParsesAs(s: string, g: Graph, groups: int)
    requires RegexSpecs.Utf16(s) && RegexSpecs.Padded(s + ")\0")
    requires ExprLoop(s + ")\0", 0, false, true, [], [], 0) == Done((g, groups), |s| + 1)
    ensures Parse(s) == Done(g, |s| + 1)
  {
  }

  /** An escaped literal parses as the chain of its characters. */
  lemma ParseEscaped(s: string)
    requires RegexSpecs.Utf16(s)
    ensures RegexSpecs.Utf16(Escaped(s))
    ensures Parse(Escaped(s)) == Done(MakeSequence(Chain(s)), |Escaped(s)| + 1)
  {
    EscapedExpr(s);
    ParsesAs(Escaped(s), MakeSequence(Chain(s)), 0);
  }

  lemma EscapedExpr(s: string)
    requires RegexSpecs.Utf16(s)
    ensures RegexSpecs.Utf16(Escaped(s)) && RegexSpecs.Padded(Escaped(s) + ")\0")
    ensures ExprLoop(Escaped(s) + ")\0", 0, false, true, [], [], 0) == Done((MakeSequence(Chain(s)), 0), |Escaped(s)| + 1)
  {
    var p := Escaped(s) + ")\0";
    EscapedPadded(s);
    EscapedLoop(p, 0, s, [], 0);
    assert [] + Chain(s) == Chain(s);
  }

  lemma EscapedPadded(s: string)
    requires RegexSpecs.Utf16(s)
    ensures RegexSpecs.Utf16(Escaped(s)) && RegexSpecs.Padded(Escaped(s) + ")\0")
    ensures (Escaped(s) + ")\0")[0..|Escaped(s)|] == Escaped(s)
  {
    EscapedChars(s);
    var e := Escaped(s);
    var p := e + ")\0";
    assert forall i :: 0 <= i < |p| ==> p[i] as int <= MaxChar by {
      forall i | 0 <= i < |p| ensures p[i] as int <= MaxChar {
        if i < |e| {
          assert p[i] == e[i];
        }
      }
    }
    assert p[0..|e|] == e;
  }

  /** Escaping adds only backslashes. */
  lemma {:induction false} EscapedChars(s: string)
    ensures forall i :: 0 <= i < |Escaped(s)| ==> Escaped(s)[i] == '\\' || Escaped(s)[i] in s
  {
    if |s| > 0 {
      EscapedChars(s[1..]);
      var e := Escaped(s);
      assert e == EscChar(s[0]) + Escaped(s[1..]);
      forall i | 0 <= i < |e| ensures e[i] == '\\' || e[i] in s {
        if i >= |EscChar(s[0])| {
          assert e[i] == Escaped(s[1..])[i - |EscChar(s[0])|];
        }
      }
    }
  }

  lemma {:induction false} ChainTotal(s: string)
    ensures Total(Chain(s)) == |s|
    decreases |s|
  {
    if |s| > 0 {
      var c := Chain(s);
      assert c[..|c| - 1] == Chain(s[..|s| - 1]);
      ChainTotal(s[..|s| - 1]);
    }
  }

  /** In the chain graph of a literal, node `i` has one exit, reading
      `s[i]` and leading to node `i + 1`; node `|s|` is the exit. */
  lemma ChainWiring(s: string, i: int, w: Wiring)
    requires 0 <= i < |s|
    ensures var g := MakeSequence(Chain(s));
      NodeCount(g) == |s| && IsNode(g, i) && ExitCount(g, i) == 1 &&
      TransitionChar(g, i, 0) == Chars({s[i] as int}) && ExitPeer(g, i, 0, w) == i + 1
  {
    var parts := Chain(s);
    ChainTotal(s);
    if |s| > 1 {
      var g := Sequence(parts);
      var k := Locate(parts, i);
      assert parts[..k] == Chain(s[..k]);
      ChainTotal(s[..k]);
      assert k == i && parts[k] == Char(s[i]);
      assert ExitCount(g, i) == ExitCount(Char(s[i]), 0) == 1;
      assert TransitionChar(g, i, 0) == TransitionChar(Char(s[i]), 0, 0);
      assert ExitPeer(g, i, 0, w) == SequencePeer(parts, i, 0, w) == ExitPeer(Char(s[i]), 0, 0, w) + i;
    }
  }
}
