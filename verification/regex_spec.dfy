/** `RegexSpec`: a hand-written LL(1) parser from a regex pattern to a tree
    of characters, character sets, groups, repetitions, alternatives and
    sequences. The pattern is read with `")\0"` appended, so that the end
    of the input looks like a closing parenthesis and the parser can read
    one character past it without a bounds check. */
module RegexSpecs {
  import opened Wrappers
  import opened Text
  import opened CharSets

  /** Repetition codes; a positive count is a `{n}` repetition. */
  const ZeroOrGreater: int := 0
  const OneOrGreater: int := -1
  const ZeroOrOne: int := -2

  datatype Node =
    | Chr(c: char)
    | CharClass(ranges: seq<Range>)
    | Group(content: Node)
    | Repetition(count: int, greedy: bool, content: Node)
    | Choice(options: seq<seq<Node>>)
    | Sequence(items: seq<Node>)

  /** How a parsing step ends: its value and the position after it, a
      `RegexSpec.ParseException` with its message, or another runtime
      exception. */
  datatype Parsed<T> = Done(value: T, next: int) | Fail(problem: Problem, at: int) | Crash(msg: string)

  /** The kinds of `RegexSpec.ParseException`; `Message` gives the text
      Java builds from the kind and the position. */
  datatype Problem =
    | MisplacedRepetition
    | CountTooLarge
    | ZeroCount
    | BadCountChar
    | UnterminatedSet(from: int)
    | BadTermination(isSub: bool)
    | ExtraCharacters

  function Message(e: Problem, at: int): string {
    "At " + IntString(at) + ": " +
    (match e
    case MisplacedRepetition => "Bad placement of repetition ( +, *, or {#} ) in pattern."
    case CountTooLarge => "Integer value too large."
    case ZeroCount => "Invalid count for \"{#}\" construct."
    case BadCountChar => "Invalid character while reading \"{#}\" construct."
    case UnterminatedSet(from) => "unterminated set of characters from position " + IntString(from) + " ( expecting ']' )"
    case BadTermination(isSub) => (if isSub then "subexpression" else "pattern") + " was incorrectly terminated."
    case ExtraCharacters => "Extra characters at end of pattern")
  }

  /** Java `char`s are 16-bit code units. */
  predicate Utf16(s: string) {
    forall i :: 0 <= i < |s| ==> s[i] as int <= MaxChar
  }

  /** The pattern with its two padding characters. */
  predicate Padded(p: string) {
    |p| >= 2 && p[|p| - 2] == ')' && p[|p| - 1] == '\0' && Utf16(p)
  }

  /** The characters that mean something outside a character set. */
  predicate Meta(c: char) {
    c == '[' || c == '{' || c == '(' || c == '*' || c == '?' || c == '+' ||
    c == '.' || c == '|' || c == ')' || c == '\\'
  }

  /** The value of a finished expression: the alternatives when there was a
      `|`, the one element of a one-element sequence, or the sequence. */
  function Finish(options: seq<seq<Node>>, items: seq<Node>): Node {
    if |options| > 0 then Choice(options + [items])
    else if |items| == 1 then items[0]
    else Sequence(items)
  }

  /** `RegexRepetition.combine`: a `?` after `*` or `+` makes that
      repetition non-greedy instead of nesting; anything else nests. */
  function Combine(rep: Node, code: int): (r: Node)
    requires rep.Repetition?
    ensures r.Repetition?
    ensures r == rep.(greedy := false) || r == Repetition(code, true, rep)
  {
    if code == ZeroOrOne && (rep.count == ZeroOrGreater || rep.count == OneOrGreater) then rep.(greedy := false)
    else Repetition(code, true, rep)
  }

  /** `makeRepetition`: the last element read becomes repeated; with no
      element the operator is misplaced. */
  function MakeRepetition(items: seq<Node>, code: int): (r: Option<seq<Node>>)
    ensures r.Some? <==> |items| > 0
    ensures r.Some? ==> |r.value| == |items| && r.value[..|items| - 1] == items[..|items| - 1]
    ensures r.Some? ==> var prev, last := items[|items| - 1], r.value[|items| - 1];
      last.Repetition? &&
      (if code == ZeroOrOne && prev.Repetition? && prev.count in {ZeroOrGreater, OneOrGreater}
       then last.count == prev.count && last.content == prev.content && !last.greedy
       else last.count == code && last.content == prev && last.greedy)
  {
    if |items| == 0 then None
    else
      var prev := items[|items| - 1];
      var repl := if prev.Repetition? then Combine(prev, code) else Repetition(code, true, prev);
      Some(items[..|items| - 1] + [repl])
  }

  // ---------------------------------------------------------------------
  // `{n}`.

  /** The digits of `{n}` from `pos`, with the number read so far from
      `start`; a number that could overflow on the next digit, a zero
      count and a terminator other than `}` are errors, in that order. */
  function DigitLoop(p: string, start: int, pos: int, number: int): (r: Parsed<int>)
    requires Padded(p) && 0 <= start <= pos <= |p| - 1
    requires DigitsIn(p, start, pos) && number == DigitsAt(p, start, pos) && number < 0x7FFF_FFFF
    ensures r.Done? ==> pos < r.next <= |p| - 1 && p[r.next - 1] == '}'
    ensures r.Done? ==> DigitsIn(p, start, r.next - 1) && r.value == DigitsAt(p, start, r.next - 1)
    ensures r.Done? ==> 0 < r.value < 0x7FFF_FFFF
    ensures !r.Crash?
    decreases |p| - pos
  {
    var ch := p[pos];
    if '0' <= ch <= '9' then
      if number >= (0x7FFF_FFFF - 9) / 10 then Fail(CountTooLarge, pos + 1)
      else DigitLoop(p, start, pos + 1, number * 10 + DigitValue(ch))
    else if number == 0 then Fail(ZeroCount, pos + 1)
    else if ch != '}' then Fail(BadCountChar, pos + 1)
    else Done(number, pos + 1)
  }

  /** `parseGroupCount`, just after the `{`: a positive count below
      2^31 - 1, written in decimal and closed by `}`. */
  function ParseGroupCount(p: string, pos: int): (r: Parsed<int>)
    requires Padded(p) && 0 <= pos <= |p| - 1
    ensures r.Done? ==> pos < r.next <= |p| - 1 && p[r.next - 1] == '}'
    ensures r.Done? ==> IsDigits(p[pos..r.next - 1]) && r.value == DigitsValue(p[pos..r.next - 1])
    ensures r.Done? ==> 0 < r.value < 0x7FFF_FFFF
    ensures !r.Crash?
  {
    var r := DigitLoop(p, pos, pos, 0);
    if r.Done? then DigitsAtValue(p, pos, r.next - 1); r else r
  }

  /** The guard reads the count before each digit, so the last digit may
      take it past the guard value: every count whose digits but the last
      are below `(0x7FFF_FFFF - 9) / 10`, up to 2147483629, reads back. */
  lemma {:induction false} DigitLoopReads(p: string, start: int, pos: int, k: int)
    requires Padded(p) && 0 <= start <= pos <= k < |p| - 2
    requires DigitsIn(p, start, k) && p[k] == '}'
    requires 0 < DigitsAt(p, start, k) && DigitsAt(p, start, k) / 10 < (0x7FFF_FFFF - 9) / 10
    ensures DigitsAt(p, start, pos) <= DigitsAt(p, start, k)
    ensures DigitLoop(p, start, pos, DigitsAt(p, start, pos)) == Done(DigitsAt(p, start, k), k + 1)
    decreases k - pos
  {
    DigitsAtMonotone(p, start, pos, k);
    if pos < k {
      assert DigitsAt(p, start, k - 1) == DigitsAt(p, start, k) / 10;
      DigitsAtMonotone(p, start, pos, k - 1);
      DigitLoopReads(p, start, pos + 1, k);
    }
  }

  /** A count of digits closed by `}` reads as the number it denotes when
      the number without its last digit is below the overflow guard. */
  lemma GroupCountReads(p: string, pos: int, k: int)
    requires Padded(p) && 0 <= pos <= k < |p| - 2
    requires IsDigits(p[pos..k]) && p[k] == '}'
    requires 0 < DigitsValue(p[pos..k]) && DigitsValue(p[pos..k]) / 10 < (0x7FFF_FFFF - 9) / 10
    ensures ParseGroupCount(p, pos) == Done(DigitsValue(p[pos..k]), k + 1)
  {
    assert DigitsIn(p, pos, k) by {
      forall i | pos <= i < k ensures '0' <= p[i] <= '9' {
        assert p[i] == p[pos..k][i - pos];
      }
    }
    DigitsAtValue(p, pos, k);
    DigitLoopReads(p, pos, pos, k);
  }

  /** The largest count the guard lets through. */
  lemma GroupCountLargest(p: string)
    requires Padded(p) && |p| > 12 && p[10] == '}'
    requires p[0] == '2' && p[1] == '1' && p[2] == '4' && p[3] == '7' && p[4] == '4' && p[5] == '8' && p[6] == '3' && p[7] == '6' && p[8] == '2' && p[9] == '9'
    ensures ParseGroupCount(p, 0) == Done(2147483629, 11)
  {
    assert DigitsIn(p, 0, 10);
    assert DigitsAt(p, 0, 1) == 2;
    assert DigitsAt(p, 0, 2) == 21;
    assert DigitsAt(p, 0, 3) == 214;
    assert DigitsAt(p, 0, 4) == 2147;
    assert DigitsAt(p, 0, 5) == 21474;
    assert DigitsAt(p, 0, 6) == 214748;
    assert DigitsAt(p, 0, 7) == 2147483;
    assert DigitsAt(p, 0, 8) == 21474836;
    assert DigitsAt(p, 0, 9) == 214748362;
    assert DigitsAt(p, 0, 10) == 2147483629;
    DigitsAtValue(p, 0, 10);
    GroupCountReads(p, 0, 10);
  }

  /** `{005120}` counts 5120. */
  lemma GroupCount5120()
    ensures Padded("005120})\0") && ParseGroupCount("005120})\0", 0) == Done(5120, 7)
  {
    var p := "005120})\0";
    assert Padded(p);
    assert p[0..6] == "005120";
    assert DigitsValue("005120") == 5120 by {
      assert "005120"[..5] == "00512" && "00512"[..4] == "0051" && "0051"[..3] == "005";
      assert "005"[..2] == "00" && "00"[..1] == "0" && "0"[..0] == "";
    }
    GroupCountReads(p, 0, 6);
  }

  // ---------------------------------------------------------------------
  // Character sets.

  /** The pending-character value meaning "none". Java uses `0x1000`,
      which is also the code unit of a real character; see `SetLoop`. */
  const NoneAsWritten: int := 0x1000
  const NoChar: int := -1

  /** What a set has gathered is well formed: range pairs in order, every
      value a code unit. */
  predicate Gathered(pairs: seq<int>, singles: seq<int>) {
    |pairs| % 2 == 0 &&
    (forall k :: 0 <= k < |pairs| / 2 ==> 0 <= pairs[2 * k] <= pairs[2 * k + 1] <= MaxChar) &&
    (forall k :: 0 <= k < |singles| ==> 0 <= singles[k] <= MaxChar)
  }

  /** The state between characters of a set is consistent: with a
      sentinel outside the code units, once one character has been read
      either one is pending or a range has been recorded. */
  predicate SetState(first: int, pos: int, none: int, last: int, pairs: seq<int>, singles: seq<int>) {
    (last == none || 0 <= last <= MaxChar) && Gathered(pairs, singles) &&
    (none < 0 && pos > first ==> last != none || |pairs| >= 2)
  }

  /** A set read from `pos` ends with the `]` just before `next`. */
  predicate ClosedSet(p: string, pos: int, next: int) {
    0 <= pos < next <= |p| - 1 && p[next - 1] == ']'
  }

  /** The loop of `parseCharSet` from `pos`, with `first` the position of
      the first character inside the brackets, `last` the pending
      character, and the range pairs and single characters gathered so
      far. A `]` ends the set except as its first character; a `-`
      between a pending character and anything but `]` or `\0` makes a
      range, its ends swapped when reversed; the `\0` of the padding means
      the set was never closed. */
  function SetLoop(p: string, first: int, pos: int, none: int, last: int, pairs: seq<int>, singles: seq<int>)
    : (r: Parsed<(seq<int>, seq<int>)>)
    requires Padded(p) && 0 <= first <= pos <= |p| - 1
    requires SetState(first, pos, none, last, pairs, singles)
    ensures r.Done? ==> ClosedSet(p, pos, r.next)
    ensures r.Done? ==> Gathered(r.value.0, r.value.1)
    ensures r.Done? && none < 0 ==> |r.value.0| / 2 + |r.value.1| > 0
    ensures !r.Crash?
    decreases |p| - pos
  {
    var sw := p[pos];
    var pos1 := pos + 1;
    if sw == '-' && last != none && p[pos1] != ']' && p[pos1] != '\0' then
      var b := p[pos1] as int;
      var lo, hi := if last > b then b else last, if last > b then last else b;
      assert 2 * (|pairs| / 2) == |pairs|;
      SetLoop(p, first, pos1 + 1, none, none, pairs + [lo, hi], singles)
    else if (sw == '-' || sw == '\0') && pos1 > |p| - 2 then
      Fail(UnterminatedSet(first - 1), pos1)
    else
      var singles1 := if last != none then singles + [last] else singles;
      if sw != ']' || pos1 == first + 1 then SetLoop(p, first, pos1, none, sw as int, pairs, singles1)
      else Done((pairs, singles1), pos1)
  }

  /** `parseCharSet` with a given "none" sentinel, just after the `[`: an
      initial `^` inverts the set. */
  function CharSetWith(p: string, pos: int, none: int): (r: Parsed<seq<Range>>)
    requires Padded(p) && 0 <= pos <= |p| - 1
    requires none < 0 || none == NoneAsWritten
    ensures r.Done? ==> ClosedSet(p, pos, r.next) && Canonical(r.value)
    ensures none < 0 ==> !r.Crash?
  {
    var invert := p[pos] == '^';
    var start := if invert then pos + 1 else pos;
    Bracketed(SetLoop(p, start, start, none, none, [], []), invert)
  }

  /** The end of `parseCharSet`: what the loop gathered made into a set. */
  function Bracketed(gathered: Parsed<(seq<int>, seq<int>)>, invert: bool): (r: Parsed<seq<Range>>)
    requires gathered.Done? ==> Gathered(gathered.value.0, gathered.value.1)
    ensures r.Fail? <==> gathered.Fail?
    ensures r.Done? ==> gathered.Done? && r.next == gathered.next && Canonical(r.value)
    ensures r.Crash? ==> gathered.Crash? || |gathered.value.0| / 2 + |gathered.value.1| == 0
  {
    match gathered
    case Fail(e, at) => Fail(e, at)
    case Crash(m) => Crash(m)
    case Done(v, next) =>
      match SetOf(v.0, v.1, invert)
      case Err(m) => Crash(m)
      case Ok(cs) => Done(cs, next)
  }

  /** The set a bracket expression denotes: its ranges and single
      characters, or every other code unit when inverted. Nothing gathered
      makes `new SetOfChar` fail. */
  function SetOf(pairs: seq<int>, singles: seq<int>, invert: bool): (r: Result<seq<Range>>)
    requires Gathered(pairs, singles)
    ensures r.Ok? <==> |pairs| / 2 + |singles| > 0
    ensures r.Ok? ==> Canonical(r.value)
    ensures r.Ok? ==> forall c :: 0 <= c <= MaxChar ==>
      (Contains(r.value, c) <==> invert != (Contains(PairRanges(pairs), c) || c in singles))
  {
    match MakeCharSet(pairs, singles)
    case Err(m) => Err(m)
    case Ok(cs) =>
      InvertComplement(cs);
      Ok(if invert then Invert(cs) else cs)
  }

  /** `parseCharSet` as written, with `0x1000` for "no pending character". */
  function CharSetAsWritten(p: string, pos: int): (r: Parsed<seq<Range>>)
    requires Padded(p) && 0 <= pos <= |p| - 1
    ensures r.Done? ==> Canonical(r.value)
  {
    CharSetWith(p, pos, NoneAsWritten)
  }

  /** `parseCharSet` with a sentinel that no code unit equals. */
  function ParseCharSet(p: string, pos: int): (r: Parsed<seq<Range>>)
    requires Padded(p) && 0 <= pos <= |p| - 1
    ensures r.Done? ==> pos < r.next <= |p| - 1 && Canonical(r.value)
    ensures !r.Crash?
  {
    CharSetWith(p, pos, NoChar)
  }

  /** A set body without `]`, `-`, `^` or `\0`. */
  predicate PlainSetBody(w: string) {
    forall i :: 0 <= i < |w| ==> w[i] != ']' && w[i] != '-' && w[i] != '\0'
  }

  lemma {:induction false} PlainSetLoop(p: string, first: int, pos: int, last: int, singles: seq<int>, w: string)
    requires Padded(p) && 0 <= first <= pos && pos + |w| < |p| - 2
    requires p[pos..pos + |w|] == w && p[pos + |w|] == ']' && PlainSetBody(w)
    requires pos + |w| > first
    requires SetState(first, pos, NoChar, last, [], singles)
    ensures var r := SetLoop(p, first, pos, NoChar, last, [], singles);
      r.Done? && r.next == pos + |w| + 1 && r.value.0 == [] &&
      forall c :: c in r.value.1 <==> c in singles || (last >= 0 && c == last) || c in CodeUnits(w)
    decreases |w|
  {
    if |w| > 0 {
      assert p[pos] == w[0];
      assert p[pos + 1..pos + 1 + |w[1..]|] == w[1..];
      var singles1 := if last != NoChar then singles + [last] else singles;
      PlainSetLoop(p, first, pos + 1, p[pos] as int, singles1, w[1..]);
      assert CodeUnits(w) == [w[0] as int] + CodeUnits(w[1..]);
    }
  }

  function CodeUnits(w: string): (r: seq<int>)
    ensures |r| == |w| && forall i :: 0 <= i < |w| ==> r[i] == w[i] as int
  {
    if |w| == 0 then [] else [w[0] as int] + CodeUnits(w[1..])
  }

  /** A set written as plain characters holds exactly those characters. */
  lemma PlainSetContents(p: string, pos: int, w: string)
    requires Padded(p) && 0 <= pos && pos + |w| < |p| - 2
    requires p[pos..pos + |w|] == w && p[pos + |w|] == ']' && PlainSetBody(w)
    requires |w| > 0 && w[0] != '^'
    ensures var r := ParseCharSet(p, pos);
      r.Done? && r.next == pos + |w| + 1 &&
      forall c :: Contains(r.value, c) <==> c in CodeUnits(w)
  {
    assert p[pos] == w[0];
    PlainSetLoop(p, pos, pos, NoChar, [], w);
  }

  /** As written, a U+1000 inside a set is taken for "no pending
      character": in `[aကb]` it is dropped. */
  lemma SentinelDropsChar()
    ensures Padded("aကb])\0")
    ensures var r := CharSetAsWritten("aကb])\0", 0);
      r.Done? && !Contains(r.value, 0x1000) && Contains(r.value, 'a' as int)
  {
    var p := "aကb])\0";
    assert Padded(p);
    var ab := ['a' as int, 'b' as int];
    assert p[3] == ']' && p[2] == 'b' && p[1] as int == NoneAsWritten && p[0] == 'a';
    assert ['a' as int] + ['b' as int] == ab;
    assert SetLoop(p, 0, 3, NoneAsWritten, 'b' as int, [], ['a' as int]) == Done(([], ab), 4);
    assert SetLoop(p, 0, 2, NoneAsWritten, NoneAsWritten, [], ['a' as int]) == Done(([], ab), 4);
    assert [] + ['a' as int] == ['a' as int];
    assert SetLoop(p, 0, 1, NoneAsWritten, 'a' as int, [], []) == Done(([], ab), 4);
    assert SetLoop(p, 0, 0, NoneAsWritten, NoneAsWritten, [], []) == Done(([], ab), 4);
    var cs := MakeCharSet([], ['a' as int, 'b' as int]).value;
    assert !Contains(cs, 0x1000);
    assert Contains(cs, 'a' as int);
  }

  // ---------------------------------------------------------------------
  // Expressions.

  /** `parseExpr`, with `none` the value `parseCharSet` takes for "no
      pending character": `NoneAsWritten` as in the source, or `NoChar`,
      which no code unit equals. Only the written sentinel can empty a set
      and so make the parse throw. */
  function ParseExpr(p: string, pos: int, isSub: bool, none: int): (r: Parsed<Node>)
    requires Padded(p) && 0 <= pos <= |p| - 1
    requires none < 0 || none == NoneAsWritten
    ensures r.Done? ==> pos < r.next <= |p| - 1 && p[r.next - 1] == ')'
    ensures none < 0 ==> !r.Crash?
    decreases |p| - pos, 2
  {
    ExprLoop(p, pos, isSub, none, [], [])
  }

  /** The loop of `parseExpr` from `pos`, with the alternatives finished so
      far and the elements of the current one: `|` starts a new
      alternative, `)` ends the expression, anything else is one element. */
  function ExprLoop(p: string, pos: int, isSub: bool, none: int, options: seq<seq<Node>>, items: seq<Node>)
    : (r: Parsed<Node>)
    requires Padded(p) && 0 <= pos <= |p| - 1
    requires none < 0 || none == NoneAsWritten
    ensures r.Done? ==> pos < r.next <= |p| - 1 && p[r.next - 1] == ')'
    ensures none < 0 ==> !r.Crash?
    decreases |p| - pos, 1
  {
    var ch := p[pos];
    if ch == '|' then ExprLoop(p, pos + 1, isSub, none, options + [items], [])
    else if ch == ')' then Done(Finish(options, items), pos + 1)
    else
      match Element(p, pos, isSub, none, items)
      case Done(items1, next) => ExprLoop(p, next, isSub, none, options, items1)
      case Fail(e, at) => Fail(e, at)
      case Crash(m) => Crash(m)
  }

  /** One pass of the loop of `parseExpr` on a character other than `|`
      and `)`: the elements afterwards and the position after what was
      read. A backslash takes the next character literally; the `\0` of
      the padding means the pattern ended without its `)`. */
  function Element(p: string, pos: int, isSub: bool, none: int, items: seq<Node>): (r: Parsed<seq<Node>>)
    requires Padded(p) && 0 <= pos <= |p| - 1
    requires none < 0 || none == NoneAsWritten
    ensures r.Done? ==> pos < r.next <= |p| - 1
    ensures none < 0 ==> !r.Crash?
    decreases |p| - pos, 0
  {
    var ch := p[pos];
    var pos1 := pos + 1;
    if ch == '[' then
      match CharSetWith(p, pos1, none)
      case Done(cs, next) => Done(items + [CharClass(cs)], next)
      case Fail(e, at) => Fail(e, at)
      case Crash(m) => Crash(m)
    else if ch == '{' then
      match ParseGroupCount(p, pos1)
      case Done(n, next) =>
        (match MakeRepetition(items, n)
         case Some(items1) => Done(items1, next)
         case None => Fail(MisplacedRepetition, next))
      case Fail(e, at) => Fail(e, at)
    else if ch == '(' then
      match ParseExpr(p, pos1, true, none)
      case Done(e, next) => Done(items + [Group(e)], next)
      case Fail(e, at) => Fail(e, at)
      case Crash(m) => Crash(m)
    else if ch == '*' || ch == '?' || ch == '+' then
      var code := if ch == '*' then ZeroOrGreater else if ch == '?' then ZeroOrOne else OneOrGreater;
      match MakeRepetition(items, code)
      case Some(items1) => Done(items1, pos1)
      case None => Fail(MisplacedRepetition, pos1)
    else if ch == '.' then Done(items + [CharClass(All)], pos1)
    else if ch == '\\' then
      if pos1 + 1 > |p| - 2 then Fail(BadTermination(isSub), pos1 + 1)
      else Done(items + [Chr(p[pos1])], pos1 + 1)
    else if ch == '\0' && pos1 > |p| - 2 then Fail(BadTermination(isSub), pos1)
    else Done(items + [Chr(ch)], pos1)
  }

  /** No character of `s` is the written sentinel U+1000. */
  predicate SentinelFree(s: string) {
    forall i :: 0 <= i < |s| ==> s[i] as int != NoneAsWritten
  }

  /** `parse` as written: the `0x1000` sentinel in sets, and only a stop
      before the last real character counts as extra characters. */
  function ParseAsWritten(s: string): (r: Parsed<Node>)
    requires Utf16(s)
    ensures r.Done? ==> |s| <= r.next <= |s| + 1
  {
    var p := s + ")\0";
    assert Padded(p);
    match ParseExpr(p, 0, false, NoneAsWritten)
    case Done(v, next) =>
      if next < |s| then Fail(ExtraCharacters, next) else Done(v, next)
    case Fail(e, at) => Fail(e, at)
    case Crash(m) => Crash(m)
  }

  /** `parse` with a sentinel no code unit equals and any stop before the
      padding counted as extra characters: it never throws anything but
      its own exception, a successful parse has read the whole pattern,
      and on a pattern without U+1000 it differs from the source only by
      refusing what it leaves unread. */
  function Parse(s: string): (r: Parsed<Node>)
    requires Utf16(s)
    ensures !r.Crash?
    ensures r.Done? ==> r.next == |s| + 1
    ensures SentinelFree(s) ==> (ParseAsWritten(s).Fail? ==> r.Fail?)
    ensures SentinelFree(s) ==> (ParseAsWritten(s).Done? ==> (r.Done? <==> ParseAsWritten(s).next == |s| + 1))
    ensures SentinelFree(s) ==> (r.Done? ==> r == ParseAsWritten(s))
    ensures SentinelFree(s) ==> !ParseAsWritten(s).Crash?
  {
    var p := s + ")\0";
    assert Padded(p);
    SentinelIrrelevant(s);
    match ParseExpr(p, 0, false, NoChar)
    case Done(v, next) =>
      if next <= |s| then Fail(ExtraCharacters, next) else Done(v, next)
    case Fail(e, at) => Fail(e, at)
    case Crash(m) => Crash(m)
  }

  /** On a pattern without U+1000 the sentinel makes no difference. */
  lemma SentinelIrrelevant(s: string)
    requires Utf16(s)
    ensures Padded(s + ")\0")
    ensures SentinelFree(s) ==> ParseExpr(s + ")\0", 0, false, NoneAsWritten) == ParseExpr(s + ")\0", 0, false, NoChar)
  {
    var p := s + ")\0";
    assert Padded(p);
    if SentinelFree(s) {
      assert SentinelFree(p) by {
        forall i | 0 <= i < |p| ensures p[i] as int != NoneAsWritten {
          if i < |s| { assert p[i] == s[i]; }
        }
      }
      ExprLoopSentinel(p, 0, false, [], []);
    }
  }

  lemma {:induction false} ExprLoopSentinel(p: string, pos: int, isSub: bool, options: seq<seq<Node>>, items: seq<Node>)
    requires Padded(p) && SentinelFree(p) && 0 <= pos <= |p| - 1
    ensures ExprLoop(p, pos, isSub, NoneAsWritten, options, items) == ExprLoop(p, pos, isSub, NoChar, options, items)
    decreases |p| - pos, 1
  {
    var ch := p[pos];
    if ch == '|' {
      ExprLoopSentinel(p, pos + 1, isSub, options + [items], []);
    } else if ch != ')' {
      ElementSentinel(p, pos, isSub, items);
      var e := Element(p, pos, isSub, NoChar, items);
      if e.Done? {
        ExprLoopSentinel(p, e.next, isSub, options, e.value);
      }
    }
  }

  lemma {:induction false} ElementSentinel(p: string, pos: int, isSub: bool, items: seq<Node>)
    requires Padded(p) && SentinelFree(p) && 0 <= pos <= |p| - 1
    ensures Element(p, pos, isSub, NoneAsWritten, items) == Element(p, pos, isSub, NoChar, items)
    decreases |p| - pos, 0
  {
    var ch := p[pos];
    if ch == '[' {
      CharSetSentinel(p, pos + 1);
    } else if ch == '(' {
      ExprLoopSentinel(p, pos + 1, true, [], []);
      assert ParseExpr(p, pos + 1, true, NoneAsWritten) == ParseExpr(p, pos + 1, true, NoChar);
    }
  }

  lemma CharSetSentinel(p: string, pos: int)
    requires Padded(p) && SentinelFree(p) && 0 <= pos <= |p| - 1
    ensures CharSetWith(p, pos, NoneAsWritten) == CharSetWith(p, pos, NoChar)
  {
    var start := if p[pos] == '^' then pos + 1 else pos;
    SetLoopSentinel(p, start, start, NoChar, [], []);
  }

  /** The set loop under the two sentinels, with the pending character
      `last` of the corrected run and its counterpart under `0x1000`. */
  lemma {:induction false} SetLoopSentinel(p: string, first: int, pos: int, last: int, pairs: seq<int>, singles: seq<int>)
    requires Padded(p) && SentinelFree(p) && 0 <= first <= pos <= |p| - 1
    requires SetState(first, pos, NoChar, last, pairs, singles) && last != NoneAsWritten
    ensures SetLoop(p, first, pos, NoneAsWritten, if last == NoChar then NoneAsWritten else last, pairs, singles)
      == SetLoop(p, first, pos, NoChar, last, pairs, singles)
    decreases |p| - pos
  {
    var sw := p[pos];
    var pos1 := pos + 1;
    if sw == '-' && last != NoChar && p[pos1] != ']' && p[pos1] != '\0' {
      var b := p[pos1] as int;
      var lo, hi := if last > b then b else last, if last > b then last else b;
      assert 2 * (|pairs| / 2) == |pairs|;
      SetLoopSentinel(p, first, pos1 + 1, NoChar, pairs + [lo, hi], singles);
    } else if (sw == '-' || sw == '\0') && pos1 > |p| - 2 {
    } else {
      var singles1 := if last != NoChar then singles + [last] else singles;
      if sw != ']' || pos1 == first + 1 {
        SetLoopSentinel(p, first, pos1, sw as int, pairs, singles1);
      }
    }
  }

  /** As written, a set holding only U+1000 is empty and its construction
      throws. */
  lemma SentinelAloneCrashes()
    ensures Utf16("[က]") && ParseAsWritten("[က]").Crash?
  {
    var p := "[က]" + ")\0";
    assert Utf16("[က]") && Padded(p);
    assert p[0] == '[' && p[1] as int == NoneAsWritten && p[2] == ']' && p[3] == ')';
    OnlySentinelDropped(p);
    assert Element(p, 0, false, NoneAsWritten, []).Crash?;
    assert ExprLoop(p, 0, false, NoneAsWritten, [], []).Crash?;
  }

  /** As written the loop over `[` U+1000 `]` gathers nothing. */
  lemma OnlySentinelDropped(p: string)
    requires Padded(p) && |p| == 5
    requires p[0] == '[' && p[1] as int == NoneAsWritten && p[2] == ']'
    ensures CharSetWith(p, 1, NoneAsWritten).Crash?
  {
    assert SetLoop(p, 1, 2, NoneAsWritten, NoneAsWritten, [], []) == Done(([], []), 3);
    assert SetLoop(p, 1, 1, NoneAsWritten, NoneAsWritten, [], []) == Done(([], []), 3);
  }

  /** With a sentinel outside the code units, the same set holds exactly
      U+1000. */
  lemma SentinelAloneCorrected()
    ensures var r := Parse("[က]");
      r.Done? && r.value.CharClass? &&
      forall c :: 0 <= c <= MaxChar ==> (Contains(r.value.ranges, c) <==> c == 0x1000)
  {
    var p := "[က]" + ")\0";
    assert Utf16("[က]") && Padded(p);
    assert p[0] == '[' && p[1] as int == 0x1000 && p[2] == ']' && p[3] == ')';
    var cs := OnlySentinelSet(p);
    var cls := CharClass(cs);
    assert Element(p, 0, false, NoChar, []) == Done([] + [cls], 3);
    assert [] + [cls] == [cls];
    assert ExprLoop(p, 3, false, NoChar, [], [cls]) == Done(cls, 4);
    assert ExprLoop(p, 0, false, NoChar, [], []) == Done(cls, 4);
  }

  /** The set `[` U+1000 `]` read with a sentinel outside the code units. */
  lemma OnlySentinelSet(p: string) returns (cs: seq<Range>)
    requires Padded(p) && |p| == 5
    requires p[0] == '[' && p[1] as int == 0x1000 && p[2] == ']'
    ensures CharSetWith(p, 1, NoChar) == Done(cs, 3)
    ensures forall c :: 0 <= c <= MaxChar ==> (Contains(cs, c) <==> c == 0x1000)
  {
    OnlySentinelLoop(p);
    cs := OnlySentinelContents();
    assert CharSetWith(p, 1, NoChar) == Bracketed(Done(([], [0x1000]), 3), false);
  }

  lemma OnlySentinelLoop(p: string)
    requires Padded(p) && |p| == 5
    requires p[0] == '[' && p[1] as int == 0x1000 && p[2] == ']'
    ensures SetLoop(p, 1, 1, NoChar, NoChar, [], []) == Done(([], [0x1000]), 3)
  {
    var one := [0x1000];
    assert [] + one == one;
    assert SetLoop(p, 1, 2, NoChar, 0x1000, [], []) == Done(([], one), 3);
  }

  lemma OnlySentinelContents() returns (cs: seq<Range>)
    ensures SetOf([], [0x1000], false) == Ok(cs)
    ensures forall c :: 0 <= c <= MaxChar ==> (Contains(cs, c) <==> c == 0x1000)
  {
    var r := SetOf([], [0x1000], false);
    assert r.Ok?;
    cs := r.value;
    var none := PairRanges([]);
    assert none == [];
    forall c | 0 <= c <= MaxChar
      ensures Contains(cs, c) <==> c == 0x1000
    {
      assert !Contains(none, c);
      assert c in [0x1000] <==> c == 0x1000;
    }
  }

  /** As written, an unmatched `)` as the last character is accepted and
      ignored. */
  lemma TrailingParenAccepted()
    ensures Utf16("a)") && ParseAsWritten("a)") == Done(Chr('a'), 2)
    ensures Parse("a)").Fail?
  {
    var p := "a)" + ")\0";
    assert Utf16("a)") && Padded(p);
    assert p[0] == 'a' && p[1] == ')';
    assert ExprLoop(p, 1, false, NoneAsWritten, [], [Chr('a')]) == Done(Chr('a'), 2);
    assert [] + [Chr('a')] == [Chr('a')];
    assert Element(p, 0, false, NoneAsWritten, []) == Done([Chr('a')], 1);
    assert ParseExpr(p, 0, false, NoneAsWritten) == Done(Chr('a'), 2);
  }

  function Chrs(s: string): (r: seq<Node>)
    ensures |r| == |s| && forall i :: 0 <= i < |s| ==> r[i] == Chr(s[i])
  {
    seq(|s|, i requires 0 <= i < |s| => Chr(s[i]))
  }

  lemma {:induction false} LiteralLoop(p: string, pos: int, items: seq<Node>)
    requires Padded(p) && 0 <= pos <= |p| - 2
    requires forall i :: pos <= i < |p| - 2 ==> !Meta(p[i])
    ensures ExprLoop(p, pos, false, NoChar, [], items) == Done(Finish([], items + Chrs(p[pos..|p| - 2])), |p| - 1)
    decreases |p| - pos
  {
    if pos < |p| - 2 {
      LiteralLoop(p, pos + 1, items + [Chr(p[pos])]);
      assert items + [Chr(p[pos])] + Chrs(p[pos + 1..|p| - 2]) == items + Chrs(p[pos..|p| - 2]);
    } else {
      assert p[pos..|p| - 2] == [];
      assert items + Chrs([]) == items;
    }
  }

  /** A pattern without metacharacters stands for its characters: one
      character alone, or the sequence of them. */
  lemma LiteralPattern(s: string)
    requires Utf16(s) && forall i :: 0 <= i < |s| ==> !Meta(s[i])
    ensures Parse(s) == Done(if |s| == 1 then Chr(s[0]) else Sequence(Chrs(s)), |s| + 1)
  {
    var p := s + ")\0";
    assert Padded(p);
    LiteralLoop(p, 0, []);
    assert p[0..|p| - 2] == s;
    assert [] + Chrs(s) == Chrs(s);
  }

  /** `a*?` is a non-greedy star rather than an optional star. */
  lemma NonGreedyStar()
    ensures Utf16("a*?") && Parse("a*?") == Done(Repetition(ZeroOrGreater, false, Chr('a')), 4)
  {
    var p := "a*?" + ")\0";
    assert Utf16("a*?") && Padded(p);
    var lazy := Repetition(ZeroOrGreater, false, Chr('a'));
    assert p[0] == 'a';
    NonGreedyRest(p);
    assert [] + [Chr('a')] == [Chr('a')];
    assert Element(p, 0, false, NoChar, []) == Done([Chr('a')], 1);
    assert ParseExpr(p, 0, false, NoChar) == Done(lazy, 4);
  }

  /** The `*?)` after the `a` of `a*?`. */
  lemma NonGreedyRest(p: string)
    requires p == "a*?)\0" && Padded(p)
    ensures ExprLoop(p, 1, false, NoChar, [], [Chr('a')]) == Done(Repetition(ZeroOrGreater, false, Chr('a')), 4)
  {
    var lazy := Repetition(ZeroOrGreater, false, Chr('a'));
    var eager := Repetition(ZeroOrGreater, true, Chr('a'));
    assert p[1] == '*';
    NonGreedyQuestion(p);
    assert Element(p, 1, false, NoChar, [Chr('a')]) == Done([eager], 2);
  }

  /** The `?)` of `a*?`: the `?` makes the star non-greedy. */
  lemma NonGreedyQuestion(p: string)
    requires p == "a*?)\0" && Padded(p)
    ensures ExprLoop(p, 2, false, NoChar, [], [Repetition(ZeroOrGreater, true, Chr('a'))])
      == Done(Repetition(ZeroOrGreater, false, Chr('a')), 4)
  {
    var lazy := Repetition(ZeroOrGreater, false, Chr('a'));
    var eager := Repetition(ZeroOrGreater, true, Chr('a'));
    assert p[2] == '?' && p[3] == ')';
    assert ExprLoop(p, 3, false, NoChar, [], [lazy]) == Done(lazy, 4);
    assert Element(p, 2, false, NoChar, [eager]) == Done([lazy], 3);
  }
}
