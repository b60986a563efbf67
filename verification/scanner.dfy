/** `Scanner`: a position/state machine over a character sequence that
    asks the current state's scan rules for a match, skips the matches
    that emit nothing, and reads EOF at the end of the input. Matching
    itself is a parameter: the outcomes of trying the candidate rules of
    the current state, in order, on the rest of the input. */
module Scanning {
  import opened Wrappers
  import opened Symbols
  import opened ParseNodes
  import opened ParseExceptions
  import opened ScanRules

  /** The scanner: the names of its states, one data slot per state, the
      current state, the position after the current token and its start,
      the line number and the position the line starts at, the current
      token and the input. */
  datatype Scanner = Scanner(
    stateNames: seq<string>,
    stateData: seq<Value>,
    state: int,
    pos: int,
    lastPos: int,
    lineNum: int,
    lineStart: int,
    token: ScanOut,
    data: string)

  /** What trying one rule gives: no match, a match (what its action did to
      the scanner, the token and the number of characters consumed), or an
      exception raised by the rule (its class name and message). */
  datatype Attempt = NoMatch | Match(ops: seq<ScannerOp>, out: ScanOut, consumed: int) | Threw(name: string, msg: string)

  /** The rule outcomes for a scanner in its current state on the rest of
      the input. */
  type Matcher = (Scanner, string) -> seq<Attempt>

  /** The outcome of scanning: the scanner with its next token, a
      `ParseException`, or another failure. */
  datatype ScanResult = Scanned(sc: Scanner) | Failed(e: ParseException) | Fatal(msg: string)

  /** The scanner's bookkeeping: one data slot per state, a valid state, and
      the line start and token start not past the position. */
  predicate ScannerOk(sc: Scanner) {
    |sc.stateData| == |sc.stateNames| && 0 <= sc.state < |sc.stateNames| &&
    0 <= sc.lineStart <= sc.pos && 0 <= sc.lastPos <= sc.pos
  }

  /** `curTokenPos`: the line, then the 1-based columns of the token's
      start and end relative to the start of the line. */
  function CurTokenPos(sc: Scanner): (p: SourcePos)
    ensures p.lineStart == p.lineEnd == sc.lineNum
    ensures p.charEnd - p.charStart == sc.pos - sc.lastPos
    ensures p.charStart == sc.lastPos - sc.lineStart + 1
  {
    SourcePos(sc.lineNum, sc.lastPos - sc.lineStart + 1, sc.lineNum, sc.pos - sc.lineStart + 1)
  }

  /** `getContext`: the input from the start of the line to 20 characters
      past the position, or to the end of the input. */
  function GetContext(sc: Scanner): (r: Result<string>)
    ensures r.Ok? <==> 0 <= sc.lineStart <= (if sc.pos + 20 < |sc.data| then sc.pos + 20 else |sc.data|)
    ensures r.Ok? ==> |r.value| <= 20 + sc.pos - sc.lineStart && sc.lineStart + |r.value| <= |sc.data|
    ensures r.Ok? ==> r.value == sc.data[sc.lineStart..sc.lineStart + |r.value|]
    ensures r.Ok? && sc.pos + 20 >= |sc.data| ==> r.value == sc.data[sc.lineStart..]
  {
    var end := if sc.pos + 20 < |sc.data| then sc.pos + 20 else |sc.data|;
    if 0 <= sc.lineStart <= end then Ok(sc.data[sc.lineStart..end]) else Err("StringIndexOutOfBoundsException")
  }

  /** `stateTrans`: indices outside the states fail; others become the
      current state. */
  function StateTransTo(sc: Scanner, newState: int): (r: Result<Scanner>)
    ensures r.Ok? <==> 0 <= newState < |sc.stateNames|
    ensures r.Ok? ==> r.value == sc.(state := newState)
  {
    if newState < 0 || newState >= |sc.stateNames| then Err("ArrayIndexOutOfBoundsException") else Ok(sc.(state := newState))
  }

  /** `incLineNo`: the next line, starting at the position. */
  function IncLine(sc: Scanner): (r: Scanner)
    ensures r.lineNum == sc.lineNum + 1 && r.lineStart == sc.pos
    ensures r.(lineNum := sc.lineNum, lineStart := sc.lineStart) == sc
  {
    sc.(lineNum := sc.lineNum + 1, lineStart := sc.pos)
  }

  /** `setLineNo`: any line number, starting at the position. */
  function SetLine(sc: Scanner, n: int): (r: Scanner)
    ensures r.lineNum == n && r.lineStart == sc.pos
    ensures r.(lineNum := sc.lineNum, lineStart := sc.lineStart) == sc
  {
    sc.(lineNum := n, lineStart := sc.pos)
  }

  /** `getStateData` and `setStateData`: the current state's slot. */
  function GetStateData(sc: Scanner): (v: Value)
    requires ScannerOk(sc)
  {
    sc.stateData[sc.state]
  }

  function SetStateData(sc: Scanner, v: Value): (r: Scanner)
    requires ScannerOk(sc)
    ensures ScannerOk(r) && GetStateData(r) == v && |r.stateData| == |sc.stateData|
    ensures forall i :: 0 <= i < |sc.stateData| && i != sc.state ==> r.stateData[i] == sc.stateData[i]
    ensures r.(stateData := sc.stateData) == sc
  {
    sc.(stateData := sc.stateData[sc.state := v])
  }

  /** `initAllStateData`: one slot per state, or a failure. */
  function InitAllStateData(sc: Scanner, newData: seq<Value>): (r: Result<Scanner>)
    ensures r.Ok? <==> |newData| == |sc.stateNames|
    ensures r.Ok? ==> r.value == sc.(stateData := newData)
  {
    if |newData| != |sc.stateNames| then Err("Array length mismatch") else Ok(sc.(stateData := newData))
  }

  /** One operation a rule's action performs. */
  function ApplyOp(sc: Scanner, op: ScannerOp): (r: Result<Scanner>)
    requires ScannerOk(sc)
    ensures r.Ok? ==> ScannerOk(r.value) && r.value.pos == sc.pos && r.value.lastPos == sc.lastPos &&
                      r.value.data == sc.data && r.value.stateNames == sc.stateNames
  {
    match op
    case StateTrans(k) => StateTransTo(sc, k)
    case IncLineNo => Ok(IncLine(sc))
    case SetLineNo(n) => Ok(SetLine(sc, n))
    case SetStateData(v) => Ok(SetStateData(sc, v))
  }

  /** The operations of a rule's action in order; the first failure ends
      them, leaving the scanner as the earlier ones left it. */
  function ApplyOps(sc: Scanner, ops: seq<ScannerOp>): (r: (Scanner, bool))
    requires ScannerOk(sc)
    ensures ScannerOk(r.0) && r.0.pos == sc.pos && r.0.lastPos == sc.lastPos &&
            r.0.data == sc.data && r.0.stateNames == sc.stateNames
    decreases |ops|
  {
    if |ops| == 0 then (sc, true)
    else match ApplyOp(sc, ops[0])
      case Err(_) => (sc, false)
      case Ok(sc1) => ApplyOps(sc1, ops[1..])
  }

  /** A `ParseException` at the scanner's current place. */
  function ErrorAt(sc: Scanner, msg: string): ScanResult {
    match GetContext(sc)
    case Err(m) => Fatal(m)
    case Ok(ctx) => Failed(ParseExceptions.Make(msg, ctx, Some(CurTokenPos(sc))))
  }

  /** The first attempt that did not come back empty. */
  function FirstHit(attempts: seq<Attempt>): (i: nat)
    ensures i <= |attempts|
    ensures forall j :: 0 <= j < i ==> attempts[j].NoMatch?
    ensures i < |attempts| ==> !attempts[i].NoMatch?
  {
    if |attempts| == 0 then 0
    else if attempts[0].NoMatch? then 1 + FirstHit(attempts[1..])
    else 0
  }

  /** The loop of `next` from the scanner's current position. */
  function Scan(sc: Scanner, matcher: Matcher): (r: ScanResult)
    requires ScannerOk(sc)
    ensures r.Scanned? ==> ScannerOk(r.sc) && r.sc.data == sc.data && r.sc.stateNames == sc.stateNames
    ensures r.Scanned? ==> sc.pos <= r.sc.lastPos <= r.sc.pos && !r.sc.token.Nothing?
    ensures r.Scanned? && r.sc.lastPos >= |sc.data| ==> r.sc.token == Tok(Eof) && r.sc.pos == r.sc.lastPos
    ensures r.Scanned? && r.sc.lastPos < |sc.data| ==> r.sc.lastPos < r.sc.pos
    ensures sc.pos >= |sc.data| ==> r == Scanned(sc.(lastPos := sc.pos, token := Tok(Eof)))
    decreases |sc.data| - sc.pos
  {
    var sc0 := sc.(lastPos := sc.pos);
    if sc0.pos >= |sc0.data| then Scanned(sc0.(token := Tok(Eof)))
    else
      var tail := sc0.data[sc0.pos..];
      var attempts := matcher(sc0, tail);
      var i := FirstHit(attempts);
      if i == |attempts| then
        ErrorAt(sc0, "Scan error while processing " + sc0.stateNames[sc0.state])
      else
        match attempts[i]
        case Threw(name, msg) => ErrorAt(sc0, name + ": " + msg)
        case Match(ops, out, consumed) =>
          var (sc1, ok) := ApplyOps(sc0, ops);
          if !ok then ErrorAt(sc1, "java.lang.ArrayIndexOutOfBoundsException: null")
          else if consumed <= 0 then Fatal("Error in spec: scan rule can potentially match empty string")
          else
            var sc2 := sc1.(pos := sc1.pos + consumed, token := out);
            if out.Nothing? then Scan(sc2, matcher) else Scanned(sc2)
  }

  /** `next`. */
  function Next(sc: Scanner, matcher: Matcher): (r: ScanResult)
    requires ScannerOk(sc)
    ensures r.Scanned? ==> ScannerOk(r.sc) && r.sc.data == sc.data && !r.sc.token.Nothing?
    ensures r.Scanned? ==> sc.pos <= r.sc.lastPos <= r.sc.pos
    ensures r.Scanned? && r.sc.lastPos < |sc.data| ==> r.sc.lastPos < r.sc.pos
    ensures sc.pos >= |sc.data| ==> r.Scanned? && r.sc.token == Tok(Eof) && r.sc.pos == sc.pos
  {
    Scan(sc.(token := Nothing), matcher)
  }

  /** The constructor: one empty data slot per state, line 1, and the
      first token scanned at once. */
  function MakeScanner(stateNames: seq<string>, data: string, matcher: Matcher): (r: ScanResult)
    requires |stateNames| > 0
    ensures r.Scanned? ==> |r.sc.stateData| == |stateNames| && r.sc.data == data && ScannerOk(r.sc)
  {
    Next(Scanner(stateNames, seq(|stateNames|, _ => Null), 0, 0, 0, 1, 0, Nothing, data), matcher)
  }

  /** At the end of the input `next` keeps reading EOF, without moving. */
  lemma EofForever(sc: Scanner, matcher: Matcher)
    requires ScannerOk(sc) && sc.pos >= |sc.data|
    ensures Next(sc, matcher).Scanned?
    ensures var r := Next(sc, matcher).sc;
      r.token == Tok(Eof) && r.pos == sc.pos && r.lastPos == sc.pos &&
      Next(r, matcher) == Scanned(r)
  {
  }

  /** The first rule that matches decides; the rules before it do not
      matter, and one that matches nothing is an error naming the state. */
  lemma FirstMatchWins(sc: Scanner, matcher: Matcher, k: nat)
    requires ScannerOk(sc) && sc.pos < |sc.data|
    requires var attempts := matcher(sc.(lastPos := sc.pos), sc.data[sc.pos..]);
      k < |attempts| && attempts[k].Match? && attempts[k].ops == [] && attempts[k].consumed > 0 &&
      attempts[k].out.Tok? && forall j :: 0 <= j < k ==> attempts[j].NoMatch?
    ensures var a := matcher(sc.(lastPos := sc.pos), sc.data[sc.pos..])[k];
      Scan(sc, matcher) == Scanned(sc.(lastPos := sc.pos, pos := sc.pos + a.consumed, token := a.out))
  {
    var attempts := matcher(sc.(lastPos := sc.pos), sc.data[sc.pos..]);
    assert FirstHit(attempts) == k;
  }

  /** When no rule of the current state matches, scanning fails with a
      `ParseException` naming the state, at the start of the token. */
  lemma NoRuleFails(sc: Scanner, matcher: Matcher)
    requires ScannerOk(sc) && sc.pos < |sc.data| && sc.lineStart <= |sc.data|
    requires var attempts := matcher(sc.(lastPos := sc.pos), sc.data[sc.pos..]);
      forall j :: 0 <= j < |attempts| ==> attempts[j].NoMatch?
    ensures Scan(sc, matcher).Failed?
    ensures Scan(sc, matcher).e.msg == "Scan error while processing " + sc.stateNames[sc.state]
    ensures Scan(sc, matcher).e.location == Some(CurTokenPos(sc.(lastPos := sc.pos)))
  {
  }

  /** A first matching rule that consumes nothing is a fault in the rules,
      not a scan error. */
  lemma EmptyMatchFatal(sc: Scanner, matcher: Matcher)
    requires ScannerOk(sc) && sc.pos < |sc.data|
    requires var attempts := matcher(sc.(lastPos := sc.pos), sc.data[sc.pos..]);
      |attempts| > 0 && attempts[0].Match? && attempts[0].ops == [] && attempts[0].consumed <= 0
    ensures Scan(sc, matcher) == Fatal("Error in spec: scan rule can potentially match empty string")
  {
  }
}
