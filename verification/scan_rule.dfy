/** `ScanRule`: a pattern, the token it emits and an optional scanner state
    to switch to, with the default match action; and the escaping of a
    literal string for use in a pattern. */
module ScanRules {
  import opened Wrappers
  import opened Symbols
  import opened ParseNodes

  /** What a rule emits: the matched text, nothing (the scanner keeps
      going), or a fixed token. */
  datatype Emit = EmitMatch | EmitNothing | EmitToken(t: Terminal)

  const NoStateTrans: int := -1

  /** The class of the matched text when it is emitted as a token. */
  const StringClassName: string := "java.lang.String"

  datatype ScanRule = ScanRule(pattern: string, token: Emit, stateTrans: int)

  /** The three-argument constructor: a string pattern must not be empty. */
  function MakeRule(word: string, token: Emit, stateTrans: int): (r: Result<ScanRule>)
    ensures r.Ok? <==> |word| > 0
    ensures r.Ok? ==> r.value.pattern == word && r.value.token == token && r.value.stateTrans == stateTrans
  {
    if |word| == 0 then Err("A ScanRule string-match parameter must be at least one character")
    else Ok(ScanRule(word, token, stateTrans))
  }

  /** The one-argument constructor: emits the match and switches no state. */
  function MakeMatchRule(word: string): (r: Result<ScanRule>)
    ensures r.Ok? <==> |word| > 0
    ensures r.Ok? ==> r.value.token == EmitMatch && r.value.stateTrans == NoStateTrans && r.value.pattern == word
  {
    MakeRule(word, EmitMatch, NoStateTrans)
  }

  /** `hasStateTransition`. */
  predicate HasStateTransition(r: ScanRule) {
    r.stateTrans >= 0
  }

  /** What a match action may do to the scanner that called it. */
  datatype ScannerOp =
    | StateTrans(newState: int)
    | IncLineNo
    | SetLineNo(line: int)
    | SetStateData(v: Value)

  /** A token as the scanner hands it on, or nothing. */
  datatype ScanOut = Tok(t: Terminal) | Nothing

  /** The default `onMatch`: switch state when the rule has a transition,
      then emit group 0 of the match for `EmitMatch` and the configured
      token otherwise. */
  function OnMatch(r: ScanRule, matchGroups: seq<string>): (res: Result<(ScanOut, seq<ScannerOp>)>)
    ensures res.Ok? <==> r.token != EmitMatch || |matchGroups| > 0
    ensures res.Ok? ==> res.value.1 == (if HasStateTransition(r) then [StateTrans(r.stateTrans)] else [])
    ensures res.Ok? ==> (res.value.0.Nothing? <==> r.token == EmitNothing)
    ensures res.Ok? && r.token == EmitMatch ==> res.value.0 == Tok(Lit(matchGroups[0], StringClassName))
    ensures res.Ok? && r.token.EmitToken? ==> res.value.0 == Tok(r.token.t)
  {
    var ops := if HasStateTransition(r) then [StateTrans(r.stateTrans)] else [];
    match r.token
    case EmitMatch =>
      if |matchGroups| == 0 then Err("ArrayIndexOutOfBoundsException")
      else Ok((Tok(Lit(matchGroups[0], StringClassName)), ops))
    case EmitNothing => Ok((Nothing, ops))
    case EmitToken(t) => Ok((Tok(t), ops))
  }

  /** The characters a pattern treats specially. */
  predicate Special(c: char) {
    c == ']' || c == '[' || c == '(' || c == ')' || c == '{' || c == '}' ||
    c == '*' || c == '+' || c == '?' || c == '.' || c == '|' || c == '\\' ||
    c == '^' || c == '$'
  }

  /** `escapeLiteralStr`: a backslash before each special character. */
  function Escape(s: string): (r: string)
    ensures |r| >= |s|
    ensures (forall i :: 0 <= i < |s| ==> !Special(s[i])) ==> r == s
  {
    if |s| == 0 then ""
    else (if Special(s[0]) then ['\\', s[0]] else [s[0]]) + Escape(s[1..])
  }

  /** Reading an escaped string back: a backslash stands for the character
      after it. */
  function Unescape(s: string): (r: string)
    decreases |s|
  {
    if |s| == 0 then ""
    else if s[0] == '\\' && |s| >= 2 then [s[1]] + Unescape(s[2..])
    else [s[0]] + Unescape(s[1..])
  }

  /** Escaping loses nothing: the literal reads back from its escaped form. */
  lemma {:induction false} EscapeRoundTrip(s: string)
    ensures Unescape(Escape(s)) == s
  {
    if |s| > 0 {
      EscapeRoundTrip(s[1..]);
      var e := Escape(s);
      if Special(s[0]) {
        assert e == ['\\', s[0]] + Escape(s[1..]);
        assert e[2..] == Escape(s[1..]);
      } else {
        assert s[0] != '\\';
        assert e == [s[0]] + Escape(s[1..]);
        assert e[1..] == Escape(s[1..]);
      }
    }
  }

  /** Exactly one backslash is added per special character. */
  lemma {:induction false} EscapeLength(s: string)
    ensures |Escape(s)| == |s| + |Specials(s)|
  {
    if |s| > 0 {
      EscapeLength(s[1..]);
    }
  }

  /** The special characters of `s`, in order. */
  function Specials(s: string): (r: string)
    ensures |r| <= |s|
  {
    if |s| == 0 then "" else (if Special(s[0]) then [s[0]] else "") + Specials(s[1..])
  }
}
