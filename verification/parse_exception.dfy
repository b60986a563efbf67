/** The exception the parser and the scanner raise: a message, the source
    context, an optional list of expected symbols and a location. */
module ParseExceptions {
  import opened Wrappers
  import opened Symbols
  import opened Text
  import opened ParseNodes

  datatype ParseException = ParseException(
    msg: string,
    source: string,
    expected: Option<seq<Terminal>>,
    location: Option<SourcePos>)

  /** The three-argument constructor: no expected list. */
  function Make(msg: string, source: string, loc: Option<SourcePos>): (e: ParseException)
    ensures e.msg == msg && e.source == source && e.location == loc
    ensures e.expected.None?
  {
    ParseException(msg, source, None, loc)
  }

  /** The four-argument constructor keeps the expected list only when it is
      non-empty. */
  function MakeExpecting(msg: string, source: string, expectedList: seq<Terminal>, loc: Option<SourcePos>): (e: ParseException)
    ensures e.msg == msg && e.source == source && e.location == loc
    ensures e.expected.Some? <==> |expectedList| > 0
    ensures e.expected.Some? ==> e.expected.value == expectedList
  {
    var e := Make(msg, source, loc);
    if |expectedList| > 0 then e.(expected := Some(expectedList)) else e
  }

  /** `getExpectationStr`: the first expected symbol, then each later one
      after a single space; empty without a list. */
  function ExpectationString(e: ParseException): string {
    if e.expected.None? || |e.expected.value| == 0 then ""
    else FirstThenEachPreceded(Strings(e.expected.value), " ")
  }

  function Strings(ts: seq<Terminal>): (r: seq<string>)
    ensures |r| == |ts|
    ensures forall i :: 0 <= i < |ts| ==> r[i] == TerminalString(ts[i])
  {
    if |ts| == 0 then [] else [TerminalString(ts[0])] + Strings(ts[1..])
  }

  /** The expectation string is the expected symbols joined by single spaces. */
  lemma ExpectationStringJoins(e: ParseException)
    ensures e.expected.None? ==> ExpectationString(e) == ""
    ensures e.expected.Some? ==> ExpectationString(e) == Join(Strings(e.expected.value), " ")
  {
    if e.expected.Some? && |e.expected.value| > 0 {
      FirstThenEachIsJoin(Strings(e.expected.value), " ");
    }
  }

  /** `getParserMsg`: the message, " on ", the location (or "null"), then
      " while looking for: " and the expectation string. */
  function ParserMessage(e: ParseException): (s: string)
    ensures |s| >= |e.msg| + |ExpectationString(e)|
    ensures s[..|e.msg|] == e.msg
    ensures s[|s| - |ExpectationString(e)|..] == ExpectationString(e)
  {
    var loc := if e.location.Some? then PosString(e.location.value) else "null";
    e.msg + " on " + loc + " while looking for: " + ExpectationString(e)
  }

  /** A four-argument exception built with an empty list reads back an
      empty expectation string, and one built with a list reads back the
      list joined by spaces. */
  lemma MakeExpectingString(msg: string, source: string, expectedList: seq<Terminal>, loc: Option<SourcePos>)
    ensures ExpectationString(MakeExpecting(msg, source, expectedList, loc)) == Join(Strings(expectedList), " ")
  {
    ExpectationStringJoins(MakeExpecting(msg, source, expectedList, loc));
  }
}
