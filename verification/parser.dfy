/** `Parser`: the table-driven shift-reduce loop over an explicit stack of
    (state, value, span) entries. */
module Parsing {
  import opened Wrappers
  import opened Seqs
  import opened Symbols
  import opened ParseNodes
  import opened ParseRules
  import opened ParseExceptions
  import opened Actions
  import opened TokenSources
  import Priorities
  import Tables

  /** A parser: its start symbol, its rules and the generated action and
      goto rows. `keyOrder[s]` is the order in which row `s` of the action
      table lists its keys (the hash map's iteration order), used for the
      expected list of a syntax error. */
  datatype Parser = Parser(
    start: Nonterminal,
    rules: seq<Rule>,
    actions: seq<map<Terminal, Tables.Cell>>,
    gotos: seq<map<Nonterminal, nat>>,
    keyOrder: seq<seq<Terminal>>)

  /** One key order per action row, listing that row's keys once each, as
      iterating the row's hash map does. */
  ghost predicate KeyOrderFits(actions: seq<map<Terminal, Tables.Cell>>, keyOrder: seq<seq<Terminal>>) {
    |keyOrder| == |actions| &&
    forall s :: 0 <= s < |actions| ==>
      NoDup(keyOrder[s]) && forall t :: t in actions[s] <==> t in keyOrder[s]
  }

  /** The rows agree in number and each key order lists its row's keys
      once each. */
  ghost predicate ParserOk(p: Parser) {
    |p.gotos| == |p.actions| && KeyOrderFits(p.actions, p.keyOrder)
  }

  /** The constructor: the generated tables, or a failure listing the
      conflicts when there are any. */
  function MakeParser(start: Nonterminal, rules: seq<Rule>, pris: Priorities.Store, keyOrder: seq<seq<Terminal>>): (r: Result<Parser>)
    requires Priorities.Valid(pris)
    ensures var tb := Tables.Generate(rules, start, pris);
      (r.Err? <==> tb.conflicts != {}) &&
      (r.Ok? ==> r.value.actions == tb.actions && r.value.gotos == tb.gotos &&
                 r.value.rules == rules && r.value.start == start)
    // a constructed parser can be run exactly when the key orders are its rows' iteration orders
    ensures r.Ok? ==> (ParserOk(r.value) <==> KeyOrderFits(r.value.actions, keyOrder))
  {
    var tb := Tables.Generate(rules, start, pris);
    if tb.conflicts != {} then Err("Grammar has conflicts")
    else Ok(Parser(start, rules, tb.actions, tb.gotos, keyOrder))
  }

  /** Every grammar without conflicts gives a parser that `Parse` accepts:
      each action row has some iteration order of its keys. */
  lemma MakeParserRuns(start: Nonterminal, rules: seq<Rule>, pris: Priorities.Store)
    requires Priorities.Valid(pris)
    requires Tables.Generate(rules, start, pris).conflicts == {}
    ensures exists keyOrder ::
      MakeParser(start, rules, pris, keyOrder).Ok? && ParserOk(MakeParser(start, rules, pris, keyOrder).value)
  {
    var actions := Tables.Generate(rules, start, pris).actions;
    var keyOrder := seq(|actions|, s requires 0 <= s < |actions| => Listing(actions[s].Keys));
    assert KeyOrderFits(actions, keyOrder);
    assert MakeParser(start, rules, pris, keyOrder).Ok?;
  }

  /** An entry of the parse stack: a state, the value built for it and the
      span it covers (possibly `null`). */
  datatype Entry = Entry(id: int, data: Value, pos: Option<SourcePos>)

  /** The parse stack, top last, and the token source. */
  datatype Config = Config(stack: seq<Entry>, src: ArraySource)

  /** The outcome of one pass of the loop, or of several: the loop goes on
      from a configuration, returns a value, throws a `ParseException`, or
      fails with another exception. */
  datatype Step = Continue(cfg: Config) | Accepted(v: Value) | Rejected(e: ParseException) | Crashed(msg: string)

  /** The action for a token: its own cell, or else the cell of its class. */
  function Lookup(row: map<Terminal, Tables.Cell>, tok: Terminal): (r: Option<ParseAction>)
    ensures tok in row ==> r == Some(row[tok].acn)
    ensures tok !in row ==> (r.Some? <==> ClassOf(tok) in row)
    ensures tok !in row && r.Some? ==> r.value == row[ClassOf(tok)].acn
  {
    if tok in row then Some(row[tok].acn)
    else if ClassOf(tok) in row then Some(row[ClassOf(tok)].acn)
    else None
  }

  /** The values of the top `n` entries as the pop loop collects them: the
      top one into the last slot, the rest below it. */
  function PopData(stack: seq<Entry>, n: nat): (vs: seq<Value>)
    requires n <= |stack|
    ensures |vs| == n
    ensures forall i :: 0 <= i < n ==> vs[i] == stack[|stack| - n + i].data
  {
    if n == 0 then []
    else PopData(stack[..|stack| - 1], n - 1) + [stack[|stack| - 1].data]
  }

  /** The popping half of a reduction by a rule of `n` symbols: the span,
      the values in left-to-right order and the stack left. The span runs
      from the start of the first popped entry to the end of the top one;
      an empty rule pops nothing and gets the default span. A `null` span
      on either end and a stack too short both fail. */
  function PopRule(stack: seq<Entry>, n: nat): (r: Result<(SourcePos, seq<Value>, seq<Entry>)>)
    requires |stack| > 0
    ensures n == 0 ==> r == Ok((DefaultPos, [], stack))
    ensures n > 0 ==>
      (r.Ok? <==> stack[|stack| - 1].pos.Some? && n <= |stack| && stack[|stack| - n].pos.Some?)
    ensures n > 0 && r.Ok? ==>
      var first := stack[|stack| - n].pos.value;
      var last := stack[|stack| - 1].pos.value;
      r.value.0 == SourcePos(first.lineStart, first.charStart, last.lineEnd, last.charEnd)
    ensures r.Ok? ==>
      n <= |stack| && r.value.2 == stack[..|stack| - n] &&
      |r.value.1| == n && forall i :: 0 <= i < n ==> r.value.1[i] == stack[|stack| - n + i].data
  {
    if n == 0 then Ok((DefaultPos, [], stack))
    else
      var top := stack[|stack| - 1];
      if top.pos.None? then Err("NullPointerException")
      else if n > |stack| then Err("EmptyStackException")
      else
        var st := stack[|stack| - n];
        if st.pos.None? then Err("NullPointerException")
        else
          var span := SourcePos(st.pos.value.lineStart, st.pos.value.charStart, top.pos.value.lineEnd, top.pos.value.charEnd);
          Ok((span, PopData(stack, n), stack[..|stack| - n]))
  }

  /** A REDUCE or ACCEPT by rule `r`: pop, build the value (a generic parse
      node in debug mode, the rule's handler otherwise), then return it if
      this is an ACCEPT that left one entry, or push it under the goto of
      the entry below. */
  function ReduceStep(p: Parser, stack: seq<Entry>, src: ArraySource, r: int, accept: bool, debug: bool): (s: Step)
    requires ParserOk(p) && |stack| > 0
    ensures s.Accepted? ==> accept && 0 <= r < |p.rules| && |stack| == |p.rules[r].symbols| + 1
    ensures !s.Crashed? ==> 0 <= r < |p.rules|
    ensures s.Continue? ==>
      var n := |p.rules[r].symbols|;
      n < |stack| && s.cfg.src == src && |s.cfg.stack| == |stack| - n + 1 &&
      s.cfg.stack[..|s.cfg.stack| - 1] == stack[..|stack| - n] &&
      !(accept && |stack| - n == 1)
    ensures s.Continue? ==>
      |p.rules[r].symbols| < |stack| &&
      var below := stack[|stack| - |p.rules[r].symbols| - 1];
      0 <= below.id < |p.gotos| && p.rules[r].target in p.gotos[below.id] &&
      s.cfg.stack[|s.cfg.stack| - 1].id == p.gotos[below.id][p.rules[r].target]
    ensures debug && 0 <= r < |p.rules| && PopRule(stack, |p.rules[r].symbols|).Ok? ==>
      var (span, values, _) := PopRule(stack, |p.rules[r].symbols|).value;
      var node := Node(ParseNode(p.rules[r].target, Some(span), Some(values)));
      (s.Accepted? ==> s.v == node) && (s.Continue? ==> s.cfg.stack[|s.cfg.stack| - 1].data == node)
    ensures !debug && 0 <= r < |p.rules| && PopRule(stack, |p.rules[r].symbols|).Ok? ==>
      var (span, values, _) := PopRule(stack, |p.rules[r].symbols|).value;
      var data := ParseRules.Reduce(p.rules[r], span, values);
      (data.Err? ==> s.Crashed?) &&
      (s.Accepted? ==> data == Ok(s.v)) &&
      (s.Continue? ==> data.Ok? && s.cfg.stack[|s.cfg.stack| - 1].data == data.value)
    ensures s.Continue? ==>
      PopRule(stack, |p.rules[r].symbols|).Ok? &&
      s.cfg.stack[|s.cfg.stack| - 1].pos == Some(PopRule(stack, |p.rules[r].symbols|).value.0)
    ensures !s.Rejected?
  {
    if !(0 <= r < |p.rules|) then Crashed("ArrayIndexOutOfBoundsException")
    else
      var rule := p.rules[r];
      match PopRule(stack, |rule.symbols|)
      case Err(m) => Crashed(m)
      case Ok((span, values, rest)) =>
        var data := if debug then Ok(Node(MakeNode(rule.target, Some(span), Some(values))))
                    else ParseRules.Reduce(rule, span, values);
        if data.Err? then Crashed(data.msg)
        else if accept && |rest| == 1 then Accepted(data.value)
        else if |rest| == 0 then Crashed("EmptyStackException")
        else
          var below := rest[|rest| - 1];
          if !(0 <= below.id < |p.gotos|) then Crashed("ArrayIndexOutOfBoundsException")
          else if rule.target !in p.gotos[below.id] then Crashed("NullPointerException")
          else Continue(Config(rest + [Entry(p.gotos[below.id][rule.target], data.value, Some(span))], src))
  }

  /** The action the loop finds for a configuration: the cell of the top
      state's row for the current token or its class. */
  function ActionOf(p: Parser, cfg: Config): (r: Option<ParseAction>)
    requires ParserOk(p)
  {
    if |cfg.stack| == 0 || CurToken(cfg.src).Err? then None
    else
      var id := cfg.stack[|cfg.stack| - 1].id;
      if 0 <= id < |p.actions| then Lookup(p.actions[id], CurToken(cfg.src).value) else None
  }

  /** One pass of the loop. */
  function Step1(p: Parser, cfg: Config, debug: bool): (s: Step)
    requires ParserOk(p)
    ensures s.Continue? ==> |s.cfg.stack| > 0 && s.cfg.src.(curPos := cfg.src.curPos) == cfg.src
    ensures s.Continue? ==>
      ActionOf(p, cfg).Some? &&
      (ActionOf(p, cfg).value.Shift? || ActionOf(p, cfg).value.Reduce? || ActionOf(p, cfg).value.Accept?)
    ensures ActionOf(p, cfg).Some? && ActionOf(p, cfg).value.Shift? && s.Continue? ==>
      s.cfg.src.curPos == cfg.src.curPos + 1 && |s.cfg.stack| == |cfg.stack| + 1 &&
      s.cfg.stack[..|cfg.stack|] == cfg.stack &&
      s.cfg.stack[|cfg.stack|].id == ActionOf(p, cfg).value.next &&
      s.cfg.stack[|cfg.stack|].data == Token(CurToken(cfg.src).value)
    ensures ActionOf(p, cfg).Some? && ActionOf(p, cfg).value.Shift? ==>
      (s.Continue? <==> CurTokenPos(cfg.src).Ok?)
    ensures ActionOf(p, cfg).Some? && (ActionOf(p, cfg).value.Reduce? || ActionOf(p, cfg).value.Accept?) && s.Continue? ==>
      s.cfg.src == cfg.src
    ensures s.Accepted? ==>
      ActionOf(p, cfg).Some? && ActionOf(p, cfg).value.Accept? &&
      0 <= ActionOf(p, cfg).value.rule < |p.rules| &&
      |cfg.stack| == |p.rules[ActionOf(p, cfg).value.rule].symbols| + 1
    ensures s.Rejected? ==>
      ActionOf(p, cfg) == Some(NonassocErr) ||
      (ActionOf(p, cfg).None? && |cfg.stack| > 0 && 0 <= cfg.stack[|cfg.stack| - 1].id < |p.keyOrder| &&
       var keys := p.keyOrder[cfg.stack[|cfg.stack| - 1].id];
       s.e.expected == (if |keys| > 0 then Some(keys) else None))
    ensures s.Rejected? && ActionOf(p, cfg) == Some(NonassocErr) ==> s.e.expected.None?
    ensures s.Rejected? ==> s.e.source == GetContext(cfg.src) && CurTokenPos(cfg.src) == Ok(s.e.location)
  {
    if |cfg.stack| == 0 then Crashed("EmptyStackException")
    else
      var top := cfg.stack[|cfg.stack| - 1];
      match CurToken(cfg.src)
      case Err(m) => Crashed(m)
      case Ok(tok) =>
        if !(0 <= top.id < |p.actions|) then Crashed("ArrayIndexOutOfBoundsException")
        else
          match Lookup(p.actions[top.id], tok)
          case None =>
            (match CurTokenPos(cfg.src)
             case Err(m) => Crashed(m)
             case Ok(pos) =>
               Rejected(MakeExpecting("Unexpected " + TerminalString(tok) + " encountered",
                                      GetContext(cfg.src), p.keyOrder[top.id], pos)))
          case Some(Shift(n)) =>
            (match CurTokenPos(cfg.src)
             case Err(m) => Crashed(m)
             case Ok(pos) => Continue(Config(cfg.stack + [Entry(n, Token(tok), pos)], Next(cfg.src))))
          case Some(Reduce(r)) => ReduceStep(p, cfg.stack, cfg.src, r, false, debug)
          case Some(Accept(r)) => ReduceStep(p, cfg.stack, cfg.src, r, true, debug)
          case Some(NonassocErr) =>
            (match CurTokenPos(cfg.src)
             case Err(m) => Crashed(m)
             case Ok(pos) =>
               Rejected(ParseExceptions.Make("Cannot use multiple " + TerminalString(tok) + " without grouping them. (nonassociative operator)",
                             GetContext(cfg.src), pos)))
          case Some(Other(_)) => Crashed("Undefined action code")
  }

  /** At most `fuel` passes of a loop whose one pass is `pass`; `Continue`
      when the fuel runs out first. */
  function Loop(pass: Config -> Step, cfg: Config, fuel: nat): (r: Step)
    ensures fuel == 0 ==> r == Continue(cfg)
    ensures fuel > 0 && !pass(cfg).Continue? ==> r == pass(cfg)
    ensures !r.Continue? ==> fuel > 0
    decreases fuel
  {
    if fuel == 0 then Continue(cfg)
    else
      match pass(cfg)
      case Continue(next) => Loop(pass, next, fuel - 1)
      case other => other
  }

  /** One pass of the parser's loop, as a function of the configuration. */
  function Pass(p: Parser, debug: bool): Config -> Step
    requires ParserOk(p)
  {
    cfg => Step1(p, cfg, debug)
  }

  /** At most `fuel` passes of the parser's loop. */
  function Run(p: Parser, cfg: Config, debug: bool, fuel: nat): (r: Step)
    requires ParserOk(p)
    ensures fuel > 0 && !Step1(p, cfg, debug).Continue? ==> r == Step1(p, cfg, debug)
    ensures fuel > 0 && Step1(p, cfg, debug).Continue? ==> r == Run(p, Step1(p, cfg, debug).cfg, debug, fuel - 1)
    ensures fuel == 0 ==> r == Continue(cfg)
    decreases fuel
  {
    Loop(Pass(p, debug), cfg, fuel)
  }

  /** The first `a` passes and then `b` more are `a + b` passes. */
  lemma {:induction false} LoopSplit(pass: Config -> Step, cfg: Config, a: nat, b: nat)
    ensures Loop(pass, cfg, a + b) ==
      (if Loop(pass, cfg, a).Continue? then Loop(pass, Loop(pass, cfg, a).cfg, b) else Loop(pass, cfg, a))
    decreases a
  {
    if a > 0 && pass(cfg).Continue? {
      LoopSplit(pass, pass(cfg).cfg, a - 1, b);
    }
  }

  /** `parse`: the loop from a stack holding only state 0, entered with
      no span. The stack never empties and the cursor only moves forward
      over the same tokens. */
  function Parse(p: Parser, src: ArraySource, debug: bool, fuel: nat): (r: Step)
    requires ParserOk(p)
    ensures fuel > 0 && !Step1(p, Config([Entry(0, Null, None)], src), debug).Continue? ==>
      r == Step1(p, Config([Entry(0, Null, None)], src), debug)
    ensures r.Continue? ==>
      |r.cfg.stack| > 0 && r.cfg.src.curPos >= src.curPos && r.cfg.src.(curPos := src.curPos) == src
  {
    RunKeeps(p, Config([Entry(0, Null, None)], src), debug, fuel);
    Run(p, Config([Entry(0, Null, None)], src), debug, fuel)
  }

  /** Once a loop has ended, more fuel changes nothing. */
  lemma {:induction false} LoopSettled(pass: Config -> Step, cfg: Config, fuel: nat, more: nat)
    requires !Loop(pass, cfg, fuel).Continue?
    ensures Loop(pass, cfg, fuel + more) == Loop(pass, cfg, fuel)
    decreases fuel
  {
    if pass(cfg).Continue? {
      LoopSettled(pass, pass(cfg).cfg, fuel - 1, more);
    }
  }

  /** Once the parser's loop has ended, more fuel changes nothing. */
  lemma RunSettled(p: Parser, cfg: Config, debug: bool, fuel: nat, more: nat)
    requires ParserOk(p) && !Run(p, cfg, debug, fuel).Continue?
    ensures Run(p, cfg, debug, fuel + more) == Run(p, cfg, debug, fuel)
  {
    LoopSettled(Pass(p, debug), cfg, fuel, more);
  }

  /** The loop keeps a non-empty stack and only ever moves the token
      cursor forward. */
  lemma {:induction false} RunKeeps(p: Parser, cfg: Config, debug: bool, fuel: nat)
    requires ParserOk(p) && |cfg.stack| > 0
    ensures var s := Run(p, cfg, debug, fuel);
      s.Continue? ==> |s.cfg.stack| > 0 && s.cfg.src.curPos >= cfg.src.curPos &&
                      s.cfg.src.(curPos := cfg.src.curPos) == cfg.src
    decreases fuel
  {
    if fuel > 0 {
      var s := Step1(p, cfg, debug);
      if s.Continue? {
        RunKeeps(p, s.cfg, debug, fuel - 1);
        if ActionOf(p, cfg).value.Shift? {
          assert s.cfg.src.curPos == cfg.src.curPos + 1;
        } else {
          assert s.cfg.src == cfg.src;
        }
      }
    }
  }
}
