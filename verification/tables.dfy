/** Table assembly (`TableBuilder.buildTables` and `setTableEntry`): the
    action and goto tables read off the canonical collection, with rule
    priorities and level associativity deciding between competing actions
    for one cell. */
module Tables {
  import opened Wrappers
  import opened Symbols
  import opened ParseRules
  import opened FirstSets
  import opened LR1Items
  import Priorities
  import opened Canonical
  import opened Actions

  /** An action-table cell: the action and the priority recorded for it
      (the `acnPriMap` entry of the action object in the cell). */
  datatype Cell = Cell(acn: ParseAction, pri: int)

  /** A reported conflict: the action kept and its priority, the action
      offered and its priority, and the lookahead. */
  datatype Conflict = Conflict(kept: ParseAction, keptPri: int, offered: ParseAction, offeredPri: int, lookahead: Terminal)

  /** An action offered for a cell, with its priority. */
  datatype Cand = Cand(acn: ParseAction, pri: int)

  /** What one `setTableEntry` call leaves in the cell, and the conflict it
      reports, if any. */
  datatype Decision = Decision(cell: Cell, conflict: Option<Conflict>)

  /** Whether priorities decide between the cell's action and an offered
      one: both priorities are set, and either the old action is a shift or
      the priorities differ. */
  predicate Decides(prev: Cell, c: Cand) {
    c.pri != Priorities.DefaultPri && prev.pri != Priorities.DefaultPri && (prev.acn.Shift? || c.pri != prev.pri)
  }

  /** `setTableEntry` for one cell. An empty cell takes the offered action.
      Two shifts keep the old action at the higher priority. When
      priorities decide, the higher one wins, and equal priorities fall to
      the level's associativity: LEFT takes the new action, RIGHT keeps the
      old one, NONASSOC installs the non-associativity error. Otherwise the
      old action stays and a conflict is reported. */
  function SetTableEntry(pris: Priorities.Store, prev: Option<Cell>, la: Terminal, c: Cand): (d: Decision)
    requires c.pri >= 0 && (prev.Some? ==> prev.value.pri >= 0)
    ensures d.cell.pri >= 0
    ensures prev.None? ==> d == Decision(Cell(c.acn, c.pri), None)
    ensures prev.Some? && prev.value.acn.Shift? && c.acn.Shift? ==>
      d.conflict.None? && d.cell.acn == prev.value.acn &&
      d.cell.pri >= prev.value.pri && d.cell.pri >= c.pri && (d.cell.pri == prev.value.pri || d.cell.pri == c.pri)
    ensures prev.Some? && !(prev.value.acn.Shift? && c.acn.Shift?) ==>
      (d.conflict.Some? <==> !Decides(prev.value, c))
    ensures d.conflict.Some? ==>
      d.cell == prev.value && d.conflict.value == Conflict(prev.value.acn, prev.value.pri, c.acn, c.pri, la)
    ensures prev.Some? && !(prev.value.acn.Shift? && c.acn.Shift?) && Decides(prev.value, c) && c.pri != prev.value.pri ==>
      d.cell == (if c.pri > prev.value.pri then Cell(c.acn, c.pri) else prev.value)
    ensures prev.Some? && !(prev.value.acn.Shift? && c.acn.Shift?) && Decides(prev.value, c) && c.pri == prev.value.pri ==>
      Priorities.GetAssociativity(pris, c.pri).Ok? &&
      d.cell == match Priorities.GetAssociativity(pris, c.pri).value
                case Left => Cell(c.acn, c.pri)
                case Right => prev.value
                case Nonassoc => Cell(NonassocErr, c.pri)
  {
    match prev
    case None => Decision(Cell(c.acn, c.pri), None)
    case Some(p) =>
      if p.acn.Shift? && c.acn.Shift? then
        Decision(Cell(p.acn, if c.pri > p.pri then c.pri else p.pri), None)
      else if Decides(p, c) then
        if c.pri != p.pri then
          Decision(if c.pri > p.pri then Cell(c.acn, c.pri) else p, None)
        else
          match Priorities.GetAssociativity(pris, c.pri).value
          case Left => Decision(Cell(c.acn, c.pri), None)
          case Right => Decision(p, None)
          case Nonassoc => Decision(Cell(NonassocErr, c.pri), None)
      else
        Decision(p, Some(Conflict(p.acn, p.pri, c.acn, c.pri, la)))
  }

  /** The conflicts a decision reports, as a set. */
  function Reported(d: Decision): (r: set<Conflict>)
    ensures forall x :: x in r <==> d.conflict == Some(x)
  {
    match d.conflict
    case Some(x) => {x}
    case None => {}
  }

  /** The running content of one cell and the conflicts reported for it. */
  datatype Acc = Acc(cell: Option<Cell>, conflicts: set<Conflict>)

  predicate AccOk(acc: Acc) {
    acc.cell.Some? ==> acc.cell.value.pri >= 0
  }

  predicate NonNeg(cs: seq<Cand>) {
    forall i :: 0 <= i < |cs| ==> cs[i].pri >= 0
  }

  /** The offers for one cell made in order, each through
      `setTableEntry`. */
  function Fold(pris: Priorities.Store, la: Terminal, acc: Acc, cs: seq<Cand>): (r: Acc)
    requires AccOk(acc) && NonNeg(cs)
    ensures AccOk(r) && acc.conflicts <= r.conflicts
    ensures r.cell.Some? <==> acc.cell.Some? || |cs| > 0
    decreases |cs|
  {
    if |cs| == 0 then acc
    else
      var a := Fold(pris, la, acc, cs[..|cs| - 1]);
      var d := SetTableEntry(pris, a.cell, la, cs[|cs| - 1]);
      Acc(Some(d.cell), a.conflicts + Reported(d))
  }

  /** One more offer. */
  lemma FoldSnoc(pris: Priorities.Store, la: Terminal, acc: Acc, cs: seq<Cand>, c: Cand)
    requires AccOk(acc) && NonNeg(cs) && c.pri >= 0
    ensures NonNeg(cs + [c])
    ensures var a := Fold(pris, la, acc, cs);
      var d := SetTableEntry(pris, a.cell, la, c);
      Fold(pris, la, acc, cs + [c]) == Acc(Some(d.cell), a.conflicts + Reported(d))
  {
    assert (cs + [c])[..|cs|] == cs;
  }

  /** Offers made one batch after another. */
  lemma {:induction false} FoldAppend(pris: Priorities.Store, la: Terminal, acc: Acc, a: seq<Cand>, b: seq<Cand>)
    requires AccOk(acc) && NonNeg(a) && NonNeg(b)
    ensures NonNeg(a + b)
    ensures Fold(pris, la, acc, a + b) == Fold(pris, la, Fold(pris, la, acc, a), b)
    decreases |b|
  {
    assert NonNeg(a + b) by {
      forall i | 0 <= i < |a + b| ensures (a + b)[i].pri >= 0 {
        if i >= |a| { assert (a + b)[i] == b[i - |a|]; }
      }
    }
    if |b| > 0 {
      var b' := b[..|b| - 1];
      assert (a + b)[..|a + b| - 1] == a + b';
      assert (a + b)[|a + b| - 1] == b[|b| - 1];
      assert NonNeg(b');
      FoldAppend(pris, la, acc, a, b');
    } else {
      assert a + b == a;
    }
  }

  /** The conflicts reported for a cell do not depend on the conflicts
      reported before, and neither does its content. */
  lemma {:induction false} FoldConflicts(pris: Priorities.Store, la: Terminal, cell: Option<Cell>, S: set<Conflict>, cs: seq<Cand>)
    requires AccOk(Acc(cell, S)) && NonNeg(cs)
    ensures Fold(pris, la, Acc(cell, S), cs).cell == Fold(pris, la, Acc(cell, {}), cs).cell
    ensures Fold(pris, la, Acc(cell, S), cs).conflicts == S + Fold(pris, la, Acc(cell, {}), cs).conflicts
    decreases |cs|
  {
    if |cs| > 0 {
      FoldConflicts(pris, la, cell, S, cs[..|cs| - 1]);
    }
  }

  /** Some offer made `a`. */
  predicate Proposed(a: ParseAction, cs: seq<Cand>) {
    exists i :: 0 <= i < |cs| && cs[i].acn == a
  }

  /** Whatever ends in a cell was offered for it, or is the
      non-associativity error. */
  lemma {:induction false} FoldOffered(pris: Priorities.Store, la: Terminal, cs: seq<Cand>)
    requires NonNeg(cs)
    ensures var r := Fold(pris, la, Acc(None, {}), cs);
      r.cell.Some? ==> r.cell.value.acn.NonassocErr? || Proposed(r.cell.value.acn, cs)
    decreases |cs|
  {
    if |cs| > 0 {
      var init := cs[..|cs| - 1];
      FoldOffered(pris, la, init);
      var a := Fold(pris, la, Acc(None, {}), init);
      var r := Fold(pris, la, Acc(None, {}), cs);
      if a.cell.Some? && !a.cell.value.acn.NonassocErr? {
        var i :| 0 <= i < |init| && init[i].acn == a.cell.value.acn;
        assert cs[i] == init[i];
      }
      assert cs[|cs| - 1].acn == cs[|cs| - 1].acn;
    }
  }

  /** At most one offer is a shift (the transitions out of a state are
      deterministic). */
  predicate OneShift(cs: seq<Cand>) {
    forall i, j :: 0 <= i < j < |cs| && cs[i].acn.Shift? ==> !cs[j].acn.Shift?
  }

  /** Every offer has a set priority, and no two share one. */
  predicate DistinctPris(cs: seq<Cand>) {
    (forall i :: 0 <= i < |cs| ==> cs[i].pri > 0) &&
    (forall i, j :: 0 <= i < j < |cs| ==> cs[i].pri != cs[j].pri)
  }

  /** With set, pairwise distinct priorities and at most one shift, the
      offer of highest priority ends in the cell, with its priority, and
      nothing is reported, whatever the order of the offers. */
  lemma {:induction false} FoldMax(pris: Priorities.Store, la: Terminal, cs: seq<Cand>)
    requires |cs| > 0 && DistinctPris(cs) && OneShift(cs)
    ensures NonNeg(cs)
    ensures var r := Fold(pris, la, Acc(None, {}), cs);
      r.cell.Some? && r.conflicts == {} &&
      (exists m :: 0 <= m < |cs| && r.cell.value == Cell(cs[m].acn, cs[m].pri)) &&
      (forall i :: 0 <= i < |cs| ==> cs[i].pri <= r.cell.value.pri)
    decreases |cs|
  {
    var n := |cs|;
    var r := Fold(pris, la, Acc(None, {}), cs);
    if n == 1 {
      assert r.cell.value == Cell(cs[0].acn, cs[0].pri);
    } else {
      var init := cs[..n - 1];
      var c := cs[n - 1];
      FoldMax(pris, la, init);
      var a := Fold(pris, la, Acc(None, {}), init);
      var m :| 0 <= m < |init| && a.cell.value == Cell(init[m].acn, init[m].pri);
      assert init[m] == cs[m];
      assert c.pri != cs[m].pri;
      assert !(cs[m].acn.Shift? && c.acn.Shift?);
      DecideMax(pris, la, a, c);
      assert r.cell.value == (if c.pri > cs[m].pri then Cell(cs[n - 1].acn, cs[n - 1].pri) else Cell(cs[m].acn, cs[m].pri));
      forall i | 0 <= i < n ensures cs[i].pri <= r.cell.value.pri {
        if i < n - 1 { assert cs[i] == init[i]; }
      }
    }
  }

  /** An offer whose priority is set and differs from the cell's, and which
      is not a second shift, is decided by priority without a report. */
  lemma DecideMax(pris: Priorities.Store, la: Terminal, a: Acc, c: Cand)
    requires a.cell.Some? && a.conflicts == {} && a.cell.value.pri > 0 && c.pri > 0
    requires c.pri != a.cell.value.pri && !(a.cell.value.acn.Shift? && c.acn.Shift?)
    ensures var d := SetTableEntry(pris, a.cell, la, c);
      a.conflicts + Reported(d) == {} && d.cell == (if c.pri > a.cell.value.pri then Cell(c.acn, c.pri) else a.cell.value)
  {
    assert Decides(a.cell.value, c);
  }

  /** So the outcome of distinct priorities is independent of the order in
      which the offers are made. */
  lemma FoldOrderIndependent(pris: Priorities.Store, la: Terminal, cs: seq<Cand>, ds: seq<Cand>)
    requires |cs| > 0 && DistinctPris(cs) && OneShift(cs)
    requires DistinctPris(ds) && OneShift(ds) && multiset(cs) == multiset(ds)
    ensures NonNeg(cs) && NonNeg(ds)
    ensures Fold(pris, la, Acc(None, {}), cs) == Fold(pris, la, Acc(None, {}), ds)
  {
    assert |ds| == |multiset(ds)| == |multiset(cs)| == |cs|;
    FoldMax(pris, la, cs);
    FoldMax(pris, la, ds);
    var r := Fold(pris, la, Acc(None, {}), cs);
    var q := Fold(pris, la, Acc(None, {}), ds);
    var m :| 0 <= m < |cs| && r.cell.value == Cell(cs[m].acn, cs[m].pri);
    var k :| 0 <= k < |ds| && q.cell.value == Cell(ds[k].acn, ds[k].pri);
    assert cs[m] in multiset(ds);
    var m' :| 0 <= m' < |ds| && ds[m'] == cs[m];
    assert ds[k] in multiset(cs);
    var k' :| 0 <= k' < |cs| && cs[k'] == ds[k];
    assert cs[m].pri <= ds[k].pri && ds[k].pri <= cs[m].pri;
  }

  /** A cell offered two or more actions, at most one a shift, of which one
      has the default priority, reports a conflict. */
  lemma {:induction false} FoldDefaultConflict(pris: Priorities.Store, la: Terminal, cs: seq<Cand>, z: nat)
    requires NonNeg(cs) && OneShift(cs) && |cs| >= 2
    requires z < |cs| && cs[z].pri == Priorities.DefaultPri
    ensures Fold(pris, la, Acc(None, {}), cs).conflicts != {}
    decreases |cs|
  {
    var n := |cs|;
    var init := cs[..n - 1];
    var c := cs[n - 1];
    var a := Fold(pris, la, Acc(None, {}), init);
    var r := Fold(pris, la, Acc(None, {}), cs);
    var d := SetTableEntry(pris, a.cell, la, c);
    assert r == Acc(Some(d.cell), a.conflicts + Reported(d));
    if z < n - 1 && n > 2 {
      assert init[z] == cs[z];
      FoldDefaultConflict(pris, la, init, z);
    } else {
      FoldOffered(pris, la, init);
      assert a.cell.Some?;
      if z == n - 1 {
        assert !Decides(a.cell.value, c);
      } else {
        assert n == 2 && z == 0 && a.cell.value == Cell(cs[0].acn, cs[0].pri);
        assert !Decides(a.cell.value, c);
      }
      assert d.conflict.Some?;
      assert d.conflict.value in r.conflicts;
    }
  }

  /** The tables: per state, the action row keyed by terminal and the goto
      row keyed by nonterminal, and the conflicts reported. */
  datatype Tables = Tables(actions: seq<map<Terminal, Cell>>, gotos: seq<map<Nonterminal, nat>>, conflicts: set<Conflict>)

  /** One empty action row and one empty goto row per state. */
  function EmptyTables(n: nat): (tb: Tables)
    ensures |tb.actions| == n && |tb.gotos| == n && tb.conflicts == {}
    ensures forall s :: 0 <= s < n ==> tb.actions[s] == map[] && tb.gotos[s] == map[]
  {
    Tables(seq(n, _ => map[]), seq(n, _ => map[]), {})
  }

  /** The content of action cell (s, t). */
  function CellAt(tb: Tables, s: nat, t: Terminal): (r: Option<Cell>)
    requires s < |tb.actions|
    ensures r.Some? <==> t in tb.actions[s]
    ensures r.Some? ==> r.value == tb.actions[s][t]
  {
    if t in tb.actions[s] then Some(tb.actions[s][t]) else None
  }

  /** `n` rows of each table, and no negative priority recorded. */
  predicate Shaped(tb: Tables, n: nat) {
    |tb.actions| == n && |tb.gotos| == n &&
    forall s, t :: 0 <= s < n && t in tb.actions[s] ==> tb.actions[s][t].pri >= 0
  }

  /** Every transition leaves one of the `n` states and has a priority of
      at least the default. */
  predicate TransFit(trans: seq<Transition>, n: nat) {
    forall k :: 0 <= k < |trans| ==> trans[k].from < n && trans[k].pri >= 0
  }

  /** Every reduction belongs to one of the `n` states and names a rule. */
  predicate RedFit(rules: seq<Rule>, reds: seq<Reduction>, n: nat) {
    forall k :: 0 <= k < |reds| ==> reds[k].state < n && reds[k].rule < |rules|
  }

  /** The transition loop of `buildTables` for one transition: a
      nonterminal transition is a goto entry, a terminal one offers a shift
      to its cell. */
  function AddTransition(pris: Priorities.Store, tb: Tables, n: nat, tr: Transition): (r: Tables)
    requires Shaped(tb, n) && tr.from < n && tr.pri >= 0
    ensures Shaped(r, n)
  {
    match tr.sym
    case N(nt) =>
      var row: map<Nonterminal, nat> := tb.gotos[tr.from][nt := tr.to];
      tb.(gotos := tb.gotos[tr.from := row])
    case T(t) =>
      var d := SetTableEntry(pris, CellAt(tb, tr.from, t), t, Cand(Shift(tr.to), tr.pri));
      tb.(actions := tb.actions[tr.from := tb.actions[tr.from][t := d.cell]], conflicts := tb.conflicts + Reported(d))
  }

  /** The transition loop of `buildTables`, over empty tables. */
  function AddTransitions(pris: Priorities.Store, n: nat, trans: seq<Transition>): (r: Tables)
    requires TransFit(trans, n)
    ensures Shaped(r, n)
    decreases |trans|
  {
    if |trans| == 0 then EmptyTables(n)
    else AddTransition(pris, AddTransitions(pris, n, trans[..|trans| - 1]), n, trans[|trans| - 1])
  }

  /** The action a reduction offers for lookahead `t`: ACCEPT when the
      lookahead is EOF and the rule reduces to the start symbol, REDUCE
      otherwise. */
  function ReduceAction(rules: seq<Rule>, start: Nonterminal, r: nat, t: Terminal): (a: ParseAction)
    requires r < |rules|
    ensures a.Accept? || a.Reduce?
    ensures a.rule == r
    ensures a.Accept? <==> t == Eof && rules[r].target == start
  {
    if t == Eof && rules[r].target == start then Accept(r) else Reduce(r)
  }

  /** The decision for cell (red.state, t) when `red` offers its action. */
  function ReduceEntry(rules: seq<Rule>, start: Nonterminal, pris: Priorities.Store, tb: Tables, n: nat,
                       red: Reduction, t: Terminal): Decision
    requires Shaped(tb, n) && red.state < n && red.rule < |rules| && Priorities.Valid(pris)
  {
    SetTableEntry(pris, CellAt(tb, red.state, t), t,
      Cand(ReduceAction(rules, start, red.rule, t), RulePri(pris, red.rule)))
  }

  /** The reduction loop of `buildTables` for one reduction: the reduction
      is offered to the cell of each of its lookaheads. The cells are
      distinct, so the order of the lookaheads does not matter. */
  function AddReduction(rules: seq<Rule>, start: Nonterminal, pris: Priorities.Store, tb: Tables, n: nat,
                        red: Reduction): (r: Tables)
    requires Shaped(tb, n) && red.state < n && red.rule < |rules| && Priorities.Valid(pris)
    ensures Shaped(r, n) && r.gotos == tb.gotos
  {
    var row := tb.actions[red.state];
    var row' := map t | t in row.Keys + red.lookahead ::
      if t in red.lookahead then ReduceEntry(rules, start, pris, tb, n, red, t).cell else row[t];
    var found := set t | t in red.lookahead && ReduceEntry(rules, start, pris, tb, n, red, t).conflict.Some? ::
      ReduceEntry(rules, start, pris, tb, n, red, t).conflict.value;
    tb.(actions := tb.actions[red.state := row'], conflicts := tb.conflicts + found)
  }

  /** Both loops of `buildTables`: the transitions, then the reductions. */
  function AddReductions(rules: seq<Rule>, start: Nonterminal, pris: Priorities.Store, n: nat,
                         trans: seq<Transition>, reds: seq<Reduction>): (r: Tables)
    requires TransFit(trans, n) && RedFit(rules, reds, n) && Priorities.Valid(pris)
    ensures Shaped(r, n) && r.gotos == AddTransitions(pris, n, trans).gotos
    decreases |reds|
  {
    if |reds| == 0 then AddTransitions(pris, n, trans)
    else
      var tb := AddReductions(rules, start, pris, n, trans, reds[..|reds| - 1]);
      AddReduction(rules, start, pris, tb, n, reds[|reds| - 1])
  }

  /** `buildTables` over a collection. */
  function BuildTables(rules: seq<Rule>, start: Nonterminal, pris: Priorities.Store, c: Collection): (tb: Tables)
    requires Priorities.Valid(pris)
    requires TransFit(c.transitions, |c.states|) && RedFit(rules, c.reductions, |c.states|)
    ensures Shaped(tb, |c.states|)
  {
    AddReductions(rules, start, pris, |c.states|, c.transitions, c.reductions)
  }

  /** Transition `tr` offers `c` to cell (s, t). */
  predicate ShiftOffer(tr: Transition, s: nat, t: Terminal, c: Cand) {
    tr.from == s && tr.sym == T(t) && c == Cand(Shift(tr.to), tr.pri)
  }

  /** The shifts offered to cell (s, t), in transition order. */
  function TransCands(trans: seq<Transition>, s: nat, t: Terminal): (cs: seq<Cand>)
    ensures forall c :: c in cs ==> exists k :: 0 <= k < |trans| && ShiftOffer(trans[k], s, t, c)
    ensures forall k :: 0 <= k < |trans| && trans[k].from == s && trans[k].sym == T(t) ==>
      Cand(Shift(trans[k].to), trans[k].pri) in cs
    decreases |trans|
  {
    if |trans| == 0 then []
    else
      var init := trans[..|trans| - 1];
      var tr := trans[|trans| - 1];
      assert forall k :: 0 <= k < |init| ==> init[k] == trans[k];
      var rest := TransCands(init, s, t);
      if tr.from == s && tr.sym == T(t) then rest + [Cand(Shift(tr.to), tr.pri)]
      else rest
  }

  /** Deterministic transitions offer at most one shift per cell. */
  lemma {:induction false} TransCandsDeterministic(trans: seq<Transition>, s: nat, t: Terminal)
    requires Deterministic(trans)
    ensures |TransCands(trans, s, t)| <= 1
    decreases |trans|
  {
    if |trans| > 0 {
      var init := trans[..|trans| - 1];
      var tr := trans[|trans| - 1];
      assert Deterministic(init);
      TransCandsDeterministic(init, s, t);
      if tr.from == s && tr.sym == T(t) {
        forall k | 0 <= k < |init| ensures !(init[k].from == s && init[k].sym == T(t)) {
          assert trans[k] == init[k];
        }
        TransCandsEmpty(init, s, t);
      }
    }
  }

  /** No transition leaves `s` over `t`: nothing is offered. */
  lemma {:induction false} TransCandsEmpty(trans: seq<Transition>, s: nat, t: Terminal)
    requires forall k :: 0 <= k < |trans| ==> !(trans[k].from == s && trans[k].sym == T(t))
    ensures TransCands(trans, s, t) == []
    decreases |trans|
  {
    if |trans| > 0 {
      var init := trans[..|trans| - 1];
      assert forall k :: 0 <= k < |init| ==> init[k] == trans[k];
      TransCandsEmpty(init, s, t);
    }
  }

  /** Reduction `red` offers `c` to cell (s, t). */
  predicate ReduceOffer(rules: seq<Rule>, start: Nonterminal, pris: Priorities.Store, red: Reduction,
                        s: nat, t: Terminal, c: Cand) {
    red.state == s && t in red.lookahead && red.rule < |rules| &&
    c == Cand(ReduceAction(rules, start, red.rule, t), RulePri(pris, red.rule))
  }

  /** The reductions offered to cell (s, t), in reduction order. */
  function RedCands(rules: seq<Rule>, start: Nonterminal, pris: Priorities.Store, reds: seq<Reduction>,
                    s: nat, t: Terminal): (cs: seq<Cand>)
    requires forall k :: 0 <= k < |reds| ==> reds[k].rule < |rules|
    ensures forall c :: c in cs ==> exists k :: 0 <= k < |reds| && ReduceOffer(rules, start, pris, reds[k], s, t, c)
    ensures forall k :: 0 <= k < |reds| && reds[k].state == s && t in reds[k].lookahead ==>
      Cand(ReduceAction(rules, start, reds[k].rule, t), RulePri(pris, reds[k].rule)) in cs
    decreases |reds|
  {
    if |reds| == 0 then []
    else
      var init := reds[..|reds| - 1];
      var red := reds[|reds| - 1];
      assert forall k :: 0 <= k < |init| ==> init[k] == reds[k];
      var rest := RedCands(rules, start, pris, init, s, t);
      if red.state == s && t in red.lookahead then
        rest + [Cand(ReduceAction(rules, start, red.rule, t), RulePri(pris, red.rule))]
      else rest
  }

  /** Every transition has a priority of at least the default. */
  predicate TransPris(trans: seq<Transition>) {
    forall k :: 0 <= k < |trans| ==> trans[k].pri >= 0
  }

  /** Every reduction names a rule. */
  predicate RulesIn(rules: seq<Rule>, reds: seq<Reduction>) {
    forall k :: 0 <= k < |reds| ==> reds[k].rule < |rules|
  }

  /** All offers to cell (s, t) in the order `buildTables` makes them: the
      shifts, then the reductions. */
  function Offers(rules: seq<Rule>, start: Nonterminal, pris: Priorities.Store, trans: seq<Transition>,
                  reds: seq<Reduction>, s: nat, t: Terminal): (cs: seq<Cand>)
    requires Priorities.Valid(pris) && TransPris(trans) && RulesIn(rules, reds)
    ensures NonNeg(cs)
  {
    var a := TransCands(trans, s, t);
    var b := RedCands(rules, start, pris, reds, s, t);
    forall i | 0 <= i < |a + b| ensures (a + b)[i].pri >= 0 {
      if i < |a| {
        assert a[i] in a;
      } else {
        assert (a + b)[i] == b[i - |a|] && b[i - |a|] in b;
      }
    }
    a + b
  }

  /** What the offers leave in cell (s, t), and the conflicts they report
      for it. */
  function CellFold(rules: seq<Rule>, start: Nonterminal, pris: Priorities.Store, trans: seq<Transition>,
                    reds: seq<Reduction>, s: nat, t: Terminal): Acc
    requires Priorities.Valid(pris) && TransPris(trans) && RulesIn(rules, reds)
  {
    Fold(pris, t, Acc(None, {}), Offers(rules, start, pris, trans, reds, s, t))
  }

  /** Tables `tb` hold, for each cell, what its offers leave there, and
      report exactly the conflicts reported for some cell. */
  ghost predicate Agrees(rules: seq<Rule>, start: Nonterminal, pris: Priorities.Store, tb: Tables, n: nat,
                         trans: seq<Transition>, reds: seq<Reduction>)
    requires Priorities.Valid(pris) && TransPris(trans) && RulesIn(rules, reds)
  {
    Shaped(tb, n) &&
    (forall s, t :: 0 <= s < n ==> CellAt(tb, s, t) == CellFold(rules, start, pris, trans, reds, s, t).cell) &&
    (forall x :: x in tb.conflicts <==>
      exists s, t :: 0 <= s < n && x in CellFold(rules, start, pris, trans, reds, s, t).conflicts)
  }

  /** The offers of one more transition. */
  lemma TransCandsSnoc(init: seq<Transition>, tr: Transition, s: nat, t: Terminal)
    ensures TransCands(init + [tr], s, t) ==
      if tr.from == s && tr.sym == T(t) then TransCands(init, s, t) + [Cand(Shift(tr.to), tr.pri)]
      else TransCands(init, s, t)
  {
    assert (init + [tr])[..|init|] == init;
  }

  /** The offers of one more reduction. */
  lemma RedCandsSnoc(rules: seq<Rule>, start: Nonterminal, pris: Priorities.Store, init: seq<Reduction>,
                     red: Reduction, s: nat, t: Terminal)
    requires RulesIn(rules, init + [red])
    ensures RulesIn(rules, init) && red.rule < |rules|
    ensures RedCands(rules, start, pris, init + [red], s, t) ==
      if red.state == s && t in red.lookahead
      then RedCands(rules, start, pris, init, s, t) + [Cand(ReduceAction(rules, start, red.rule, t), RulePri(pris, red.rule))]
      else RedCands(rules, start, pris, init, s, t)
  {
    assert (init + [red])[..|init|] == init;
    assert forall k :: 0 <= k < |init| ==> init[k] == (init + [red])[k];
    assert (init + [red])[|init|] == red;
  }

  /** How the cell folds change when one more transition is offered: the
      cell it leaves from, at its terminal, takes one more shift. */
  ghost predicate ShiftFoldsAfter(rules: seq<Rule>, start: Nonterminal, pris: Priorities.Store, n: nat, tb: Tables,
                                  init: seq<Transition>, tr: Transition)
    requires Priorities.Valid(pris) && TransPris(init) && TransPris(init + [tr]) && Shaped(tb, n) && tr.from < n
  {
    forall s, t :: 0 <= s < n ==>
      CellFold(rules, start, pris, init + [tr], [], s, t) ==
        if tr.from == s && tr.sym == T(t)
        then var d := SetTableEntry(pris, CellAt(tb, s, t), t, Cand(Shift(tr.to), tr.pri));
             Acc(Some(d.cell), CellFold(rules, start, pris, init, [], s, t).conflicts + Reported(d))
        else CellFold(rules, start, pris, init, [], s, t)
  }

  lemma TransitionFolds(rules: seq<Rule>, start: Nonterminal, pris: Priorities.Store, n: nat, tb: Tables,
                        init: seq<Transition>, tr: Transition)
    requires Priorities.Valid(pris) && TransFit(init, n) && tr.from < n && tr.pri >= 0
    requires TransPris(init) && Agrees(rules, start, pris, tb, n, init, [])
    ensures TransPris(init + [tr])
    ensures ShiftFoldsAfter(rules, start, pris, n, tb, init, tr)
  {
    var trans := init + [tr];
    assert trans[|init|] == tr;
    assert forall k :: 0 <= k < |init| ==> trans[k] == init[k];
    var c := Cand(Shift(tr.to), tr.pri);
    forall s, t | 0 <= s < n
      ensures CellFold(rules, start, pris, trans, [], s, t) ==
        if tr.from == s && tr.sym == T(t)
        then var d := SetTableEntry(pris, CellAt(tb, s, t), t, c);
             Acc(Some(d.cell), CellFold(rules, start, pris, init, [], s, t).conflicts + Reported(d))
        else CellFold(rules, start, pris, init, [], s, t)
    {
      TransCandsSnoc(init, tr, s, t);
      var o := Offers(rules, start, pris, init, [], s, t);
      assert o == TransCands(init, s, t) + [];
      if tr.from == s && tr.sym == T(t) {
        assert Offers(rules, start, pris, trans, [], s, t) == o + [c];
        FoldSnoc(pris, t, Acc(None, {}), o, c);
      } else {
        assert Offers(rules, start, pris, trans, [], s, t) == o;
      }
    }
  }

  /** The conflicts reported after one more terminal transition. */
  lemma TransitionConflicts(rules: seq<Rule>, start: Nonterminal, pris: Priorities.Store, n: nat, tb: Tables,
                            init: seq<Transition>, tr: Transition, t0: Terminal)
    requires Priorities.Valid(pris) && TransPris(init) && TransPris(init + [tr])
    requires Shaped(tb, n) && tr.from < n && tr.pri >= 0 && tr.sym == T(t0)
    requires forall x :: x in tb.conflicts <==>
      exists s, t :: 0 <= s < n && x in CellFold(rules, start, pris, init, [], s, t).conflicts
    requires ShiftFoldsAfter(rules, start, pris, n, tb, init, tr)
    ensures forall x :: x in AddTransition(pris, tb, n, tr).conflicts <==>
      exists s, t :: 0 <= s < n && x in CellFold(rules, start, pris, init + [tr], [], s, t).conflicts
  {
    var trans := init + [tr];
    var tb' := AddTransition(pris, tb, n, tr);
    var d := SetTableEntry(pris, CellAt(tb, tr.from, t0), t0, Cand(Shift(tr.to), tr.pri));
    assert tb'.conflicts == tb.conflicts + Reported(d);
    forall x ensures x in tb'.conflicts <==>
      exists s, t :: 0 <= s < n && x in CellFold(rules, start, pris, trans, [], s, t).conflicts
    {
      if x in tb.conflicts {
        var s, t :| 0 <= s < n && x in CellFold(rules, start, pris, init, [], s, t).conflicts;
        assert x in CellFold(rules, start, pris, trans, [], s, t).conflicts;
      } else if x in Reported(d) {
        assert x in CellFold(rules, start, pris, trans, [], tr.from, t0).conflicts;
      }
      if exists s, t :: 0 <= s < n && x in CellFold(rules, start, pris, trans, [], s, t).conflicts {
        var s, t :| 0 <= s < n && x in CellFold(rules, start, pris, trans, [], s, t).conflicts;
        if !(s == tr.from && t == t0) || x in CellFold(rules, start, pris, init, [], s, t).conflicts {
          assert x in tb.conflicts;
        }
      }
    }
  }

  /** Processing one more transition keeps the tables in agreement with
      the offers. */
  lemma TransitionStep(rules: seq<Rule>, start: Nonterminal, pris: Priorities.Store, n: nat, tb: Tables,
                       init: seq<Transition>, tr: Transition)
    requires Priorities.Valid(pris) && TransFit(init, n) && tr.from < n && tr.pri >= 0
    requires TransPris(init) && Agrees(rules, start, pris, tb, n, init, [])
    ensures TransPris(init + [tr])
    ensures Agrees(rules, start, pris, AddTransition(pris, tb, n, tr), n, init + [tr], [])
  {
    TransitionFolds(rules, start, pris, n, tb, init, tr);
    var tb' := AddTransition(pris, tb, n, tr);
    match tr.sym
    case N(_) =>
      assert tb'.actions == tb.actions && tb'.conflicts == tb.conflicts;
    case T(t0) =>
      TransitionConflicts(rules, start, pris, n, tb, init, tr, t0);
  }

  /** The transition loop leaves the tables in agreement with the shifts
      offered. */
  lemma {:induction false} TransitionsAgree(rules: seq<Rule>, start: Nonterminal, pris: Priorities.Store, n: nat,
                                            trans: seq<Transition>)
    requires Priorities.Valid(pris) && TransFit(trans, n)
    ensures TransPris(trans)
    ensures Agrees(rules, start, pris, AddTransitions(pris, n, trans), n, trans, [])
    decreases |trans|
  {
    if |trans| == 0 {
      var tb := EmptyTables(n);
      forall s, t | 0 <= s < n ensures CellAt(tb, s, t) == CellFold(rules, start, pris, trans, [], s, t).cell {
        assert Offers(rules, start, pris, trans, [], s, t) == [];
      }
      forall s, t | 0 <= s < n ensures CellFold(rules, start, pris, trans, [], s, t).conflicts == {} {
        assert Offers(rules, start, pris, trans, [], s, t) == [];
      }
    } else {
      var init := trans[..|trans| - 1];
      var tr := trans[|trans| - 1];
      assert trans == init + [tr];
      assert forall k :: 0 <= k < |init| ==> init[k] == trans[k];
      TransitionsAgree(rules, start, pris, n, init);
      TransitionStep(rules, start, pris, n, AddTransitions(pris, n, init), init, tr);
    }
  }

  /** How the cell folds change when one more reduction is offered: the
      cells of its state at its lookaheads take one more offer. */
  ghost predicate FoldsAfter(rules: seq<Rule>, start: Nonterminal, pris: Priorities.Store, n: nat, tb: Tables,
                             trans: seq<Transition>, init: seq<Reduction>, red: Reduction)
    requires Priorities.Valid(pris) && TransPris(trans) && RulesIn(rules, init + [red]) && RulesIn(rules, init)
    requires Shaped(tb, n) && red.state < n && red.rule < |rules|
  {
    forall s, t :: 0 <= s < n ==>
      CellFold(rules, start, pris, trans, init + [red], s, t) ==
        if s == red.state && t in red.lookahead
        then Acc(Some(ReduceEntry(rules, start, pris, tb, n, red, t).cell),
                 CellFold(rules, start, pris, trans, init, s, t).conflicts + Reported(ReduceEntry(rules, start, pris, tb, n, red, t)))
        else CellFold(rules, start, pris, trans, init, s, t)
  }

  lemma ReductionFolds(rules: seq<Rule>, start: Nonterminal, pris: Priorities.Store, n: nat, tb: Tables,
                       trans: seq<Transition>, init: seq<Reduction>, red: Reduction)
    requires Priorities.Valid(pris) && TransFit(trans, n) && RedFit(rules, init, n)
    requires red.state < n && red.rule < |rules|
    requires TransPris(trans) && RulesIn(rules, init) && Agrees(rules, start, pris, tb, n, trans, init)
    ensures RulesIn(rules, init + [red])
    ensures FoldsAfter(rules, start, pris, n, tb, trans, init, red)
  {
    var reds := init + [red];
    assert forall k :: 0 <= k < |init| ==> reds[k] == init[k];
    assert reds[|init|] == red;
    assert RulesIn(rules, reds);
    forall s, t | 0 <= s < n
      ensures CellFold(rules, start, pris, trans, reds, s, t) ==
        if s == red.state && t in red.lookahead
        then Acc(Some(ReduceEntry(rules, start, pris, tb, n, red, t).cell),
                 CellFold(rules, start, pris, trans, init, s, t).conflicts + Reported(ReduceEntry(rules, start, pris, tb, n, red, t)))
        else CellFold(rules, start, pris, trans, init, s, t)
    {
      RedCandsSnoc(rules, start, pris, init, red, s, t);
      var a := TransCands(trans, s, t);
      var b := RedCands(rules, start, pris, init, s, t);
      var o := Offers(rules, start, pris, trans, init, s, t);
      if s == red.state && t in red.lookahead {
        var c := Cand(ReduceAction(rules, start, red.rule, t), RulePri(pris, red.rule));
        assert a + (b + [c]) == (a + b) + [c];
        assert Offers(rules, start, pris, trans, reds, s, t) == o + [c];
        FoldSnoc(pris, t, Acc(None, {}), o, c);
      } else {
        assert Offers(rules, start, pris, trans, reds, s, t) == o;
      }
    }
  }

  /** The conflicts reported after one more reduction. */
  lemma ReductionConflicts(rules: seq<Rule>, start: Nonterminal, pris: Priorities.Store, n: nat, tb: Tables,
                           trans: seq<Transition>, init: seq<Reduction>, red: Reduction)
    requires Priorities.Valid(pris) && TransPris(trans) && RulesIn(rules, init + [red]) && RulesIn(rules, init)
    requires Shaped(tb, n) && red.state < n && red.rule < |rules|
    requires forall x :: x in tb.conflicts <==>
      exists s, t :: 0 <= s < n && x in CellFold(rules, start, pris, trans, init, s, t).conflicts
    requires FoldsAfter(rules, start, pris, n, tb, trans, init, red)
    ensures forall x :: x in AddReduction(rules, start, pris, tb, n, red).conflicts <==>
      exists s, t :: 0 <= s < n && x in CellFold(rules, start, pris, trans, init + [red], s, t).conflicts
  {
    var reds := init + [red];
    var tb' := AddReduction(rules, start, pris, tb, n, red);
    var found := set t | t in red.lookahead && ReduceEntry(rules, start, pris, tb, n, red, t).conflict.Some? ::
      ReduceEntry(rules, start, pris, tb, n, red, t).conflict.value;
    assert tb'.conflicts == tb.conflicts + found;
    forall x ensures x in tb'.conflicts <==>
      exists s, t :: 0 <= s < n && x in CellFold(rules, start, pris, trans, reds, s, t).conflicts
    {
      if x in tb.conflicts {
        var s, t :| 0 <= s < n && x in CellFold(rules, start, pris, trans, init, s, t).conflicts;
        assert x in CellFold(rules, start, pris, trans, reds, s, t).conflicts;
      } else if x in found {
        var t :| t in red.lookahead && ReduceEntry(rules, start, pris, tb, n, red, t).conflict == Some(x);
        assert x in CellFold(rules, start, pris, trans, reds, red.state, t).conflicts;
      }
      if exists s, t :: 0 <= s < n && x in CellFold(rules, start, pris, trans, reds, s, t).conflicts {
        var s, t :| 0 <= s < n && x in CellFold(rules, start, pris, trans, reds, s, t).conflicts;
        if !(s == red.state && t in red.lookahead) || x in CellFold(rules, start, pris, trans, init, s, t).conflicts {
          assert x in tb.conflicts;
        } else {
          assert x in found;
        }
      }
    }
  }

  /** Processing one more reduction keeps the tables in agreement with the
      offers. */
  lemma ReductionStep(rules: seq<Rule>, start: Nonterminal, pris: Priorities.Store, n: nat, tb: Tables,
                      trans: seq<Transition>, init: seq<Reduction>, red: Reduction)
    requires Priorities.Valid(pris) && TransFit(trans, n) && RedFit(rules, init, n)
    requires red.state < n && red.rule < |rules|
    requires TransPris(trans) && RulesIn(rules, init) && Agrees(rules, start, pris, tb, n, trans, init)
    ensures RulesIn(rules, init + [red])
    ensures Agrees(rules, start, pris, AddReduction(rules, start, pris, tb, n, red), n, trans, init + [red])
  {
    var reds := init + [red];
    ReductionFolds(rules, start, pris, n, tb, trans, init, red);
    var tb' := AddReduction(rules, start, pris, tb, n, red);
    forall s, t | 0 <= s < n ensures CellAt(tb', s, t) == CellFold(rules, start, pris, trans, reds, s, t).cell {
      if s == red.state {
        assert tb'.actions[s] == map t | t in tb.actions[s].Keys + red.lookahead ::
          if t in red.lookahead then ReduceEntry(rules, start, pris, tb, n, red, t).cell else tb.actions[s][t];
      } else {
        assert tb'.actions[s] == tb.actions[s];
      }
    }
    ReductionConflicts(rules, start, pris, n, tb, trans, init, red);
  }

  /** Both loops leave the tables in agreement with all offers. */
  lemma {:induction false} ReductionsAgree(rules: seq<Rule>, start: Nonterminal, pris: Priorities.Store, n: nat,
                                           trans: seq<Transition>, reds: seq<Reduction>)
    requires Priorities.Valid(pris) && TransFit(trans, n) && RedFit(rules, reds, n)
    ensures TransPris(trans) && RulesIn(rules, reds)
    ensures Agrees(rules, start, pris, AddReductions(rules, start, pris, n, trans, reds), n, trans, reds)
    decreases |reds|
  {
    if |reds| == 0 {
      TransitionsAgree(rules, start, pris, n, trans);
    } else {
      var init := reds[..|reds| - 1];
      var red := reds[|reds| - 1];
      assert reds == init + [red];
      assert forall k :: 0 <= k < |init| ==> init[k] == reds[k];
      ReductionsAgree(rules, start, pris, n, trans, init);
      ReductionStep(rules, start, pris, n, AddReductions(rules, start, pris, n, trans, init), trans, init, red);
    }
  }

  /** Transition `tr` leaves `s` over nonterminal `nt`. */
  predicate GotoEdge(tr: Transition, s: nat, nt: Nonterminal) {
    tr.from == s && tr.sym == N(nt)
  }

  /** One more transition changes at most one goto entry. */
  lemma GotoStep(pris: Priorities.Store, n: nat, trans: seq<Transition>)
    requires TransFit(trans, n) && |trans| > 0
    ensures TransFit(trans[..|trans| - 1], n)
    ensures forall s :: 0 <= s < n ==>
      AddTransitions(pris, n, trans).gotos[s] ==
        var tr := trans[|trans| - 1];
        if tr.sym.N? && s == tr.from then AddTransitions(pris, n, trans[..|trans| - 1]).gotos[s][tr.sym.nt := tr.to]
        else AddTransitions(pris, n, trans[..|trans| - 1]).gotos[s]
  {
    assert forall k :: 0 <= k < |trans| - 1 ==> trans[..|trans| - 1][k] == trans[k];
  }

  /** The goto rows hold an entry for exactly the nonterminal
      transitions. */
  lemma {:induction false} GotoKeys(pris: Priorities.Store, n: nat, trans: seq<Transition>)
    requires TransFit(trans, n)
    ensures forall s, nt :: 0 <= s < n ==>
      (nt in AddTransitions(pris, n, trans).gotos[s] <==> exists k :: 0 <= k < |trans| && GotoEdge(trans[k], s, nt))
    decreases |trans|
  {
    if |trans| > 0 {
      var init := trans[..|trans| - 1];
      GotoStep(pris, n, trans);
      GotoKeys(pris, n, init);
      var g := AddTransitions(pris, n, init).gotos;
      var g' := AddTransitions(pris, n, trans).gotos;
      forall s, nt | 0 <= s < n
        ensures nt in g'[s] <==> exists k :: 0 <= k < |trans| && GotoEdge(trans[k], s, nt)
      {
        if nt in g[s] {
          var k :| 0 <= k < |init| && GotoEdge(init[k], s, nt);
          assert GotoEdge(trans[k], s, nt);
        }
        if exists k :: 0 <= k < |trans| && GotoEdge(trans[k], s, nt) {
          var k :| 0 <= k < |trans| && GotoEdge(trans[k], s, nt);
          if k < |init| {
            assert GotoEdge(init[k], s, nt);
          }
        }
      }
    }
  }

  /** With deterministic transitions, a goto entry is the target of its
      transition. */
  lemma {:induction false} GotoValues(pris: Priorities.Store, n: nat, trans: seq<Transition>)
    requires TransFit(trans, n) && Deterministic(trans)
    ensures forall k :: 0 <= k < |trans| && trans[k].sym.N? ==>
      trans[k].sym.nt in AddTransitions(pris, n, trans).gotos[trans[k].from] &&
      AddTransitions(pris, n, trans).gotos[trans[k].from][trans[k].sym.nt] == trans[k].to
    decreases |trans|
  {
    if |trans| > 0 {
      var init := trans[..|trans| - 1];
      var tr := trans[|trans| - 1];
      GotoStep(pris, n, trans);
      assert Deterministic(init);
      GotoValues(pris, n, init);
      var g' := AddTransitions(pris, n, trans).gotos;
      forall k | 0 <= k < |trans| && trans[k].sym.N?
        ensures trans[k].sym.nt in g'[trans[k].from] && g'[trans[k].from][trans[k].sym.nt] == trans[k].to
      {
        if k < |init| {
          assert init[k] == trans[k];
          assert !(tr.from == trans[k].from && tr.sym == trans[k].sym);
        }
      }
    }
  }

  /** Offers made by reductions are never shifts. */
  lemma RedCandsNoShift(rules: seq<Rule>, start: Nonterminal, pris: Priorities.Store, reds: seq<Reduction>,
                        s: nat, t: Terminal)
    requires RulesIn(rules, reds)
    ensures forall i :: 0 <= i < |RedCands(rules, start, pris, reds, s, t)| ==>
      !RedCands(rules, start, pris, reds, s, t)[i].acn.Shift?
  {
    var b := RedCands(rules, start, pris, reds, s, t);
    forall i | 0 <= i < |b| ensures !b[i].acn.Shift? {
      assert b[i] in b;
    }
  }

  /** With deterministic transitions, every cell is offered at most one
      shift. */
  lemma OffersOneShift(rules: seq<Rule>, start: Nonterminal, pris: Priorities.Store, trans: seq<Transition>,
                       reds: seq<Reduction>, s: nat, t: Terminal)
    requires Priorities.Valid(pris) && TransPris(trans) && RulesIn(rules, reds) && Deterministic(trans)
    ensures OneShift(Offers(rules, start, pris, trans, reds, s, t))
  {
    var a := TransCands(trans, s, t);
    var b := RedCands(rules, start, pris, reds, s, t);
    TransCandsDeterministic(trans, s, t);
    RedCandsNoShift(rules, start, pris, reds, s, t);
    var o := a + b;
    forall i, j | 0 <= i < j < |o| && o[i].acn.Shift? ensures !o[j].acn.Shift? {
      assert o[j] == b[j - |a|];
    }
  }

  /** The canonical collection of the grammar. */
  function Collect(rules: seq<Rule>, pris: Priorities.Store, start: Nonterminal): (c: Collection)
    requires Priorities.Valid(pris)
    ensures TransFit(c.transitions, |c.states|) && RedFit(rules, c.reductions, |c.states|)
    ensures Deterministic(c.transitions)
    ensures forall i, it, sym :: 0 <= i < |c.states| && it in c.states[i] && AtDot(rules, it, sym) ==>
      HasEdge(c.transitions, i, sym)
    ensures forall x :: x in c.reductions <==>
      (x.state < |c.states| && x.rule < |rules| && Item(x.rule, |rules[x.rule].symbols|, x.lookahead) in c.states[x.state])
  {
    var F := BuildFirstSets(rules);
    var c := CanonicalCollection(rules, F, pris, start);
    CollectionProperties(rules, F, pris, start);
    forall k | 0 <= k < |c.transitions| ensures c.transitions[k].from < |c.states| && c.transitions[k].pri >= 0 {
      var tr := c.transitions[k];
      assert tr in c.transitions;
      assert Edge(rules, F, pris, c.states, tr);
      var it :| it in c.states[tr.from] && AtDot(rules, it, tr.sym) && RulePri(pris, it.rule) == tr.pri;
    }
    forall k | 0 <= k < |c.reductions| ensures c.reductions[k].state < |c.states| && c.reductions[k].rule < |rules| {
      assert c.reductions[k] in c.reductions;
    }
    c
  }

  /** `generate`: the first sets, the canonical collection, then the
      tables. */
  function Generate(rules: seq<Rule>, start: Nonterminal, pris: Priorities.Store): (tb: Tables)
    requires Priorities.Valid(pris)
    ensures Shaped(tb, |Collect(rules, pris, start).states|)
  {
    BuildTables(rules, start, pris, Collect(rules, pris, start))
  }

  /** The tables of the grammar agree with the offers of its canonical
      collection. */
  lemma GenerateAgrees(rules: seq<Rule>, start: Nonterminal, pris: Priorities.Store)
    requires Priorities.Valid(pris)
    ensures var c := Collect(rules, pris, start);
      TransPris(c.transitions) && RulesIn(rules, c.reductions) &&
      Agrees(rules, start, pris, Generate(rules, start, pris), |c.states|, c.transitions, c.reductions)
  {
    var c := Collect(rules, pris, start);
    ReductionsAgree(rules, start, pris, |c.states|, c.transitions, c.reductions);
  }

  /** The goto table: state `s` has an entry for nonterminal `nt` exactly
      when the collection has a transition from `s` over `nt`, and the
      entry is that transition's target. */
  lemma GenerateGotos(rules: seq<Rule>, start: Nonterminal, pris: Priorities.Store)
    requires Priorities.Valid(pris)
    ensures var c := Collect(rules, pris, start);
      var tb := Generate(rules, start, pris);
      (forall s, nt :: 0 <= s < |c.states| ==> (nt in tb.gotos[s] <==> HasEdge(c.transitions, s, N(nt)))) &&
      (forall k :: 0 <= k < |c.transitions| && c.transitions[k].sym.N? ==>
        c.transitions[k].sym.nt in tb.gotos[c.transitions[k].from] &&
        tb.gotos[c.transitions[k].from][c.transitions[k].sym.nt] == c.transitions[k].to)
  {
    var c := Collect(rules, pris, start);
    var n := |c.states|;
    GotoKeys(pris, n, c.transitions);
    GotoValues(pris, n, c.transitions);
    var tb := Generate(rules, start, pris);
    assert tb.gotos == AddTransitions(pris, n, c.transitions).gotos;
    forall s, nt | 0 <= s < n ensures nt in tb.gotos[s] <==> HasEdge(c.transitions, s, N(nt)) {
      if HasEdge(c.transitions, s, N(nt)) {
        var k :| 0 <= k < |c.transitions| && c.transitions[k].from == s && c.transitions[k].sym == N(nt);
        assert GotoEdge(c.transitions[k], s, nt);
      }
    }
  }

  /** Some reduction of state `s` has lookahead `t` and rule `r`. */
  predicate ReducesOn(reds: seq<Reduction>, s: nat, t: Terminal, r: int) {
    exists k :: 0 <= k < |reds| && reds[k].state == s && t in reds[k].lookahead && reds[k].rule == r
  }

  /** Action cell (s, t) is filled exactly when the collection has a
      transition from `s` over `t` or a reduction of `s` with lookahead
      `t`. A shift comes from such a transition, a reduce or accept from
      such a reduction, and a reduction becomes ACCEPT exactly when the
      lookahead is EOF and the rule reduces to the start symbol. */
  lemma GenerateActions(rules: seq<Rule>, start: Nonterminal, pris: Priorities.Store)
    requires Priorities.Valid(pris)
    ensures var c := Collect(rules, pris, start);
      var tb := Generate(rules, start, pris);
      forall s, t :: 0 <= s < |c.states| ==>
        (t in tb.actions[s] <==> HasEdge(c.transitions, s, T(t)) ||
                                  exists k :: 0 <= k < |c.reductions| && c.reductions[k].state == s && t in c.reductions[k].lookahead) &&
        (t in tb.actions[s] ==>
          var a := tb.actions[s][t].acn;
          (a.Shift? ==> HasEdge(c.transitions, s, T(t))) &&
          (a.Accept? || a.Reduce? ==> (0 <= a.rule < |rules| && ReducesOn(c.reductions, s, t, a.rule) &&
             (a.Accept? <==> t == Eof && rules[a.rule].target == start))) &&
          !a.Other?)
  {
    var c := Collect(rules, pris, start);
    var n := |c.states|;
    var tb := Generate(rules, start, pris);
    GenerateAgrees(rules, start, pris);
    forall s, t | 0 <= s < n
      ensures (t in tb.actions[s] <==> HasEdge(c.transitions, s, T(t)) ||
                                       exists k :: 0 <= k < |c.reductions| && c.reductions[k].state == s && t in c.reductions[k].lookahead)
      ensures t in tb.actions[s] ==>
          var a := tb.actions[s][t].acn;
          (a.Shift? ==> HasEdge(c.transitions, s, T(t))) &&
          (a.Accept? || a.Reduce? ==> (0 <= a.rule < |rules| && ReducesOn(c.reductions, s, t, a.rule) &&
             (a.Accept? <==> t == Eof && rules[a.rule].target == start))) &&
          !a.Other?
    {
      CellActions(rules, start, pris, c.transitions, c.reductions, s, t);
    }
  }

  /** What a cell holds, read off its offers. */
  lemma CellActions(rules: seq<Rule>, start: Nonterminal, pris: Priorities.Store, trans: seq<Transition>,
                    reds: seq<Reduction>, s: nat, t: Terminal)
    requires Priorities.Valid(pris) && TransPris(trans) && RulesIn(rules, reds)
    ensures var r := CellFold(rules, start, pris, trans, reds, s, t).cell;
      (r.Some? <==> HasEdge(trans, s, T(t)) ||
                    exists k :: 0 <= k < |reds| && reds[k].state == s && t in reds[k].lookahead) &&
      (r.Some? ==>
        var a := r.value.acn;
        (a.Shift? ==> HasEdge(trans, s, T(t))) &&
        (a.Accept? || a.Reduce? ==> (0 <= a.rule < |rules| && ReducesOn(reds, s, t, a.rule) &&
           (a.Accept? <==> t == Eof && rules[a.rule].target == start))) &&
        !a.Other?)
  {
    CellFilled(rules, start, pris, trans, reds, s, t);
    CellSource(rules, start, pris, trans, reds, s, t);
  }

  /** A cell is filled exactly when something is offered to it. */
  lemma CellFilled(rules: seq<Rule>, start: Nonterminal, pris: Priorities.Store, trans: seq<Transition>,
                   reds: seq<Reduction>, s: nat, t: Terminal)
    requires Priorities.Valid(pris) && TransPris(trans) && RulesIn(rules, reds)
    ensures CellFold(rules, start, pris, trans, reds, s, t).cell.Some? <==>
      HasEdge(trans, s, T(t)) || exists k :: 0 <= k < |reds| && reds[k].state == s && t in reds[k].lookahead
  {
    var o := Offers(rules, start, pris, trans, reds, s, t);
    var A := TransCands(trans, s, t);
    var B := RedCands(rules, start, pris, reds, s, t);
    assert o == A + B;
    if HasEdge(trans, s, T(t)) {
      var k :| 0 <= k < |trans| && trans[k].from == s && trans[k].sym == T(t);
      assert Cand(Shift(trans[k].to), trans[k].pri) in A;
    }
    if exists k :: 0 <= k < |reds| && reds[k].state == s && t in reds[k].lookahead {
      var k :| 0 <= k < |reds| && reds[k].state == s && t in reds[k].lookahead;
      assert Cand(ReduceAction(rules, start, reds[k].rule, t), RulePri(pris, reds[k].rule)) in B;
    }
    if |o| > 0 {
      if |A| > 0 {
        assert A[0] in A;
        var k :| 0 <= k < |trans| && ShiftOffer(trans[k], s, t, A[0]);
      } else {
        assert B[0] in B;
        var k :| 0 <= k < |reds| && ReduceOffer(rules, start, pris, reds[k], s, t, B[0]);
      }
    }
  }

  /** The action in a filled cell was offered to it. */
  lemma CellSource(rules: seq<Rule>, start: Nonterminal, pris: Priorities.Store, trans: seq<Transition>,
                   reds: seq<Reduction>, s: nat, t: Terminal)
    requires Priorities.Valid(pris) && TransPris(trans) && RulesIn(rules, reds)
    ensures var r := CellFold(rules, start, pris, trans, reds, s, t).cell;
      r.Some? ==>
        var a := r.value.acn;
        (a.Shift? ==> HasEdge(trans, s, T(t))) &&
        (a.Accept? || a.Reduce? ==> (0 <= a.rule < |rules| && ReducesOn(reds, s, t, a.rule) &&
           (a.Accept? <==> t == Eof && rules[a.rule].target == start))) &&
        !a.Other?
  {
    var o := Offers(rules, start, pris, trans, reds, s, t);
    var A := TransCands(trans, s, t);
    var B := RedCands(rules, start, pris, reds, s, t);
    assert o == A + B;
    var r := CellFold(rules, start, pris, trans, reds, s, t).cell;
    FoldOffered(pris, t, o);
    if r.Some? && !r.value.acn.NonassocErr? {
      var i :| 0 <= i < |o| && o[i].acn == r.value.acn;
      if i < |A| {
        assert A[i] in A;
        var k :| 0 <= k < |trans| && ShiftOffer(trans[k], s, t, A[i]);
      } else {
        assert o[i] == B[i - |A|] && B[i - |A|] in B;
        var k :| 0 <= k < |reds| && ReduceOffer(rules, start, pris, reds[k], s, t, B[i - |A|]);
      }
    }
  }

  /** The offers the grammar's tables make to cell (s, t). */
  function GrammarOffers(rules: seq<Rule>, start: Nonterminal, pris: Priorities.Store, s: nat, t: Terminal): (cs: seq<Cand>)
    requires Priorities.Valid(pris)
    ensures NonNeg(cs) && OneShift(cs)
  {
    var c := Collect(rules, pris, start);
    OffersOneShift(rules, start, pris, c.transitions, c.reductions, s, t);
    Offers(rules, start, pris, c.transitions, c.reductions, s, t)
  }

  /** In tables that agree with the offers of deterministic transitions,
      priorities resolve a cell whose offers all have set, pairwise
      distinct priorities, and when every cell is so resolved nothing is
      reported. */
  lemma AgreeingResolved(rules: seq<Rule>, start: Nonterminal, pris: Priorities.Store, tb: Tables, n: nat,
                         trans: seq<Transition>, reds: seq<Reduction>)
    requires Priorities.Valid(pris) && TransPris(trans) && RulesIn(rules, reds) && Deterministic(trans)
    requires Agrees(rules, start, pris, tb, n, trans, reds)
    ensures forall s, t :: 0 <= s < n && t in tb.actions[s] && DistinctPris(Offers(rules, start, pris, trans, reds, s, t)) ==>
        var o := Offers(rules, start, pris, trans, reds, s, t);
        (exists m :: 0 <= m < |o| && tb.actions[s][t] == Cell(o[m].acn, o[m].pri)) &&
        (forall i :: 0 <= i < |o| ==> o[i].pri <= tb.actions[s][t].pri)
    ensures (forall s, t :: 0 <= s < n ==> DistinctPris(Offers(rules, start, pris, trans, reds, s, t))) ==> tb.conflicts == {}
  {
    forall s, t | 0 <= s < n && t in tb.actions[s] && DistinctPris(Offers(rules, start, pris, trans, reds, s, t))
      ensures var o := Offers(rules, start, pris, trans, reds, s, t);
        (exists m :: 0 <= m < |o| && tb.actions[s][t] == Cell(o[m].acn, o[m].pri)) &&
        (forall i :: 0 <= i < |o| ==> o[i].pri <= tb.actions[s][t].pri)
    {
      var o := Offers(rules, start, pris, trans, reds, s, t);
      assert CellAt(tb, s, t) == Fold(pris, t, Acc(None, {}), o).cell;
      OffersOneShift(rules, start, pris, trans, reds, s, t);
      FoldMax(pris, t, o);
    }
    if forall s, t :: 0 <= s < n ==> DistinctPris(Offers(rules, start, pris, trans, reds, s, t)) {
      forall x | x in tb.conflicts ensures false {
        var s, t :| 0 <= s < n && x in CellFold(rules, start, pris, trans, reds, s, t).conflicts;
        var o := Offers(rules, start, pris, trans, reds, s, t);
        OffersOneShift(rules, start, pris, trans, reds, s, t);
        if |o| > 0 {
          FoldMax(pris, t, o);
        }
      }
    }
  }

  /** Priorities resolve a cell whose offers all have set, pairwise
      distinct priorities: the offer of highest priority is in the cell
      and the cell reports nothing. When every cell is so resolved the
      grammar has no conflicts. */
  lemma GenerateResolved(rules: seq<Rule>, start: Nonterminal, pris: Priorities.Store)
    requires Priorities.Valid(pris)
    ensures var n := |Collect(rules, pris, start).states|;
      var tb := Generate(rules, start, pris);
      (forall s, t :: 0 <= s < n && t in tb.actions[s] && DistinctPris(GrammarOffers(rules, start, pris, s, t)) ==>
        var o := GrammarOffers(rules, start, pris, s, t);
        (exists m :: 0 <= m < |o| && tb.actions[s][t] == Cell(o[m].acn, o[m].pri)) &&
        (forall i :: 0 <= i < |o| ==> o[i].pri <= tb.actions[s][t].pri)) &&
      ((forall s, t :: 0 <= s < n ==> DistinctPris(GrammarOffers(rules, start, pris, s, t))) ==> tb.conflicts == {})
  {
    var c := Collect(rules, pris, start);
    GenerateAgrees(rules, start, pris);
    AgreeingResolved(rules, start, pris, Generate(rules, start, pris), |c.states|, c.transitions, c.reductions);
    assert forall s, t :: GrammarOffers(rules, start, pris, s, t) == Offers(rules, start, pris, c.transitions, c.reductions, s, t);
  }

  /** In tables that agree with the offers of deterministic transitions, a
      cell offered two or more actions, one of them with the default
      priority, reports a conflict. */
  lemma AgreeingReportsDefault(rules: seq<Rule>, start: Nonterminal, pris: Priorities.Store, tb: Tables, n: nat,
                               trans: seq<Transition>, reds: seq<Reduction>, s: nat, t: Terminal, z: nat)
    requires Priorities.Valid(pris) && TransPris(trans) && RulesIn(rules, reds) && Deterministic(trans)
    requires Agrees(rules, start, pris, tb, n, trans, reds) && s < n
    requires |Offers(rules, start, pris, trans, reds, s, t)| >= 2 && z < |Offers(rules, start, pris, trans, reds, s, t)|
    requires Offers(rules, start, pris, trans, reds, s, t)[z].pri == Priorities.DefaultPri
    ensures tb.conflicts != {}
  {
    var o := Offers(rules, start, pris, trans, reds, s, t);
    OffersOneShift(rules, start, pris, trans, reds, s, t);
    FoldDefaultConflict(pris, t, o, z);
    var x :| x in Fold(pris, t, Acc(None, {}), o).conflicts;
    assert x in CellFold(rules, start, pris, trans, reds, s, t).conflicts;
    assert x in tb.conflicts;
  }

  /** A cell offered two or more actions, one of them with the default
      priority, makes the grammar report a conflict. */
  lemma GenerateReportsDefault(rules: seq<Rule>, start: Nonterminal, pris: Priorities.Store, s: nat, t: Terminal, z: nat)
    requires Priorities.Valid(pris) && s < |Collect(rules, pris, start).states|
    requires |GrammarOffers(rules, start, pris, s, t)| >= 2 && z < |GrammarOffers(rules, start, pris, s, t)|
    requires GrammarOffers(rules, start, pris, s, t)[z].pri == Priorities.DefaultPri
    ensures Generate(rules, start, pris).conflicts != {}
  {
    var c := Collect(rules, pris, start);
    GenerateAgrees(rules, start, pris);
    assert GrammarOffers(rules, start, pris, s, t) == Offers(rules, start, pris, c.transitions, c.reductions, s, t);
    AgreeingReportsDefault(rules, start, pris, Generate(rules, start, pris), |c.states|, c.transitions, c.reductions, s, t, z);
  }
}
