/** The canonical collection of LR(1) item sets
    (`TableBuilder.buildCanonicalCollection`): the states, the transitions
    between them with the highest priority of the items that move, and the
    reductions of the completed items. */
module Canonical {
  import opened Wrappers
  import opened Seqs
  import opened Symbols
  import opened ParseRules
  import opened FirstSets
  import opened LR1Items
  import Priorities

  /** A move out of a state over one symbol, with its priority. */
  datatype Path = Path(sym: Symbol, pri: int)

  /** `Transition`: from one state to another over a symbol. */
  datatype Transition = Transition(from: nat, to: nat, sym: Symbol, pri: int)

  /** `Reduction`: a completed item of a state. */
  datatype Reduction = Reduction(state: nat, rule: nat, lookahead: set<Terminal>)

  datatype Collection = Collection(states: seq<seq<Item>>, transitions: seq<Transition>, reductions: seq<Reduction>)

  /** The priority of a rule. */
  function RulePri(p: Priorities.Store, r: nat): int {
    Priorities.Get(p, Priorities.RuleKey(r))
  }

  /** The priority recorded for a symbol in the path map, if any. */
  function Lookup(paths: seq<Path>, sym: Symbol): (r: Option<int>)
    ensures r.Some? <==> exists k :: 0 <= k < |paths| && paths[k].sym == sym
  {
    if |paths| == 0 then None
    else if paths[0].sym == sym then Some(paths[0].pri)
    else
      var rest := Lookup(paths[1..], sym);
      assert forall k :: 1 <= k < |paths| ==> paths[k] == paths[1..][k - 1];
      rest
  }

  /** No symbol is listed twice. */
  predicate DistinctSyms(paths: seq<Path>) {
    forall i, j :: 0 <= i < j < |paths| ==> paths[i].sym != paths[j].sym
  }

  lemma {:induction false} LookupAt(paths: seq<Path>, k: nat)
    requires DistinctSyms(paths) && k < |paths|
    ensures Lookup(paths, paths[k].sym) == Some(paths[k].pri)
  {
    if k > 0 {
      assert paths[0].sym != paths[k].sym;
      assert paths[1..][k - 1] == paths[k];
      LookupAt(paths[1..], k - 1);
    }
  }

  /** `addHighestPriorityPath`: records the symbol, keeping the higher
      priority when it is already recorded. */
  function AddPath(paths: seq<Path>, sym: Symbol, pri: int): (r: seq<Path>)
    ensures Lookup(paths, sym).None? ==> Lookup(r, sym) == Some(pri)
    ensures Lookup(paths, sym).Some? ==>
      Lookup(r, sym) == Some(if Lookup(paths, sym).value < pri then pri else Lookup(paths, sym).value)
    ensures forall s :: s != sym ==> Lookup(r, s) == Lookup(paths, s)
    ensures DistinctSyms(paths) ==> DistinctSyms(r)
  {
    if |paths| == 0 then [Path(sym, pri)]
    else if paths[0].sym == sym then
      if paths[0].pri < pri then [Path(sym, pri)] + paths[1..] else paths
    else
      var rest := AddPath(paths[1..], sym, pri);
      assert forall k :: 1 <= k < |paths| ==> paths[k] == paths[1..][k - 1];
      assert forall s :: Lookup([paths[0]] + rest, s) == if paths[0].sym == s then Some(paths[0].pri) else Lookup(rest, s);
      if DistinctSyms(paths) then
        assert Lookup(paths[1..], paths[0].sym).None?;
        assert Lookup(rest, paths[0].sym).None?;
        assert forall k :: 1 <= k < |[paths[0]] + rest| ==> ([paths[0]] + rest)[k] == rest[k - 1];
        [paths[0]] + rest
      else
        [paths[0]] + rest
  }

  /** `p` is the highest priority among the items of `items` that have
      `sym` after their placeholder. */
  predicate IsPathOf(rules: seq<Rule>, pris: Priorities.Store, items: seq<Item>, sym: Symbol, p: int) {
    (exists it :: it in items && AtDot(rules, it, sym) && RulePri(pris, it.rule) == p) &&
    (forall it :: it in items && AtDot(rules, it, sym) ==> RulePri(pris, it.rule) <= p)
  }

  /** `r` is a path map of `items`: one path per symbol some item has after
      its placeholder, with the highest priority of those items. */
  ghost predicate PathsOf(rules: seq<Rule>, pris: Priorities.Store, items: seq<Item>, r: seq<Path>) {
    DistinctSyms(r) &&
    (forall sym :: Lookup(r, sym).Some? <==> exists it :: it in items && AtDot(rules, it, sym)) &&
    (forall sym :: Lookup(r, sym).Some? ==> IsPathOf(rules, pris, items, sym, Lookup(r, sym).value))
  }

  /** The path map of one state: for each symbol some item has after its
      placeholder, the highest priority of those items. */
  function Paths(rules: seq<Rule>, pris: Priorities.Store, items: seq<Item>): (r: seq<Path>)
    ensures PathsOf(rules, pris, items, r)
  {
    if |items| == 0 then []
    else
      var init := items[..|items| - 1];
      var last := items[|items| - 1];
      var prev := Paths(rules, pris, init);
      assert items == init + [last];
      PathsStep(rules, pris, init, last, prev);
      if last.rule < |rules| && last.dot < |rules[last.rule].symbols| then
        AddPath(prev, rules[last.rule].symbols[last.dot], RulePri(pris, last.rule))
      else
        prev
  }

  /** One more item: its symbol's path is raised to its priority. */
  lemma PathsStep(rules: seq<Rule>, pris: Priorities.Store, init: seq<Item>, last: Item, prev: seq<Path>)
    requires PathsOf(rules, pris, init, prev)
    ensures last.rule < |rules| && last.dot < |rules[last.rule].symbols| ==>
      PathsOf(rules, pris, init + [last], AddPath(prev, rules[last.rule].symbols[last.dot], RulePri(pris, last.rule)))
    ensures !(last.rule < |rules| && last.dot < |rules[last.rule].symbols|) ==> PathsOf(rules, pris, init + [last], prev)
  {
    var items := init + [last];
    assert forall it :: it in items <==> it in init || it == last;
    if last.rule < |rules| && last.dot < |rules[last.rule].symbols| {
      var sym := rules[last.rule].symbols[last.dot];
      var pri := RulePri(pris, last.rule);
      var r := AddPath(prev, sym, pri);
      assert AtDot(rules, last, sym);
      forall s ensures Lookup(r, s).Some? <==> exists it :: it in items && AtDot(rules, it, s) {
        if s != sym {
          assert !AtDot(rules, last, s);
        }
      }
      forall s | Lookup(r, s).Some? ensures IsPathOf(rules, pris, items, s, Lookup(r, s).value) {
        if s == sym {
          if Lookup(prev, sym).Some? && pri <= Lookup(prev, sym).value {
            assert IsPathOf(rules, pris, init, sym, Lookup(prev, sym).value);
          } else {
            assert Lookup(r, sym).value == pri;
          }
        } else {
          assert !AtDot(rules, last, s);
          assert IsPathOf(rules, pris, init, s, Lookup(prev, s).value);
        }
      }
    } else {
      forall s ensures !AtDot(rules, last, s) { }
    }
  }

  /** The completed items of state `cur`, as reductions. */
  function Completed(rules: seq<Rule>, cur: nat, items: seq<Item>): (r: seq<Reduction>)
    ensures forall x :: x in r <==> (x.state == cur && x.rule < |rules| &&
      Item(x.rule, |rules[x.rule].symbols|, x.lookahead) in items)
  {
    if |items| == 0 then []
    else
      var rest := Completed(rules, cur, items[1..]);
      assert forall it :: it in items <==> it == items[0] || it in items[1..];
      var it := items[0];
      if it.rule < |rules| && it.dot == |rules[it.rule].symbols| then
        [Reduction(cur, it.rule, it.lookahead)] + rest
      else rest
  }

  /** Every item names a rule, has its placeholder within the body, and
      takes its lookaheads from `TU`. */
  predicate Within(rules: seq<Rule>, TU: set<Terminal>, items: seq<Item>) {
    forall k :: 0 <= k < |items| ==>
      items[k].rule < |rules| && items[k].dot <= |rules[items[k].rule].symbols| && items[k].lookahead <= TU
  }

  /** Every terminal a lookahead set can hold. */
  function Lookaheads(rules: seq<Rule>, F: Rel): set<Terminal> {
    FTerms(F) + RulesTerms(rules) + {Eof}
  }

  /** A closure of items within the universe stays within it. */
  lemma ClosureWithin(rules: seq<Rule>, F: Rel, items: seq<Item>)
    requires Within(rules, Lookaheads(rules, F), items)
    ensures Within(rules, Lookaheads(rules, F), Closure(rules, F, items))
  {
    var TU := Lookaheads(rules, F);
    var seeds := SeedsOf(rules, items);
    forall t | t in AllSeedTerms(seeds) ensures t in TU {
      var k, t' :| 0 <= k < |seeds| && t' in SeedTerms(seeds[k]) && t == t';
      RuleBodyTerms(rules, items[k].rule);
    }
    var r := Closure(rules, F, items);
    forall k | 0 <= k < |r| ensures r[k].lookahead <= TU {
      if r[k] !in items {
        assert r[k].lookahead <= ClosureUniverse(rules, F, seeds);
      } else {
        var j :| 0 <= j < |items| && items[j] == r[k];
      }
    }
  }

  lemma GotoWithin(rules: seq<Rule>, F: Rel, items: seq<Item>, sym: Symbol)
    requires Within(rules, Lookaheads(rules, F), items)
    ensures Within(rules, Lookaheads(rules, F), Goto(rules, F, items, sym))
  {
    var adv := Advance(rules, items, sym);
    forall k | 0 <= k < |adv| ensures adv[k].lookahead <= Lookaheads(rules, F) {
      assert adv[k] in adv;
      var it :| it in items && AtDot(rules, it, sym) && adv[k] == Shifted(it);
      var j :| 0 <= j < |items| && items[j] == it;
    }
    ClosureWithin(rules, F, adv);
  }

  lemma InitialWithin(rules: seq<Rule>, F: Rel, start: Nonterminal)
    ensures Within(rules, Lookaheads(rules, F), InitialState(rules, F, start))
  {
    var seeds := [PrimerSeed(start)];
    assert BodyTerms([N(start)]) == {};
    assert AllSeedTerms(seeds) == {Eof} by {
      forall t | t in AllSeedTerms(seeds) ensures t == Eof {
        var k, t' :| 0 <= k < |seeds| && t' in SeedTerms(seeds[k]) && t == t';
      }
      assert Eof in SeedTerms(seeds[0]);
    }
  }

  /** The item sets of distinct states differ. */
  predicate Distinct(states: seq<seq<Item>>) {
    forall i, j :: 0 <= i < j < |states| ==> Elems(states[i]) != Elems(states[j])
  }

  /** Every state lies in the universe and no two are the same set. */
  predicate WfStates(rules: seq<Rule>, TU: set<Terminal>, states: seq<seq<Item>>) {
    (forall k :: 0 <= k < |states| ==> Within(rules, TU, states[k])) && Distinct(states)
  }

  /** The index of the state with the same items, if there is one (the
      `cc` lookup). */
  function FindState(states: seq<seq<Item>>, s: seq<Item>, from: nat): (r: Option<nat>)
    requires from <= |states|
    ensures r.Some? ==> from <= r.value < |states| && Elems(states[r.value]) == Elems(s)
    ensures r.None? ==> forall k :: from <= k < |states| ==> Elems(states[k]) != Elems(s)
    decreases |states| - from
  {
    if from == |states| then None
    else if Elems(states[from]) == Elems(s) then Some(from)
    else FindState(states, s, from + 1)
  }

  /** The transition recorded for path `p` out of state `cur`. */
  predicate LinkedAs(rules: seq<Rule>, F: Rel, states: seq<seq<Item>>, cur: nat, p: Path, tr: Transition) {
    tr.from == cur && tr.sym == p.sym && tr.pri == p.pri &&
    cur < |states| && tr.to < |states| && ValidItems(rules, states[cur]) &&
    Elems(states[tr.to]) == Elems(Goto(rules, F, states[cur], p.sym))
  }

  /** One path of the path loop of `buildCanonicalCollection`: the
      successor item set is looked up among the states and appended when
      it is new. */
  function LinkOne(rules: seq<Rule>, F: Rel, states: seq<seq<Item>>, cur: nat, p: Path): (r: (seq<seq<Item>>, Transition))
    requires WfStates(rules, Lookaheads(rules, F), states) && cur < |states|
    ensures WfStates(rules, Lookaheads(rules, F), r.0)
    ensures |states| <= |r.0| <= |states| + 1 && r.0[..|states|] == states
    ensures LinkedAs(rules, F, r.0, cur, p, r.1)
  {
    GotoWithin(rules, F, states[cur], p.sym);
    var next := Goto(rules, F, states[cur], p.sym);
    match FindState(states, next, 0)
    case Some(j) =>
      assert states[..|states|] == states;
      (states, Transition(cur, j, p.sym, p.pri))
    case None =>
      AppendState(rules, Lookaheads(rules, F), states, next);
      var states' := states + [next];
      assert states'[cur] == states[cur] && states'[|states|] == next;
      (states', Transition(cur, |states|, p.sym, p.pri))
  }

  /** The path loop of `buildCanonicalCollection`, one transition per
      path, in path order. */
  function Link(rules: seq<Rule>, F: Rel, states: seq<seq<Item>>, cur: nat, paths: seq<Path>, trans: seq<Transition>): (res: (seq<seq<Item>>, seq<Transition>))
    requires WfStates(rules, Lookaheads(rules, F), states) && cur < |states|
    ensures WfStates(rules, Lookaheads(rules, F), res.0)
    ensures Linked(rules, F, states, cur, paths, trans, res.0, res.1)
    decreases |paths|
  {
    if |paths| == 0 then (states, trans)
    else
      var step := LinkOne(rules, F, states, cur, paths[0]);
      var res := Link(rules, F, step.0, cur, paths[1..], trans + [step.1]);
      LinkTail(rules, F, states, cur, paths, trans, step.1, step.0, res);
      res
  }

  /** Appending a new state within the universe keeps the states well formed. */
  lemma AppendState(rules: seq<Rule>, TU: set<Terminal>, states: seq<seq<Item>>, next: seq<Item>)
    requires WfStates(rules, TU, states) && Within(rules, TU, next)
    requires forall k :: 0 <= k < |states| ==> Elems(states[k]) != Elems(next)
    ensures WfStates(rules, TU, states + [next])
    ensures (states + [next])[..|states|] == states
  {
    var s' := states + [next];
    assert forall k :: 0 <= k < |states| ==> s'[k] == states[k];
  }

  /** A recorded transition stays valid when states are appended. */
  lemma LinkedExtend(rules: seq<Rule>, F: Rel, mid: seq<seq<Item>>, big: seq<seq<Item>>, cur: nat, p: Path, tr: Transition)
    requires |mid| <= |big| && big[..|mid|] == mid
    requires LinkedAs(rules, F, mid, cur, p, tr)
    ensures LinkedAs(rules, F, big, cur, p, tr)
  {
    assert big[cur] == mid[cur] && big[tr.to] == mid[tr.to];
  }

  /** The step of `Link`: the first path's transition survives the rest. */
  lemma LinkTail(rules: seq<Rule>, F: Rel, states: seq<seq<Item>>, cur: nat, paths: seq<Path>, trans: seq<Transition>,
                 tr: Transition, mid: seq<seq<Item>>, res: (seq<seq<Item>>, seq<Transition>))
    requires |paths| > 0 && cur < |states| <= |mid| && mid[..|states|] == states
    requires LinkedAs(rules, F, mid, cur, paths[0], tr)
    requires Linked(rules, F, mid, cur, paths[1..], trans + [tr], res.0, res.1)
    ensures Linked(rules, F, states, cur, paths, trans, res.0, res.1)
  {
    assert res.0[..|states|] == res.0[..|mid|][..|states|];
    assert |trans + [tr]| == |trans| + 1;
    assert res.1[..|trans|] == res.1[..|trans| + 1][..|trans|];
    assert res.1[|trans|] == (trans + [tr])[|trans|];
    LinkedExtend(rules, F, mid, res.0, cur, paths[0], tr);
    forall k | 0 <= k < |paths| ensures LinkedAs(rules, F, res.0, cur, paths[k], res.1[|trans| + k]) {
      if k > 0 {
        assert paths[1..][k - 1] == paths[k];
        assert res.1[|trans| + k] == res.1[|trans + [tr]| + (k - 1)];
        assert LinkedAs(rules, F, res.0, cur, paths[1..][k - 1], res.1[|trans + [tr]| + (k - 1)]);
      }
    }
  }

  /** The subsets of a set. */
  function PowerSet<T(!new)>(u: set<T>): set<set<T>> {
    set s | s <= u
  }

  /** Every item within the universe of lookaheads `TU`. */
  function ItemUniverse(rules: seq<Rule>, TU: set<Terminal>): set<Item> {
    set r, d, la | 0 <= r < |rules| && 0 <= d <= |rules[r].symbols| && la in PowerSet(TU) :: Item(r, d, la)
  }

  /** The item set of each state. */
  function StateSets(states: seq<seq<Item>>): (r: seq<set<Item>>)
    ensures |r| == |states| && forall k :: 0 <= k < |states| ==> r[k] == Elems(states[k])
  {
    seq(|states|, k requires 0 <= k < |states| => Elems(states[k]))
  }

  /** There are no more distinct states than subsets of the item universe,
      so the collection stops growing. */
  lemma StatesBound(rules: seq<Rule>, TU: set<Terminal>, states: seq<seq<Item>>)
    requires WfStates(rules, TU, states)
    ensures |states| <= |PowerSet(ItemUniverse(rules, TU))|
  {
    var IU := ItemUniverse(rules, TU);
    var sets := StateSets(states);
    NoDupCard(sets);
    forall S | S in Elems(sets) ensures S in PowerSet(IU) {
      var k :| 0 <= k < |sets| && S == sets[k];
      forall x | x in S ensures x in IU {
        var j :| 0 <= j < |states[k]| && states[k][j] == x;
        assert x.lookahead in PowerSet(TU);
      }
    }
    SubsetCard(Elems(sets), PowerSet(IU));
  }

  /** The worklist loop of `buildCanonicalCollection`. The worklist is
      first-in first-out and states are appended when first found, so it
      visits the states in index order: `cur` is the next state to visit. */
  function Build(rules: seq<Rule>, F: Rel, pris: Priorities.Store, states: seq<seq<Item>>, cur: nat,
                 trans: seq<Transition>, reds: seq<Reduction>): (c: Collection)
    requires WfStates(rules, Lookaheads(rules, F), states) && cur <= |states|
    ensures WfStates(rules, Lookaheads(rules, F), c.states)
    ensures |states| <= |c.states| && c.states[..|states|] == states
    decreases |PowerSet(ItemUniverse(rules, Lookaheads(rules, F)))| - |states|, |states| - cur
  {
    if cur == |states| then Collection(states, trans, reds)
    else
      var items := states[cur];
      var step := Link(rules, F, states, cur, Paths(rules, pris, items), trans);
      StatesBound(rules, Lookaheads(rules, F), step.0);
      var c := Build(rules, F, pris, step.0, cur + 1, step.1, reds + Completed(rules, cur, items));
      assert c.states[..|states|] == c.states[..|step.0|][..|states|];
      c
  }

  /** `buildCanonicalCollection`, starting from the initial state. */
  function CanonicalCollection(rules: seq<Rule>, F: Rel, pris: Priorities.Store, start: Nonterminal): (c: Collection)
    ensures |c.states| > 0 && c.states[0] == InitialState(rules, F, start)
    ensures WfStates(rules, Lookaheads(rules, F), c.states)
  {
    InitialWithin(rules, F, start);
    var c := Build(rules, F, pris, [InitialState(rules, F, start)], 0, [], []);
    assert c.states[..1][0] == c.states[0];
    c
  }

  /** A transition leads to the state equal to the successor item set of
      its source over its symbol, with the highest priority of the items
      that move. */
  predicate Edge(rules: seq<Rule>, F: Rel, pris: Priorities.Store, states: seq<seq<Item>>, tr: Transition) {
    tr.from < |states| && tr.to < |states| && ValidItems(rules, states[tr.from]) &&
    Elems(states[tr.to]) == Elems(Goto(rules, F, states[tr.from], tr.sym)) &&
    IsPathOf(rules, pris, states[tr.from], tr.sym, tr.pri)
  }

  /** Some transition leaves state `i` over `sym`. */
  predicate HasEdge(trans: seq<Transition>, i: nat, sym: Symbol) {
    exists k :: 0 <= k < |trans| && trans[k].from == i && trans[k].sym == sym
  }

  /** No two transitions leave the same state over the same symbol. */
  predicate Deterministic(trans: seq<Transition>) {
    forall a, b :: 0 <= a < b < |trans| ==> trans[a].from != trans[b].from || trans[a].sym != trans[b].sym
  }

  /** What the collection promises once the states below `cur` are
      visited. */
  ghost predicate Visited(rules: seq<Rule>, F: Rel, pris: Priorities.Store, states: seq<seq<Item>>, cur: nat,
                    trans: seq<Transition>, reds: seq<Reduction>) {
    cur <= |states| &&
    (forall k :: 0 <= k < |trans| ==> trans[k].from < cur && Edge(rules, F, pris, states, trans[k])) &&
    (forall i, it, sym :: 0 <= i < cur && it in states[i] && AtDot(rules, it, sym) ==> HasEdge(trans, i, sym)) &&
    Deterministic(trans) &&
    (forall x :: x in reds <==> (x.state < cur && x.rule < |rules| &&
      Item(x.rule, |rules[x.rule].symbols|, x.lookahead) in states[x.state]))
  }

  lemma EdgeExtend(rules: seq<Rule>, F: Rel, pris: Priorities.Store, states: seq<seq<Item>>, big: seq<seq<Item>>, tr: Transition)
    requires |states| <= |big| && big[..|states|] == states
    requires Edge(rules, F, pris, states, tr)
    ensures Edge(rules, F, pris, big, tr)
  {
    assert big[tr.from] == states[tr.from] && big[tr.to] == states[tr.to];
  }

  /** What `Link` gives for state `cur`: the states and transitions
      extended, one transition per path. */
  predicate Linked(rules: seq<Rule>, F: Rel, states: seq<seq<Item>>, cur: nat, paths: seq<Path>,
                   trans: seq<Transition>, S: seq<seq<Item>>, T: seq<Transition>) {
    |states| <= |S| && S[..|states|] == states &&
    |T| == |trans| + |paths| && T[..|trans|] == trans &&
    forall j :: 0 <= j < |paths| ==> LinkedAs(rules, F, S, cur, paths[j], T[|trans| + j])
  }

  /** The transitions `Link` appends leave `cur` over the path symbols, in
      path order, after the earlier ones. */
  predicate Labelled(cur: nat, paths: seq<Path>, trans: seq<Transition>, T: seq<Transition>) {
    |T| == |trans| + |paths| && T[..|trans|] == trans &&
    forall j :: 0 <= j < |paths| ==> Labels(T[|trans| + j], cur, paths[j])
  }

  /** Transition `tr` leaves `cur` over the symbol of path `p`. */
  predicate Labels(tr: Transition, cur: nat, p: Path) {
    tr.from == cur && tr.sym == p.sym
  }

  lemma LinkedLabelled(rules: seq<Rule>, F: Rel, states: seq<seq<Item>>, cur: nat, paths: seq<Path>,
                       trans: seq<Transition>, S: seq<seq<Item>>, T: seq<Transition>)
    requires Linked(rules, F, states, cur, paths, trans, S, T)
    ensures Labelled(cur, paths, trans, T)
  {
    assert |T| == |trans| + |paths| && T[..|trans|] == trans;
    forall j | 0 <= j < |paths| ensures Labels(T[|trans| + j], cur, paths[j]) {
      assert LinkedAs(rules, F, S, cur, paths[j], T[|trans| + j]);
    }
  }

  lemma LabelledPrefix(cur: nat, paths: seq<Path>, trans: seq<Transition>, T: seq<Transition>)
    requires Labelled(cur, paths, trans, T)
    ensures forall k :: 0 <= k < |trans| ==> T[k] == trans[k]
  {
    forall k | 0 <= k < |trans| ensures T[k] == trans[k] {
      assert T[..|trans|][k] == T[k];
    }
  }

  lemma LinkedPrefix(rules: seq<Rule>, F: Rel, states: seq<seq<Item>>, cur: nat, paths: seq<Path>,
                     trans: seq<Transition>, S: seq<seq<Item>>, T: seq<Transition>)
    requires Linked(rules, F, states, cur, paths, trans, S, T)
    ensures forall i :: 0 <= i < |states| ==> S[i] == states[i]
    ensures forall k :: 0 <= k < |trans| ==> T[k] == trans[k]
  {
    forall i | 0 <= i < |states| ensures S[i] == states[i] {
      assert S[..|states|][i] == S[i];
    }
    forall k | 0 <= k < |trans| ensures T[k] == trans[k] {
      assert T[..|trans|][k] == T[k];
    }
  }

  lemma VisitEdges(rules: seq<Rule>, F: Rel, pris: Priorities.Store, states: seq<seq<Item>>, cur: nat,
                   trans: seq<Transition>, S: seq<seq<Item>>, T: seq<Transition>)
    requires cur < |states|
    requires Linked(rules, F, states, cur, Paths(rules, pris, states[cur]), trans, S, T)
    requires forall k :: 0 <= k < |trans| ==> trans[k].from < cur && Edge(rules, F, pris, states, trans[k])
    ensures forall k :: 0 <= k < |T| ==> T[k].from < cur + 1 && Edge(rules, F, pris, S, T[k])
  {
    var paths := Paths(rules, pris, states[cur]);
    LinkedPrefix(rules, F, states, cur, paths, trans, S, T);
    forall k | 0 <= k < |T| ensures T[k].from < cur + 1 && Edge(rules, F, pris, S, T[k]) {
      if k < |trans| {
        EdgeExtend(rules, F, pris, states, S, trans[k]);
      } else {
        var j := k - |trans|;
        assert LinkedAs(rules, F, S, cur, paths[j], T[|trans| + j]);
        LookupAt(paths, j);
        assert S[cur] == states[cur];
      }
    }
  }

  lemma VisitComplete(rules: seq<Rule>, pris: Priorities.Store, states: seq<seq<Item>>, cur: nat,
                      trans: seq<Transition>, S: seq<seq<Item>>, T: seq<Transition>)
    requires cur < |states| <= |S| && S[..|states|] == states
    requires Labelled(cur, Paths(rules, pris, states[cur]), trans, T)
    requires forall i, it, sym :: 0 <= i < cur && it in states[i] && AtDot(rules, it, sym) ==> HasEdge(trans, i, sym)
    ensures forall i, it, sym :: 0 <= i < cur + 1 && it in S[i] && AtDot(rules, it, sym) ==> HasEdge(T, i, sym)
  {
    var paths := Paths(rules, pris, states[cur]);
    LabelledPrefix(cur, paths, trans, T);
    forall i, it, sym | 0 <= i < cur + 1 && it in S[i] && AtDot(rules, it, sym) ensures HasEdge(T, i, sym) {
      assert S[..|states|][i] == S[i];
      assert it in states[i];
      if i < cur {
        var k :| 0 <= k < |trans| && trans[k].from == i && trans[k].sym == sym;
        assert T[k] == trans[k];
      } else {
        assert Lookup(paths, sym).Some?;
        var j :| 0 <= j < |paths| && paths[j].sym == sym;
        assert T[|trans| + j].from == cur && T[|trans| + j].sym == sym;
      }
    }
  }

  lemma VisitDeterministic(rules: seq<Rule>, pris: Priorities.Store, states: seq<seq<Item>>, cur: nat,
                           trans: seq<Transition>, T: seq<Transition>)
    requires cur < |states|
    requires Labelled(cur, Paths(rules, pris, states[cur]), trans, T)
    requires forall k :: 0 <= k < |trans| ==> trans[k].from < cur
    requires Deterministic(trans)
    ensures Deterministic(T)
  {
    var paths := Paths(rules, pris, states[cur]);
    LabelledPrefix(cur, paths, trans, T);
    forall a, b | 0 <= a < b < |T| ensures T[a].from != T[b].from || T[a].sym != T[b].sym {
      if b < |trans| {
        assert T[a] == trans[a] && T[b] == trans[b];
      } else if a < |trans| {
        assert T[a] == trans[a];
        var jb := b - |trans|;
        assert paths[jb] == paths[jb];
        assert T[|trans| + jb].from == cur;
      } else {
        var ja := a - |trans|;
        var jb := b - |trans|;
        assert paths[ja].sym != paths[jb].sym;
        assert T[|trans| + ja].sym == paths[ja].sym;
        assert T[|trans| + jb].sym == paths[jb].sym;
      }
    }
  }

  lemma VisitReductions(rules: seq<Rule>, states: seq<seq<Item>>, cur: nat, reds: seq<Reduction>, S: seq<seq<Item>>)
    requires cur < |states| <= |S| && S[..|states|] == states
    requires forall x :: x in reds <==> (x.state < cur && x.rule < |rules| &&
      Item(x.rule, |rules[x.rule].symbols|, x.lookahead) in states[x.state])
    ensures forall x :: x in reds + Completed(rules, cur, states[cur]) <==> (x.state < cur + 1 && x.rule < |rules| &&
      Item(x.rule, |rules[x.rule].symbols|, x.lookahead) in S[x.state])
  {
    forall x ensures x in reds + Completed(rules, cur, states[cur]) <==> (x.state < cur + 1 && x.rule < |rules| &&
      Item(x.rule, |rules[x.rule].symbols|, x.lookahead) in S[x.state])
    {
      if x.state < cur + 1 {
        assert S[..|states|][x.state] == S[x.state];
      }
    }
  }

  /** Visiting state `cur` records its transitions and reductions. */
  lemma VisitStep(rules: seq<Rule>, F: Rel, pris: Priorities.Store, states: seq<seq<Item>>, cur: nat,
                  trans: seq<Transition>, reds: seq<Reduction>)
    requires WfStates(rules, Lookaheads(rules, F), states) && cur < |states|
    requires Visited(rules, F, pris, states, cur, trans, reds)
    ensures Visited(rules, F, pris,
      Link(rules, F, states, cur, Paths(rules, pris, states[cur]), trans).0, cur + 1,
      Link(rules, F, states, cur, Paths(rules, pris, states[cur]), trans).1,
      reds + Completed(rules, cur, states[cur]))
  {
    var paths := Paths(rules, pris, states[cur]);
    var step := Link(rules, F, states, cur, paths, trans);
    assert Linked(rules, F, states, cur, paths, trans, step.0, step.1);
    VisitEdges(rules, F, pris, states, cur, trans, step.0, step.1);
    LinkedLabelled(rules, F, states, cur, paths, trans, step.0, step.1);
    VisitComplete(rules, pris, states, cur, trans, step.0, step.1);
    VisitDeterministic(rules, pris, states, cur, trans, step.1);
    VisitReductions(rules, states, cur, reds, step.0);
  }

  /** The loop keeps what the visited states promise, up to the last
      state. */
  lemma {:induction false} BuildVisits(rules: seq<Rule>, F: Rel, pris: Priorities.Store, states: seq<seq<Item>>, cur: nat,
                                       trans: seq<Transition>, reds: seq<Reduction>)
    requires WfStates(rules, Lookaheads(rules, F), states) && cur <= |states|
    requires Visited(rules, F, pris, states, cur, trans, reds)
    ensures Visited(rules, F, pris, Build(rules, F, pris, states, cur, trans, reds).states,
      |Build(rules, F, pris, states, cur, trans, reds).states|,
      Build(rules, F, pris, states, cur, trans, reds).transitions,
      Build(rules, F, pris, states, cur, trans, reds).reductions)
    decreases |PowerSet(ItemUniverse(rules, Lookaheads(rules, F)))| - |states|, |states| - cur
  {
    if cur < |states| {
      var items := states[cur];
      var step := Link(rules, F, states, cur, Paths(rules, pris, items), trans);
      StatesBound(rules, Lookaheads(rules, F), step.0);
      VisitStep(rules, F, pris, states, cur, trans, reds);
      BuildVisits(rules, F, pris, step.0, cur + 1, step.1, reds + Completed(rules, cur, items));
    }
  }

  /** The canonical collection: state 0 is the initial state, no two
      states are equal, every transition leads to the successor item set
      with the highest priority of the items that move, every symbol after
      a placeholder has exactly one transition, and the reductions are
      exactly the completed items. */
  lemma CollectionProperties(rules: seq<Rule>, F: Rel, pris: Priorities.Store, start: Nonterminal)
    ensures Distinct(CanonicalCollection(rules, F, pris, start).states)
    ensures forall tr :: tr in CanonicalCollection(rules, F, pris, start).transitions ==>
      Edge(rules, F, pris, CanonicalCollection(rules, F, pris, start).states, tr)
    ensures forall i, it, sym ::
      (0 <= i < |CanonicalCollection(rules, F, pris, start).states| &&
       it in CanonicalCollection(rules, F, pris, start).states[i] && AtDot(rules, it, sym)) ==>
      HasEdge(CanonicalCollection(rules, F, pris, start).transitions, i, sym)
    ensures Deterministic(CanonicalCollection(rules, F, pris, start).transitions)
    ensures forall x :: x in CanonicalCollection(rules, F, pris, start).reductions <==>
      (x.state < |CanonicalCollection(rules, F, pris, start).states| && x.rule < |rules| &&
       Item(x.rule, |rules[x.rule].symbols|, x.lookahead) in CanonicalCollection(rules, F, pris, start).states[x.state])
  {
    InitialWithin(rules, F, start);
    var s0 := [InitialState(rules, F, start)];
    BuildVisits(rules, F, pris, s0, 0, [], []);
    var c := CanonicalCollection(rules, F, pris, start);
    forall tr | tr in c.transitions ensures Edge(rules, F, pris, c.states, tr) {
      var k :| 0 <= k < |c.transitions| && c.transitions[k] == tr;
    }
  }
}
