/** LR(1) items and their closure (`TableBuilder.closure`,
    `buildRuleOptions`, `calcNextState`). The closure gathers, per rule, the
    set of lookahead terminals with which the rule can be expanded; each
    gathered rule becomes one item with the placeholder at 0. */
module LR1Items {
  import opened Seqs
  import opened Symbols
  import opened ParseRules
  import opened FirstSets
  import Catalog

  /** An LR(1) item: a rule (by index), the placeholder position in its
      body and the set of lookahead terminals. Two items are equal when the
      rule, the placeholder and the lookahead set are. */
  datatype Item = Item(rule: nat, dot: nat, lookahead: set<Terminal>)

  /** A body position to expand: an item of the set being closed, or the
      primer `[start]` of the initial state. */
  datatype Seed = Seed(body: seq<Symbol>, dot: nat, lookahead: set<Terminal>)

  /** Every item names a rule and has its placeholder within the body. */
  predicate ValidItems(rules: seq<Rule>, items: seq<Item>) {
    forall k :: 0 <= k < |items| ==> items[k].rule < |rules| && items[k].dot <= |rules[items[k].rule].symbols|
  }

  /** The terminals among a set of FIRST elements. */
  function TermsOf(ms: set<Mark>): (r: set<Terminal>)
    ensures forall t :: t in r <==> Term(t) in ms
  {
    set m | m in ms && m.Term? :: m.t
  }

  /** `t` begins `body[from..]`: it is in FIRST of a symbol that only
      nullable symbols precede. */
  predicate StartsSuffix(F: Rel, body: seq<Symbol>, from: nat, t: Terminal)
    requires from <= |body|
  {
    exists b :: from <= b < |body| && NullableRange(F, body, from, b) && InFirst(F, body[b], Term(t))
  }

  lemma StartsStep(F: Rel, body: seq<Symbol>, from: nat)
    requires from < |body|
    ensures forall t :: StartsSuffix(F, body, from, t) <==>
      InFirst(F, body[from], Term(t)) || (Nullable(F, body[from]) && StartsSuffix(F, body, from + 1, t))
    ensures NullableRange(F, body, from, |body|) <==>
      Nullable(F, body[from]) && NullableRange(F, body, from + 1, |body|)
  {
    forall t ensures StartsSuffix(F, body, from, t) <==>
      InFirst(F, body[from], Term(t)) || (Nullable(F, body[from]) && StartsSuffix(F, body, from + 1, t))
    {
      if StartsSuffix(F, body, from, t) {
        var b :| from <= b < |body| && NullableRange(F, body, from, b) && InFirst(F, body[b], Term(t));
        if b > from {
          assert NullableRange(F, body, from + 1, b);
        }
      }
      if InFirst(F, body[from], Term(t)) {
        assert NullableRange(F, body, from, from);
      }
      if Nullable(F, body[from]) && StartsSuffix(F, body, from + 1, t) {
        var b :| from + 1 <= b < |body| && NullableRange(F, body, from + 1, b) && InFirst(F, body[b], Term(t));
        assert NullableRange(F, body, from, b);
      }
    }
  }

  /** The lookaheads of an expansion at `body[from - 1]` (the options loop
      of `buildRuleOptions`): FIRST of the rest of the body, and the outer
      lookaheads when the rest can derive the empty string. */
  function SuffixOptions(F: Rel, body: seq<Symbol>, from: nat, outer: set<Terminal>): (r: set<Terminal>)
    requires from <= |body|
    ensures forall t :: t in r <==>
      StartsSuffix(F, body, from, t) || (NullableRange(F, body, from, |body|) && t in outer)
    decreases |body| - from
  {
    if from == |body| then outer
    else
      StartsStep(F, body, from);
      TermsOf(FirstOf(F, body[from])) +
      (if Nullable(F, body[from]) then SuffixOptions(F, body, from + 1, outer) else {})
  }

  /** More outer lookaheads give more options. */
  lemma SuffixOptionsMono(F: Rel, body: seq<Symbol>, from: nat, outer: set<Terminal>, outer': set<Terminal>)
    requires from <= |body| && outer <= outer'
    ensures SuffixOptions(F, body, from, outer) <= SuffixOptions(F, body, from, outer')
  {
  }

  /** The terminals written in a body. */
  function BodyTerms(body: seq<Symbol>): set<Terminal> {
    set j | 0 <= j < |body| && body[j].T? :: body[j].t
  }

  /** The terminals written in any rule body. */
  function RulesTerms(rules: seq<Rule>): set<Terminal> {
    set i, j | 0 <= i < |rules| && 0 <= j < |rules[i].symbols| && rules[i].symbols[j].T? :: rules[i].symbols[j].t
  }

  /** The terminals a FIRST relation mentions. */
  function FTerms(F: Rel): set<Terminal> {
    set p | p in F && p.1.Term? :: p.1.t
  }

  lemma RuleBodyTerms(rules: seq<Rule>, i: nat)
    requires i < |rules|
    ensures BodyTerms(rules[i].symbols) <= RulesTerms(rules)
  {
    forall t | t in BodyTerms(rules[i].symbols) ensures t in RulesTerms(rules) {
      var j :| 0 <= j < |rules[i].symbols| && rules[i].symbols[j].T? && rules[i].symbols[j].t == t;
    }
  }

  /** Options never leave a terminal universe holding the FIRST sets, the
      body and the outer lookaheads. */
  lemma SuffixOptionsWithin(F: Rel, body: seq<Symbol>, from: nat, outer: set<Terminal>, TU: set<Terminal>)
    requires from <= |body|
    requires FTerms(F) <= TU && BodyTerms(body) <= TU && outer <= TU
    ensures SuffixOptions(F, body, from, outer) <= TU
  {
    forall t | t in SuffixOptions(F, body, from, outer) ensures t in TU {
      if StartsSuffix(F, body, from, t) {
        var b :| from <= b < |body| && NullableRange(F, body, from, b) && InFirst(F, body[b], Term(t));
        if body[b].T? {
          assert t in BodyTerms(body);
        } else {
          assert (body[b].nt, Term(t)) in F;
        }
      }
    }
  }

  /** The closure's `optionMap`: the lookaheads gathered per rule index. */
  type Opts = map<nat, set<Terminal>>

  /** A rule's gathered lookaheads, none when it is not yet in the map. */
  function OptsOf(la: Opts, r: nat): set<Terminal> {
    if r in la then la[r] else {}
  }

  /** `a` is contained in `b` rule by rule. */
  predicate Le(a: Opts, b: Opts) {
    forall r :: r in a ==> r in b && a[r] <= b[r]
  }

  /** A rule whose body starts with a nonterminal, so that expanding it
      expands that nonterminal. */
  predicate Expandable(rules: seq<Rule>, r: nat) {
    r < |rules| && |rules[r].symbols| > 0 && rules[r].symbols[0].N?
  }

  function Head(rules: seq<Rule>, r: nat): Nonterminal
    requires Expandable(rules, r)
  {
    rules[r].symbols[0].nt
  }

  /** Every rule for `n` is gathered with at least `options`. */
  predicate Covers(rules: seq<Rule>, la: Opts, n: Nonterminal, options: set<Terminal>) {
    forall r: nat :: r < |rules| && rules[r].target == n ==> r in la && options <= la[r]
  }

  lemma CoversMono(rules: seq<Rule>, la: Opts, lb: Opts, n: Nonterminal, options: set<Terminal>)
    requires Le(la, lb) && Covers(rules, la, n, options)
    ensures Covers(rules, lb, n, options)
  {
  }

  /** What the rule loop of `buildRuleOptions` leaves: each listed rule
      gained `options` and nothing else changed, and the rules whose set
      grew and whose body starts with a nonterminal were queued after the
      old worklist, and only those. */
  ghost predicate Added(rules: seq<Rule>, prods: seq<nat>, options: set<Terminal>, la: Opts, wl: seq<nat>, res: (Opts, seq<nat>)) {
    Le(la, res.0) &&
    (forall r :: r in res.0 <==> r in la || r in prods) &&
    (forall r :: r in prods ==> r in res.0 && res.0[r] == OptsOf(la, r) + options) &&
    (forall r :: r in res.0 && r !in prods ==> res.0[r] == la[r]) &&
    |wl| <= |res.1| && res.1[..|wl|] == wl &&
    (forall k :: |wl| <= k < |res.1| ==>
      res.1[k] in prods && Expandable(rules, res.1[k]) && !(options <= OptsOf(la, res.1[k]))) &&
    (forall r :: r in prods && Expandable(rules, r) && !(options <= OptsOf(la, r)) ==> r in res.1)
  }

  /** The rule loop of `buildRuleOptions`: each listed rule gains
      `options`, and goes on the worklist when its set grew and its body
      starts with a nonterminal. */
  function AddOptions(rules: seq<Rule>, prods: seq<nat>, options: set<Terminal>, la: Opts, wl: seq<nat>): (res: (Opts, seq<nat>))
    ensures Added(rules, prods, options, la, wl, res)
    decreases |prods|
  {
    if |prods| == 0 then (la, wl)
    else
      var r := prods[0];
      var had := OptsOf(la, r);
      var la1 := la[r := had + options];
      var wl1 := if !(options <= had) && Expandable(rules, r) then wl + [r] else wl;
      var res := AddOptions(rules, prods[1..], options, la1, wl1);
      AddedStep(rules, prods, options, la, wl, res);
      res
  }

  /** One rule of the loop: what the rest of the loop leaves from the
      updated map and worklist is what the whole loop leaves. */
  lemma AddedStep(rules: seq<Rule>, prods: seq<nat>, options: set<Terminal>, la: Opts, wl: seq<nat>, res: (Opts, seq<nat>))
    requires |prods| > 0
    requires var r := prods[0];
      Added(rules, prods[1..], options, la[r := OptsOf(la, r) + options],
            if !(options <= OptsOf(la, r)) && Expandable(rules, r) then wl + [r] else wl, res)
    ensures Added(rules, prods, options, la, wl, res)
  {
    var r := prods[0];
    var had := OptsOf(la, r);
    var la1 := la[r := had + options];
    var wl1 := if !(options <= had) && Expandable(rules, r) then wl + [r] else wl;
    assert forall q :: q in prods <==> q == r || q in prods[1..];
    assert forall q :: q != r ==> OptsOf(la1, q) == OptsOf(la, q);
    assert res.1[..|wl|] == res.1[..|wl1|][..|wl|];
    forall k | |wl| <= k < |res.1|
      ensures res.1[k] in prods && Expandable(rules, res.1[k]) && !(options <= OptsOf(la, res.1[k]))
    {
      if k < |wl1| {
        assert res.1[k] == res.1[..|wl1|][k] == r;
      } else {
        var q := res.1[k];
        assert q in prods[1..] && !(options <= OptsOf(la1, q));
        assert q != r;
      }
    }
    forall q | q in prods && Expandable(rules, q) && !(options <= OptsOf(la, q)) ensures q in res.1 {
      if q == r {
        assert res.1[..|wl1|][|wl|] == r;
      } else {
        assert q in prods[1..];
      }
    }
  }

  /** Expanding the nonterminal at a body position. */
  function BuildRuleOptions(rules: seq<Rule>, F: Rel, body: seq<Symbol>, dot: nat, outer: set<Terminal>, la: Opts, wl: seq<nat>): (res: (Opts, seq<nat>))
    requires dot < |body| && body[dot].N?
    ensures Covers(rules, res.0, body[dot].nt, SuffixOptions(F, body, dot + 1, outer))
  {
    AddOptions(rules, Catalog.ProductionsOf(rules, body[dot].nt), SuffixOptions(F, body, dot + 1, outer), la, wl)
  }

  /** A seed has a nonterminal at its placeholder. */
  predicate Expands(s: Seed) {
    s.dot < |s.body| && s.body[s.dot].N?
  }

  /** The lookaheads a seed's expansion gives. */
  function SeedOptions(F: Rel, s: Seed): set<Terminal>
    requires s.dot < |s.body|
  {
    SuffixOptions(F, s.body, s.dot + 1, s.lookahead)
  }

  /** The gathered map honours every seed. */
  predicate SeedsClosed(rules: seq<Rule>, F: Rel, seeds: seq<Seed>, la: Opts) {
    forall k :: 0 <= k < |seeds| && Expands(seeds[k]) ==>
      Covers(rules, la, seeds[k].body[seeds[k].dot].nt, SeedOptions(F, seeds[k]))
  }

  /** The gathered map honours every gathered rule with a lookahead. A
      rule gathered with no lookahead at all is never put on the worklist,
      so it is not expanded. */
  predicate RulesClosed(rules: seq<Rule>, F: Rel, la: Opts) {
    forall p :: p in la && Expandable(rules, p) && la[p] != {} ==>
      Covers(rules, la, Head(rules, p), SuffixOptions(F, rules[p].symbols, 1, la[p]))
  }

  /** Every gathered rule with a lookahead, other than those in `skip`, is
      either waiting on the worklist or honoured. */
  predicate PendingBut(rules: seq<Rule>, F: Rel, la: Opts, wl: seq<nat>, skip: set<nat>) {
    forall p :: p in la && Expandable(rules, p) && la[p] != {} && p !in skip ==>
      p in wl || Covers(rules, la, Head(rules, p), SuffixOptions(F, rules[p].symbols, 1, la[p]))
  }

  /** The terminals a seed mentions. */
  function SeedTerms(s: Seed): set<Terminal> {
    BodyTerms(s.body) + s.lookahead
  }

  /** The map stays over rule indices and a terminal universe, and the
      worklist holds expandable gathered rules with lookaheads. */
  predicate Inv(rules: seq<Rule>, TU: set<Terminal>, la: Opts, wl: seq<nat>) {
    (forall r :: r in la ==> r < |rules| && la[r] <= TU) &&
    (forall k :: 0 <= k < |wl| ==> wl[k] in la && Expandable(rules, wl[k]) && la[wl[k]] != {})
  }

  /** A universe holding everything the closure can gather. */
  predicate Bounds(rules: seq<Rule>, F: Rel, TU: set<Terminal>) {
    FTerms(F) <= TU && RulesTerms(rules) <= TU
  }

  lemma AddOptionsInv(rules: seq<Rule>, TU: set<Terminal>, n: Nonterminal, options: set<Terminal>, la: Opts, wl: seq<nat>)
    requires Inv(rules, TU, la, wl) && options <= TU
    ensures Inv(rules, TU, AddOptions(rules, Catalog.ProductionsOf(rules, n), options, la, wl).0,
                           AddOptions(rules, Catalog.ProductionsOf(rules, n), options, la, wl).1)
  {
    var prods := Catalog.ProductionsOf(rules, n);
    var res := AddOptions(rules, prods, options, la, wl);
    forall r | r in res.0 ensures r < |rules| && res.0[r] <= TU {
      if r in prods {
        assert res.0[r] == OptsOf(la, r) + options;
      } else {
        assert res.0[r] == la[r];
      }
    }
    forall k | 0 <= k < |res.1| ensures res.1[k] in res.0 && Expandable(rules, res.1[k]) && res.0[res.1[k]] != {} {
      if k < |wl| {
        assert res.1[k] == res.1[..|wl|][k] == wl[k];
      } else {
        assert res.1[k] in prods;
      }
    }
  }

  /** Adding options keeps every other rule pending or honoured. */
  lemma AddOptionsPending(rules: seq<Rule>, F: Rel, prods: seq<nat>, options: set<Terminal>, la: Opts, wl: seq<nat>, skip: set<nat>)
    requires PendingBut(rules, F, la, wl, skip)
    ensures PendingBut(rules, F, AddOptions(rules, prods, options, la, wl).0, AddOptions(rules, prods, options, la, wl).1, skip)
  {
    var res := AddOptions(rules, prods, options, la, wl);
    forall p | p in res.0 && Expandable(rules, p) && res.0[p] != {} && p !in skip
      ensures p in res.1 || Covers(rules, res.0, Head(rules, p), SuffixOptions(F, rules[p].symbols, 1, res.0[p]))
    {
      if p in prods && !(options <= OptsOf(la, p)) {
      } else {
        assert p in la && res.0[p] == la[p];
        if p in wl {
          assert p in res.1[..|wl|];
        } else {
          CoversMono(rules, la, res.0, Head(rules, p), SuffixOptions(F, rules[p].symbols, 1, la[p]));
        }
      }
    }
  }

  /** The seed loop of `closure`. */
  function SeedPhase(rules: seq<Rule>, F: Rel, TU: set<Terminal>, seeds: seq<Seed>, la: Opts, wl: seq<nat>): (res: (Opts, seq<nat>))
    requires Bounds(rules, F, TU) && Inv(rules, TU, la, wl)
    requires forall k :: 0 <= k < |seeds| ==> SeedTerms(seeds[k]) <= TU
    ensures Le(la, res.0) && Inv(rules, TU, res.0, res.1)
    decreases |seeds|
  {
    if |seeds| == 0 then (la, wl)
    else
      var s := seeds[0];
      assert SeedTerms(seeds[0]) <= TU;
      assert forall k :: 0 <= k < |seeds[1..]| ==> seeds[1..][k] == seeds[k + 1];
      if Expands(s) then
        SuffixOptionsWithin(F, s.body, s.dot + 1, s.lookahead, TU);
        AddOptionsInv(rules, TU, s.body[s.dot].nt, SeedOptions(F, s), la, wl);
        var step := BuildRuleOptions(rules, F, s.body, s.dot, s.lookahead, la, wl);
        SeedPhase(rules, F, TU, seeds[1..], step.0, step.1)
      else
        SeedPhase(rules, F, TU, seeds[1..], la, wl)
  }

  /** How many terminals of the universe are not yet gathered for each
      rule. */
  function Gaps(la: Opts, TU: set<Terminal>): nat -> nat {
    r => |TU - OptsOf(la, r)|
  }

  /** How many (rule, terminal) pairs of the universe are not yet
      gathered for the rules below `n`. */
  function Missing(la: Opts, TU: set<Terminal>, n: nat): nat {
    Sum(Gaps(la, TU), n)
  }

  /** Gathering more leaves no more terminals missing for any rule. */
  lemma GapsShrink(la: Opts, lb: Opts, TU: set<Terminal>, n: nat)
    requires Le(la, lb)
    ensures forall k: nat :: k < n ==> Gaps(lb, TU)(k) <= Gaps(la, TU)(k)
  {
    forall k: nat | k < n ensures Gaps(lb, TU)(k) <= Gaps(la, TU)(k) {
      GapShrinks(TU, OptsOf(la, k), OptsOf(lb, k));
    }
  }

  /** Gathering more never raises the count of missing pairs. */
  lemma MissingMono(la: Opts, lb: Opts, TU: set<Terminal>, n: nat)
    requires Le(la, lb)
    ensures Missing(lb, TU, n) <= Missing(la, TU, n)
  {
    GapsShrink(la, lb, TU, n);
    SumLess(Gaps(lb, TU), Gaps(la, TU), n, 0);
  }

  /** Gathering a new pair of the universe lowers the count. */
  lemma MissingDrops(la: Opts, lb: Opts, TU: set<Terminal>, n: nat, q: nat, t: Terminal)
    requires Le(la, lb)
    requires q < n && t in TU && t in OptsOf(lb, q) && t !in OptsOf(la, q)
    ensures Missing(lb, TU, n) < Missing(la, TU, n)
  {
    GapsShrink(la, lb, TU, n);
    GapDrops(TU, OptsOf(la, q), OptsOf(lb, q), t);
    SumLess(Gaps(lb, TU), Gaps(la, TU), n, q);
  }

  /** The worklist loop of `closure`: a rule taken off the worklist is
      expanded with the lookaheads gathered for it so far. */
  function Drain(rules: seq<Rule>, F: Rel, TU: set<Terminal>, la: Opts, wl: seq<nat>): (res: Opts)
    requires Bounds(rules, F, TU) && Inv(rules, TU, la, wl)
    ensures Le(la, res) && Inv(rules, TU, res, [])
    decreases Missing(la, TU, |rules|), |wl|
  {
    if |wl| == 0 then la
    else
      var p := wl[0];
      var step := BuildRuleOptions(rules, F, rules[p].symbols, 0, la[p], la, wl[1..]);
      DrainStep(rules, F, TU, la, wl);
      Drain(rules, F, TU, step.0, step.1)
  }

  /** One worklist step keeps the invariant and shrinks the measure. */
  lemma DrainStep(rules: seq<Rule>, F: Rel, TU: set<Terminal>, la: Opts, wl: seq<nat>)
    requires Bounds(rules, F, TU) && Inv(rules, TU, la, wl) && |wl| > 0
    ensures Inv(rules, TU, BuildRuleOptions(rules, F, rules[wl[0]].symbols, 0, la[wl[0]], la, wl[1..]).0,
                           BuildRuleOptions(rules, F, rules[wl[0]].symbols, 0, la[wl[0]], la, wl[1..]).1)
    ensures Le(la, BuildRuleOptions(rules, F, rules[wl[0]].symbols, 0, la[wl[0]], la, wl[1..]).0)
    ensures Missing(BuildRuleOptions(rules, F, rules[wl[0]].symbols, 0, la[wl[0]], la, wl[1..]).0, TU, |rules|) <= Missing(la, TU, |rules|)
    ensures Missing(BuildRuleOptions(rules, F, rules[wl[0]].symbols, 0, la[wl[0]], la, wl[1..]).0, TU, |rules|) == Missing(la, TU, |rules|) ==>
      |BuildRuleOptions(rules, F, rules[wl[0]].symbols, 0, la[wl[0]], la, wl[1..]).1| < |wl|
  {
    var p := wl[0];
    var options := SuffixOptions(F, rules[p].symbols, 1, la[p]);
    var prods := Catalog.ProductionsOf(rules, Head(rules, p));
    RuleBodyTerms(rules, p);
    SuffixOptionsWithin(F, rules[p].symbols, 1, la[p], TU);
    assert Inv(rules, TU, la, wl[1..]);
    AddOptionsInv(rules, TU, Head(rules, p), options, la, wl[1..]);
    var res := AddOptions(rules, prods, options, la, wl[1..]);
    MissingMono(la, res.0, TU, |rules|);
    if |res.1| > |wl[1..]| {
      var q := res.1[|wl[1..]|];
      var t :| t in options && t !in OptsOf(la, q);
      assert q < |rules| && t in TU && t in OptsOf(res.0, q);
      MissingDrops(la, res.0, TU, |rules|, q, t);
    }
  }

  /** Every gathered rule is honoured once the worklist is empty. */
  lemma {:induction false} DrainClosed(rules: seq<Rule>, F: Rel, TU: set<Terminal>, la: Opts, wl: seq<nat>)
    requires Bounds(rules, F, TU) && Inv(rules, TU, la, wl)
    requires PendingBut(rules, F, la, wl, {})
    ensures RulesClosed(rules, F, Drain(rules, F, TU, la, wl))
    decreases Missing(la, TU, |rules|), |wl|
  {
    if |wl| > 0 {
      var p := wl[0];
      var options := SuffixOptions(F, rules[p].symbols, 1, la[p]);
      var prods := Catalog.ProductionsOf(rules, Head(rules, p));
      var step := AddOptions(rules, prods, options, la, wl[1..]);
      DrainStep(rules, F, TU, la, wl);
      assert PendingBut(rules, F, la, wl[1..], {p}) by {
        forall q | q in la && Expandable(rules, q) && la[q] != {} && q !in {p} && q in wl
          ensures q in wl[1..]
        {
          var k :| 0 <= k < |wl| && wl[k] == q;
          assert k != 0;
          assert wl[1..][k - 1] == q;
        }
      }
      AddOptionsPending(rules, F, prods, options, la, wl[1..], {p});
      assert Covers(rules, step.0, Head(rules, p), options);
      if step.0[p] != la[p] {
        assert p in prods && !(options <= OptsOf(la, p));
        assert p in step.1;
      }
      assert PendingBut(rules, F, step.0, step.1, {});
      DrainClosed(rules, F, TU, step.0, step.1);
    }
  }

  /** Adding options that `L` already holds for every listed rule stays
      within `L`. */
  lemma AddOptionsLeast(rules: seq<Rule>, prods: seq<nat>, options: set<Terminal>, la: Opts, wl: seq<nat>, L: Opts)
    requires Le(la, L)
    requires forall r :: r in prods ==> r in L && options <= L[r]
    ensures Le(AddOptions(rules, prods, options, la, wl).0, L)
  {
  }

  lemma {:induction false} DrainLeast(rules: seq<Rule>, F: Rel, TU: set<Terminal>, la: Opts, wl: seq<nat>, L: Opts)
    requires Bounds(rules, F, TU) && Inv(rules, TU, la, wl)
    requires Le(la, L) && RulesClosed(rules, F, L)
    ensures Le(Drain(rules, F, TU, la, wl), L)
    decreases Missing(la, TU, |rules|), |wl|
  {
    if |wl| > 0 {
      var p := wl[0];
      var options := SuffixOptions(F, rules[p].symbols, 1, la[p]);
      var prods := Catalog.ProductionsOf(rules, Head(rules, p));
      DrainStep(rules, F, TU, la, wl);
      assert L[p] != {};
      SuffixOptionsMono(F, rules[p].symbols, 1, la[p], L[p]);
      AddOptionsLeast(rules, prods, options, la, wl[1..], L);
      var step := AddOptions(rules, prods, options, la, wl[1..]);
      DrainLeast(rules, F, TU, step.0, step.1, L);
    }
  }

  /** After the seed loop every seed is honoured. */
  lemma {:induction false} SeedPhaseClosed(rules: seq<Rule>, F: Rel, TU: set<Terminal>, seeds: seq<Seed>, la: Opts, wl: seq<nat>)
    requires Bounds(rules, F, TU) && Inv(rules, TU, la, wl)
    requires forall k :: 0 <= k < |seeds| ==> SeedTerms(seeds[k]) <= TU
    ensures SeedsClosed(rules, F, seeds, SeedPhase(rules, F, TU, seeds, la, wl).0)
    decreases |seeds|
  {
    if |seeds| > 0 {
      var s := seeds[0];
      assert SeedTerms(seeds[0]) <= TU;
      assert forall k :: 0 <= k < |seeds[1..]| ==> seeds[1..][k] == seeds[k + 1];
      var res := SeedPhase(rules, F, TU, seeds, la, wl);
      if Expands(s) {
        SuffixOptionsWithin(F, s.body, s.dot + 1, s.lookahead, TU);
        AddOptionsInv(rules, TU, s.body[s.dot].nt, SeedOptions(F, s), la, wl);
        var step := BuildRuleOptions(rules, F, s.body, s.dot, s.lookahead, la, wl);
        assert Inv(rules, TU, step.0, step.1);
        SeedPhaseClosed(rules, F, TU, seeds[1..], step.0, step.1);
        assert res == SeedPhase(rules, F, TU, seeds[1..], step.0, step.1);
        CoversMono(rules, step.0, res.0, s.body[s.dot].nt, SeedOptions(F, s));
      } else {
        SeedPhaseClosed(rules, F, TU, seeds[1..], la, wl);
        assert res == SeedPhase(rules, F, TU, seeds[1..], la, wl);
      }
      forall k | 0 <= k < |seeds| && Expands(seeds[k])
        ensures Covers(rules, res.0, seeds[k].body[seeds[k].dot].nt, SeedOptions(F, seeds[k]))
      {
        if k > 0 {
          assert seeds[1..][k - 1] == seeds[k];
        }
      }
    }
  }

  /** The seed loop keeps every gathered rule pending or honoured. */
  lemma {:induction false} SeedPhasePending(rules: seq<Rule>, F: Rel, TU: set<Terminal>, seeds: seq<Seed>, la: Opts, wl: seq<nat>)
    requires Bounds(rules, F, TU) && Inv(rules, TU, la, wl)
    requires forall k :: 0 <= k < |seeds| ==> SeedTerms(seeds[k]) <= TU
    requires PendingBut(rules, F, la, wl, {})
    ensures PendingBut(rules, F, SeedPhase(rules, F, TU, seeds, la, wl).0, SeedPhase(rules, F, TU, seeds, la, wl).1, {})
    decreases |seeds|
  {
    if |seeds| > 0 {
      var s := seeds[0];
      assert SeedTerms(seeds[0]) <= TU;
      assert forall k :: 0 <= k < |seeds[1..]| ==> seeds[1..][k] == seeds[k + 1];
      if Expands(s) {
        SuffixOptionsWithin(F, s.body, s.dot + 1, s.lookahead, TU);
        AddOptionsInv(rules, TU, s.body[s.dot].nt, SeedOptions(F, s), la, wl);
        AddOptionsPending(rules, F, Catalog.ProductionsOf(rules, s.body[s.dot].nt), SeedOptions(F, s), la, wl, {});
        var step := BuildRuleOptions(rules, F, s.body, s.dot, s.lookahead, la, wl);
        SeedPhasePending(rules, F, TU, seeds[1..], step.0, step.1);
      } else {
        SeedPhasePending(rules, F, TU, seeds[1..], la, wl);
      }
    }
  }

  lemma {:induction false} SeedPhaseLeast(rules: seq<Rule>, F: Rel, TU: set<Terminal>, seeds: seq<Seed>, la: Opts, wl: seq<nat>, L: Opts)
    requires Bounds(rules, F, TU) && Inv(rules, TU, la, wl)
    requires forall k :: 0 <= k < |seeds| ==> SeedTerms(seeds[k]) <= TU
    requires Le(la, L) && SeedsClosed(rules, F, seeds, L)
    ensures Le(SeedPhase(rules, F, TU, seeds, la, wl).0, L)
    decreases |seeds|
  {
    if |seeds| > 0 {
      var s := seeds[0];
      assert SeedTerms(seeds[0]) <= TU;
      assert forall k :: 0 <= k < |seeds[1..]| ==> seeds[1..][k] == seeds[k + 1];
      assert SeedsClosed(rules, F, seeds[1..], L) by {
        forall k | 0 <= k < |seeds[1..]| && Expands(seeds[1..][k])
          ensures Covers(rules, L, seeds[1..][k].body[seeds[1..][k].dot].nt, SeedOptions(F, seeds[1..][k]))
        {
          assert seeds[1..][k] == seeds[k + 1];
        }
      }
      if Expands(s) {
        SuffixOptionsWithin(F, s.body, s.dot + 1, s.lookahead, TU);
        AddOptionsInv(rules, TU, s.body[s.dot].nt, SeedOptions(F, s), la, wl);
        AddOptionsLeast(rules, Catalog.ProductionsOf(rules, s.body[s.dot].nt), SeedOptions(F, s), la, wl, L);
        var step := BuildRuleOptions(rules, F, s.body, s.dot, s.lookahead, la, wl);
        SeedPhaseLeast(rules, F, TU, seeds[1..], step.0, step.1, L);
      } else {
        SeedPhaseLeast(rules, F, TU, seeds[1..], la, wl, L);
      }
    }
  }

  /** The terminals any seed mentions. */
  function AllSeedTerms(seeds: seq<Seed>): (r: set<Terminal>)
    ensures forall k :: 0 <= k < |seeds| ==> SeedTerms(seeds[k]) <= r
  {
    set k, t | 0 <= k < |seeds| && t in SeedTerms(seeds[k]) :: t
  }

  /** The universe a closure gathers in. */
  function ClosureUniverse(rules: seq<Rule>, F: Rel, seeds: seq<Seed>): set<Terminal> {
    FTerms(F) + RulesTerms(rules) + AllSeedTerms(seeds)
  }

  /** The `optionMap` of `closure` once its worklist is empty. */
  function ClosureOptions(rules: seq<Rule>, F: Rel, seeds: seq<Seed>): (la: Opts)
    ensures forall r :: r in la ==> r < |rules| && la[r] <= ClosureUniverse(rules, F, seeds)
  {
    var TU := ClosureUniverse(rules, F, seeds);
    var start := SeedPhase(rules, F, TU, seeds, map[], []);
    Drain(rules, F, TU, start.0, start.1)
  }

  /** The gathered lookaheads honour every seed and every gathered rule. */
  lemma ClosureClosed(rules: seq<Rule>, F: Rel, seeds: seq<Seed>)
    ensures SeedsClosed(rules, F, seeds, ClosureOptions(rules, F, seeds))
    ensures RulesClosed(rules, F, ClosureOptions(rules, F, seeds))
  {
    var TU := ClosureUniverse(rules, F, seeds);
    var start := SeedPhase(rules, F, TU, seeds, map[], []);
    SeedPhaseClosed(rules, F, TU, seeds, map[], []);
    SeedPhasePending(rules, F, TU, seeds, map[], []);
    DrainClosed(rules, F, TU, start.0, start.1);
    var la := ClosureOptions(rules, F, seeds);
    forall k | 0 <= k < |seeds| && Expands(seeds[k])
      ensures Covers(rules, la, seeds[k].body[seeds[k].dot].nt, SeedOptions(F, seeds[k]))
    {
      CoversMono(rules, start.0, la, seeds[k].body[seeds[k].dot].nt, SeedOptions(F, seeds[k]));
    }
  }

  /** Nothing is gathered beyond what the seeds and rules force: any map
      that honours them contains the closure's. */
  lemma ClosureLeast(rules: seq<Rule>, F: Rel, seeds: seq<Seed>, L: Opts)
    requires SeedsClosed(rules, F, seeds, L) && RulesClosed(rules, F, L)
    ensures Le(ClosureOptions(rules, F, seeds), L)
  {
    var TU := ClosureUniverse(rules, F, seeds);
    var start := SeedPhase(rules, F, TU, seeds, map[], []);
    SeedPhaseLeast(rules, F, TU, seeds, map[], [], L);
    DrainLeast(rules, F, TU, start.0, start.1, L);
  }

  /** One item per gathered rule, placeholder at 0, in rule order. */
  function OptionItems(la: Opts, n: nat): (items: seq<Item>)
    ensures forall x :: x in items <==> x.rule < n && x.rule in la && x.dot == 0 && x.lookahead == la[x.rule]
  {
    if n == 0 then []
    else OptionItems(la, n - 1) + (if n - 1 in la then [Item(n - 1, 0, la[n - 1])] else [])
  }

  /** The body position an item stands for. */
  function SeedOf(rules: seq<Rule>, it: Item): Seed
    requires it.rule < |rules|
  {
    Seed(rules[it.rule].symbols, it.dot, it.lookahead)
  }

  function SeedsOf(rules: seq<Rule>, items: seq<Item>): (seeds: seq<Seed>)
    requires ValidItems(rules, items)
    ensures |seeds| == |items|
    ensures forall k :: 0 <= k < |items| ==> seeds[k] == SeedOf(rules, items[k])
  {
    if |items| == 0 then [] else [SeedOf(rules, items[0])] + SeedsOf(rules, items[1..])
  }

  /** `closure`: the items, and one item with the placeholder at 0 for
      each rule the expansion gathers, with the lookaheads gathered for it. */
  function Closure(rules: seq<Rule>, F: Rel, items: seq<Item>): (r: seq<Item>)
    requires ValidItems(rules, items)
    ensures ValidItems(rules, r) && NoDup(r)
    ensures forall x :: x in r <==> (x in items ||
      (x.dot == 0 && x.rule in ClosureOptions(rules, F, SeedsOf(rules, items)) &&
       x.lookahead == ClosureOptions(rules, F, SeedsOf(rules, items))[x.rule]))
  {
    var la := ClosureOptions(rules, F, SeedsOf(rules, items));
    var all := items + OptionItems(la, |rules|);
    DedupElements(all);
    assert forall k :: 0 <= k < |items| ==> items[k] in all;
    assert forall x :: x in all ==> x.rule < |rules| && x.dot <= |rules[x.rule].symbols|;
    Dedup(all)
  }

  /** The primer `[start]` with lookahead end-of-input, which stands for
      the primer rule `? -> start` with the placeholder before `start`. */
  function PrimerSeed(start: Nonterminal): Seed {
    Seed([N(start)], 0, {Eof})
  }

  /** The first state of the canonical collection: the closure of the
      primer, without the primer itself. */
  function InitialState(rules: seq<Rule>, F: Rel, start: Nonterminal): (r: seq<Item>)
    ensures ValidItems(rules, r)
    ensures forall x :: x in r <==> (x.dot == 0 &&
      x.rule in ClosureOptions(rules, F, [PrimerSeed(start)]) &&
      x.lookahead == ClosureOptions(rules, F, [PrimerSeed(start)])[x.rule])
  {
    OptionItems(ClosureOptions(rules, F, [PrimerSeed(start)]), |rules|)
  }

  /** Every rule for the start symbol is in the first state with
      end-of-input among its lookaheads. */
  lemma InitialStateStart(rules: seq<Rule>, F: Rel, start: Nonterminal, r: nat)
    requires r < |rules| && rules[r].target == start
    ensures exists x :: x in InitialState(rules, F, start) && x.rule == r && x.dot == 0 && Eof in x.lookahead
  {
    var la := ClosureOptions(rules, F, [PrimerSeed(start)]);
    ClosureClosed(rules, F, [PrimerSeed(start)]);
    assert Expands([PrimerSeed(start)][0]);
    assert SeedOptions(F, PrimerSeed(start)) == {Eof};
    var x := Item(r, 0, la[r]);
    assert x in InitialState(rules, F, start);
  }

  /** The item has `sym` right after its placeholder. */
  predicate AtDot(rules: seq<Rule>, it: Item, sym: Symbol) {
    it.rule < |rules| && it.dot < |rules[it.rule].symbols| && rules[it.rule].symbols[it.dot] == sym
  }

  /** The item with its placeholder moved past one symbol. */
  function Shifted(it: Item): Item {
    Item(it.rule, it.dot + 1, it.lookahead)
  }

  /** The item loop of `calcNextState`. */
  function Advance(rules: seq<Rule>, items: seq<Item>, sym: Symbol): (r: seq<Item>)
    requires ValidItems(rules, items)
    ensures ValidItems(rules, r)
    ensures forall it :: it in items && AtDot(rules, it, sym) ==> Shifted(it) in r
    ensures forall x :: x in r ==> exists it :: it in items && AtDot(rules, it, sym) && x == Shifted(it)
  {
    if |items| == 0 then []
    else
      var rest := Advance(rules, items[1..], sym);
      assert forall it :: it in items ==> it == items[0] || it in items[1..];
      if AtDot(rules, items[0], sym) then [Shifted(items[0])] + rest else rest
  }

  /** `calcNextState`: the closure of the items advanced over `sym`. */
  function Goto(rules: seq<Rule>, F: Rel, items: seq<Item>, sym: Symbol): (r: seq<Item>)
    requires ValidItems(rules, items)
    ensures ValidItems(rules, r) && NoDup(r)
  {
    Closure(rules, F, Advance(rules, items, sym))
  }

  /** The items of a successor state with the placeholder past 0 are
      exactly the advanced items; the rest come from the closure and have
      it at 0. */
  lemma GotoKernel(rules: seq<Rule>, F: Rel, items: seq<Item>, sym: Symbol, x: Item)
    requires ValidItems(rules, items)
    ensures x in Goto(rules, F, items, sym) && x.dot > 0 <==>
      exists it :: it in items && AtDot(rules, it, sym) && x == Shifted(it)
    ensures x in Goto(rules, F, items, sym) && x.dot == 0 <==>
      x.dot == 0 && x.rule in ClosureOptions(rules, F, SeedsOf(rules, Advance(rules, items, sym))) &&
      x.lookahead == ClosureOptions(rules, F, SeedsOf(rules, Advance(rules, items, sym)))[x.rule]
  {
    var adv := Advance(rules, items, sym);
    if x in adv {
      var it :| it in items && AtDot(rules, it, sym) && x == Shifted(it);
    }
  }
}
