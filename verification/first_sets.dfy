/** FIRST sets (`TableBuilder.buildFirstSets`): for each nonterminal, the
    terminals that can begin a string it derives, plus the EMPTY marker
    when it can derive the empty string. The sets are kept as one relation
    of (nonterminal, element) pairs. */
module FirstSets {
  import opened Seqs
  import opened Symbols
  import opened ParseRules

  /** An element of a FIRST set: the EMPTY marker or a terminal. */
  datatype Mark = Empty | Term(t: Terminal)

  /** All FIRST sets: `(n, m)` is present when `m` is in FIRST(n). */
  type Rel = set<(Nonterminal, Mark)>

  /** `getFirstSet`: a nonterminal's set, or the singleton of a terminal. */
  predicate InFirst(F: Rel, s: Symbol, m: Mark) {
    match s
    case N(n) => (n, m) in F
    case T(t) => m == Term(t)
  }

  function FirstOf(F: Rel, s: Symbol): (r: set<Mark>)
    ensures forall m :: m in r <==> InFirst(F, s, m)
    ensures s.T? ==> r == {Term(s.t)}
  {
    match s
    case N(n) => set p | p in F && p.0 == n :: p.1
    case T(t) => {Term(t)}
  }

  predicate Nullable(F: Rel, s: Symbol) {
    InFirst(F, s, Empty)
  }

  /** Every symbol of `body[lo..hi]` can derive the empty string. */
  predicate NullableRange(F: Rel, body: seq<Symbol>, lo: nat, hi: nat)
    requires lo <= hi <= |body|
  {
    forall j :: lo <= j < hi ==> Nullable(F, body[j])
  }

  /** The pairs giving `target` every non-EMPTY element of FIRST(s). */
  function Lift(F: Rel, target: Nonterminal, s: Symbol): (r: Rel)
    ensures forall m :: (target, m) in r <==> InFirst(F, s, m) && m != Empty
    ensures forall p :: p in r ==> p.0 == target && p.1 != Empty
  {
    match s
    case N(n) =>
      var r := set p | p in F && p.0 == n && p.1 != Empty :: (target, p.1);
      assert forall m :: InFirst(F, s, m) && m != Empty ==> (n, m) in F && (target, m) in r;
      r
    case T(t) => {(target, Term(t))}
  }

  /** Growing the relation only grows FIRST sets, nullability and lifts. */
  lemma Monotone(F: Rel, G: Rel, target: Nonterminal, s: Symbol)
    requires F <= G
    ensures Lift(F, target, s) <= Lift(G, target, s)
    ensures Nullable(F, s) ==> Nullable(G, s)
  {
  }

  /** Every terminal in a rule body, and EMPTY. */
  function Marks(rules: seq<Rule>): set<Mark> {
    {Empty} + set i, j | 0 <= i < |rules| && 0 <= j < |rules[i].symbols| && rules[i].symbols[j].T? :: Term(rules[i].symbols[j].t)
  }

  /** The finite universe the FIRST relation grows in: rule targets paired
      with marks. */
  function Universe(rules: seq<Rule>): Rel {
    set i, m | 0 <= i < |rules| && m in Marks(rules) :: (rules[i].target, m)
  }

  /** Lifting into a rule's target stays in the universe. */
  lemma LiftWithin(rules: seq<Rule>, F: Rel, i: nat, b: nat)
    requires i < |rules| && b < |rules[i].symbols|
    ensures F <= Universe(rules) ==> Lift(F, rules[i].target, rules[i].symbols[b]) <= Universe(rules)
  {
    var s := rules[i].symbols[b];
    var target := rules[i].target;
    forall p | F <= Universe(rules) && p in Lift(F, target, s) ensures p in Universe(rules) {
      assert p.0 == target;
      if s.T? {
        assert p.1 == Term(s.t);
        assert p.1 in Marks(rules);
      } else {
        assert (s.nt, p.1) in F;
      }
    }
  }

  /** One rule's part of a pass, from symbol `b` on. Once `changed` is set
      the Java loop's `changed || addAll(...)` no longer evaluates
      `addAll`, so nothing is added for the rest of the pass. */
  function SymbolsPass(rules: seq<Rule>, i: nat, F: Rel, b: nat, changed: bool): (res: (Rel, bool))
    requires i < |rules| && b <= |rules[i].symbols|
    ensures F <= res.0
    ensures changed ==> res == (F, true)
    ensures !changed ==> (res.1 <==> res.0 != F)
    ensures F <= Universe(rules) ==> res.0 <= Universe(rules)
    decreases |rules[i].symbols| - b
  {
    var body := rules[i].symbols;
    var target := rules[i].target;
    if b == |body| then
      if changed then (F, true)
      else
        assert Empty in Marks(rules);
        assert (target, Empty) in Universe(rules);
        (F + {(target, Empty)}, (target, Empty) !in F)
    else
      var F1 := if changed then F else F + Lift(F, target, body[b]);
      var ch1 := changed || F1 != F;
      LiftWithin(rules, F, i, b);
      if Nullable(F, body[b]) then SymbolsPass(rules, i, F1, b + 1, ch1) else (F1, ch1)
  }

  /** One pass over the rules from rule `i` on. */
  function RulesPass(rules: seq<Rule>, F: Rel, i: nat, changed: bool): (res: (Rel, bool))
    requires i <= |rules|
    ensures F <= res.0
    ensures changed ==> res == (F, true)
    ensures !changed ==> (res.1 <==> res.0 != F)
    ensures F <= Universe(rules) ==> res.0 <= Universe(rules)
    decreases |rules| - i
  {
    if i == |rules| then (F, changed)
    else
      var step := SymbolsPass(rules, i, F, 0, changed);
      RulesPass(rules, step.0, i + 1, step.1)
  }

  /** A pass that changes something leaves less of the universe to add. */
  lemma PassShrinks(rules: seq<Rule>, F: Rel)
    requires F <= Universe(rules)
    ensures RulesPass(rules, F, 0, false).1 ==>
      |Universe(rules) - RulesPass(rules, F, 0, false).0| < |Universe(rules) - F|
  {
    var pass := RulesPass(rules, F, 0, false);
    var U := Universe(rules);
    if pass.1 {
      var x :| x in pass.0 && x !in F;
      SubsetCard(U - pass.0, (U - F) - {x});
    }
  }

  /** Passes repeated until one changes nothing. */
  function BuildLoop(rules: seq<Rule>, F: Rel): (r: Rel)
    requires F <= Universe(rules)
    ensures F <= r <= Universe(rules)
    decreases |Universe(rules) - F|
  {
    var pass := RulesPass(rules, F, 0, false);
    if pass.1 then
      PassShrinks(rules, F);
      BuildLoop(rules, pass.0)
    else pass.0
  }

  /** `buildFirstSets`: every set starts empty. */
  function BuildFirstSets(rules: seq<Rule>): (r: Rel)
    ensures r <= Universe(rules)
  {
    BuildLoop(rules, {})
  }

  /** A rule is satisfied by `F`: its target's FIRST set holds FIRST of
      each symbol (EMPTY aside) that only nullable symbols precede, and
      EMPTY when the whole body is nullable. */
  predicate RuleClosed(F: Rel, r: Rule) {
    (forall b :: 0 <= b < |r.symbols| && NullableRange(F, r.symbols, 0, b) ==> Lift(F, r.target, r.symbols[b]) <= F) &&
    (NullableRange(F, r.symbols, 0, |r.symbols|) ==> (r.target, Empty) in F)
  }

  /** Every rule is satisfied. */
  predicate Closed(rules: seq<Rule>, F: Rel) {
    forall i :: 0 <= i < |rules| ==> RuleClosed(F, rules[i])
  }

  /** The part of `RuleClosed` from symbol `b` on. */
  predicate SuffixClosed(F: Rel, r: Rule, b: nat)
    requires b <= |r.symbols|
  {
    (forall b' :: b <= b' < |r.symbols| && NullableRange(F, r.symbols, b, b') ==> Lift(F, r.target, r.symbols[b']) <= F) &&
    (NullableRange(F, r.symbols, b, |r.symbols|) ==> (r.target, Empty) in F)
  }

  /** A rule's part of a pass that adds nothing shows the rule satisfied
      from `b` on. */
  lemma {:induction false} SymbolsPassStable(rules: seq<Rule>, i: nat, F: Rel, b: nat)
    requires i < |rules| && b <= |rules[i].symbols|
    requires !SymbolsPass(rules, i, F, b, false).1
    ensures SuffixClosed(F, rules[i], b)
    decreases |rules[i].symbols| - b
  {
    var r := rules[i];
    if b < |r.symbols| {
      assert Lift(F, r.target, r.symbols[b]) <= F;
      if Nullable(F, r.symbols[b]) {
        SymbolsPassStable(rules, i, F, b + 1);
        forall b' | b <= b' < |r.symbols| && NullableRange(F, r.symbols, b, b')
          ensures Lift(F, r.target, r.symbols[b']) <= F
        {
          if b' > b {
            assert NullableRange(F, r.symbols, b + 1, b');
          }
        }
        if NullableRange(F, r.symbols, b, |r.symbols|) {
          assert NullableRange(F, r.symbols, b + 1, |r.symbols|);
        }
      } else {
        assert forall b' :: b < b' <= |r.symbols| ==> !NullableRange(F, r.symbols, b, b');
      }
    }
  }

  /** A pass that changes nothing shows every remaining rule satisfied. */
  lemma {:induction false} RulesPassStable(rules: seq<Rule>, F: Rel, i: nat)
    requires i <= |rules|
    requires !RulesPass(rules, F, i, false).1
    ensures forall j :: i <= j < |rules| ==> RuleClosed(F, rules[j])
    decreases |rules| - i
  {
    if i < |rules| {
      var step := SymbolsPass(rules, i, F, 0, false);
      assert !step.1;
      SymbolsPassStable(rules, i, F, 0);
      RulesPassStable(rules, F, i + 1);
    }
  }

  lemma {:induction false} BuildLoopClosed(rules: seq<Rule>, F: Rel)
    requires F <= Universe(rules)
    ensures Closed(rules, BuildLoop(rules, F))
    decreases |Universe(rules) - F|
  {
    var pass := RulesPass(rules, F, 0, false);
    if pass.1 {
      PassShrinks(rules, F);
      BuildLoopClosed(rules, pass.0);
    } else {
      RulesPassStable(rules, F, 0);
    }
  }

  /** The computed FIRST sets satisfy every rule: a further pass would add
      nothing. */
  lemma FirstSetsClosed(rules: seq<Rule>)
    ensures Closed(rules, BuildFirstSets(rules))
    ensures !RulesPass(rules, BuildFirstSets(rules), 0, false).1
  {
    BuildLoopClosed(rules, {});
    ClosedIsStable(rules, BuildFirstSets(rules), 0);
  }

  /** A relation that satisfies every rule is left unchanged by a pass. */
  lemma {:induction false} ClosedIsStable(rules: seq<Rule>, F: Rel, i: nat)
    requires i <= |rules|
    requires Closed(rules, F)
    ensures RulesPass(rules, F, i, false) == (F, false)
    decreases |rules| - i
  {
    if i < |rules| {
      SymbolsPassNoChange(rules, i, F, 0);
      ClosedIsStable(rules, F, i + 1);
    }
  }

  lemma {:induction false} SymbolsPassNoChange(rules: seq<Rule>, i: nat, F: Rel, b: nat)
    requires i < |rules| && b <= |rules[i].symbols|
    requires RuleClosed(F, rules[i])
    requires NullableRange(F, rules[i].symbols, 0, b)
    ensures SymbolsPass(rules, i, F, b, false) == (F, false)
    decreases |rules[i].symbols| - b
  {
    var r := rules[i];
    if b < |r.symbols| {
      assert F + Lift(F, r.target, r.symbols[b]) == F;
      if Nullable(F, r.symbols[b]) {
        SymbolsPassNoChange(rules, i, F, b + 1);
      }
    } else {
      assert F + {(r.target, Empty)} == F;
    }
  }

  /** A rule's part of a pass adds only what a relation satisfying that
      rule already holds. */
  lemma {:induction false} SymbolsPassLeast(rules: seq<Rule>, i: nat, F: Rel, b: nat, changed: bool, L: Rel)
    requires i < |rules| && b <= |rules[i].symbols|
    requires RuleClosed(L, rules[i]) && F <= L
    requires NullableRange(F, rules[i].symbols, 0, b)
    ensures SymbolsPass(rules, i, F, b, changed).0 <= L
    decreases |rules[i].symbols| - b
  {
    var r := rules[i];
    assert NullableRange(L, r.symbols, 0, b);
    if b < |r.symbols| {
      Monotone(F, L, r.target, r.symbols[b]);
      var F1 := if changed then F else F + Lift(F, r.target, r.symbols[b]);
      var ch1 := changed || F1 != F;
      if Nullable(F, r.symbols[b]) {
        assert NullableRange(F1, r.symbols, 0, b + 1);
        SymbolsPassLeast(rules, i, F1, b + 1, ch1, L);
      }
    }
  }

  lemma {:induction false} RulesPassLeast(rules: seq<Rule>, F: Rel, i: nat, changed: bool, L: Rel)
    requires i <= |rules|
    requires Closed(rules, L) && F <= L
    ensures RulesPass(rules, F, i, changed).0 <= L
    decreases |rules| - i
  {
    if i < |rules| {
      SymbolsPassLeast(rules, i, F, 0, changed, L);
      var step := SymbolsPass(rules, i, F, 0, changed);
      RulesPassLeast(rules, step.0, i + 1, step.1, L);
    }
  }

  lemma {:induction false} BuildLoopLeast(rules: seq<Rule>, F: Rel, L: Rel)
    requires F <= Universe(rules)
    requires Closed(rules, L) && F <= L
    ensures BuildLoop(rules, F) <= L
    decreases |Universe(rules) - F|
  {
    var pass := RulesPass(rules, F, 0, false);
    RulesPassLeast(rules, F, 0, false, L);
    if pass.1 {
      PassShrinks(rules, F);
      BuildLoopLeast(rules, pass.0, L);
    }
  }

  /** The computed FIRST sets are the least relation satisfying every
      rule: any relation that satisfies the rules contains them. */
  lemma FirstSetsLeast(rules: seq<Rule>, L: Rel)
    requires Closed(rules, L)
    ensures BuildFirstSets(rules) <= L
  {
    BuildLoopLeast(rules, {}, L);
  }

  /** Rule `r` accounts for `m` in FIRST of its target, read in `F`: EMPTY
      when its whole body is nullable, a terminal when it is in FIRST of a
      body symbol that only nullable symbols precede. */
  predicate RuleJustifies(F: Rel, r: Rule, m: Mark) {
    if m == Empty then NullableRange(F, r.symbols, 0, |r.symbols|)
    else exists b :: 0 <= b < |r.symbols| && NullableRange(F, r.symbols, 0, b) && InFirst(F, r.symbols[b], m)
  }

  predicate Justified(rules: seq<Rule>, F: Rel, a: Nonterminal, m: Mark) {
    exists i :: 0 <= i < |rules| && rules[i].target == a && RuleJustifies(F, rules[i], m)
  }

  /** Dropping a pair that the rule does not account for keeps the rule
      satisfied. */
  lemma RemovalKeepsClosed(F: Rel, r: Rule, a: Nonterminal, m: Mark)
    requires RuleClosed(F, r)
    requires r.target == a ==> !RuleJustifies(F, r, m)
    ensures RuleClosed(F - {(a, m)}, r)
  {
    var L := F - {(a, m)};
    forall b | 0 <= b < |r.symbols| && NullableRange(L, r.symbols, 0, b)
      ensures Lift(L, r.target, r.symbols[b]) <= L
    {
      assert NullableRange(F, r.symbols, 0, b);
      Monotone(L, F, r.target, r.symbols[b]);
      if (a, m) in Lift(L, r.target, r.symbols[b]) {
        assert InFirst(F, r.symbols[b], m);
        assert r.target == a && m != Empty;
        assert RuleJustifies(F, r, m);
        assert false;
      }
    }
    if NullableRange(L, r.symbols, 0, |r.symbols|) {
      assert NullableRange(F, r.symbols, 0, |r.symbols|);
      if (r.target, Empty) == (a, m) {
        assert RuleJustifies(F, r, m);
        assert false;
      }
    }
  }

  /** Every element of a computed FIRST set is accounted for by a rule, and
      every element a rule accounts for is present. */
  lemma FirstSetsJustified(rules: seq<Rule>, a: Nonterminal, m: Mark)
    ensures (a, m) in BuildFirstSets(rules) <==> Justified(rules, BuildFirstSets(rules), a, m)
  {
    var F := BuildFirstSets(rules);
    FirstSetsClosed(rules);
    if Justified(rules, F, a, m) {
      var i :| 0 <= i < |rules| && rules[i].target == a && RuleJustifies(F, rules[i], m);
      var r := rules[i];
      assert RuleClosed(F, r);
      if m != Empty {
        var b :| 0 <= b < |r.symbols| && NullableRange(F, r.symbols, 0, b) && InFirst(F, r.symbols[b], m);
        assert (a, m) in Lift(F, a, r.symbols[b]);
      }
    } else if (a, m) in F {
      var L := F - {(a, m)};
      forall i | 0 <= i < |rules| ensures RuleClosed(L, rules[i]) {
        RemovalKeepsClosed(F, rules[i], a, m);
      }
      FirstSetsLeast(rules, L);
      assert false;
    }
  }

  /** EMPTY is in FIRST(a) exactly when some rule for `a` has a body of
      nullable symbols. */
  lemma NullableIff(rules: seq<Rule>, a: Nonterminal)
    ensures Nullable(BuildFirstSets(rules), N(a)) <==>
      exists i :: 0 <= i < |rules| && rules[i].target == a &&
        NullableRange(BuildFirstSets(rules), rules[i].symbols, 0, |rules[i].symbols|)
  {
    FirstSetsJustified(rules, a, Empty);
  }
}
