/** A grammar and the symbol catalogue the table builder's constructor
    makes: every nonterminal and terminal gets a dense index in order of
    first appearance (start symbol first, then each rule's target and
    symbols), and every rule is listed under its target. */
module Catalog {
  import opened Seqs
  import opened Symbols
  import opened ParseRules
  import Priorities

  /** A start symbol, its rules and their priorities. */
  datatype Grammar = Grammar(start: Nonterminal, rules: seq<Rule>, priorities: Priorities.Store)

  /** A rule's target followed by its symbols. */
  function RuleSymbols(r: Rule): seq<Symbol> {
    [N(r.target)] + r.symbols
  }

  /** Each rule's target followed by its symbols, rule after rule. */
  function SymbolStream(rules: seq<Rule>): seq<Symbol>
  {
    if |rules| == 0 then []
    else SymbolStream(rules[..|rules| - 1]) + RuleSymbols(rules[|rules| - 1])
  }

  /** The order in which the constructor meets symbols: the start symbol,
      then the symbol stream of the rules. */
  function CatalogStream(start: Nonterminal, rules: seq<Rule>): seq<Symbol> {
    [N(start)] + SymbolStream(rules)
  }

  /** The symbol catalogue under construction: the nonterminals and the
      terminals in index order, and the production list of each
      nonterminal. */
  datatype Cat = Cat(nonterminals: seq<Nonterminal>, terminals: seq<Terminal>, productions: map<Nonterminal, seq<nat>>)

  /** `catalogSymbol`: a new nonterminal gets the next index and an empty
      production list; a new terminal gets the next terminal index. */
  function CatalogSymbol(c: Cat, s: Symbol): Cat {
    match s
    case N(n) =>
      if n in c.nonterminals then c
      else c.(nonterminals := c.nonterminals + [n], productions := c.productions[n := []])
    case T(t) =>
      if t in c.terminals then c else c.(terminals := c.terminals + [t])
  }

  function CatalogAll(c: Cat, syms: seq<Symbol>): Cat
  {
    if |syms| == 0 then c else CatalogSymbol(CatalogAll(c, syms[..|syms| - 1]), syms[|syms| - 1])
  }

  /** `processRule` for rule `i`: catalogues its target and symbols, then
      appends the rule to its target's production list. */
  function ProcessRule(c: Cat, rules: seq<Rule>, i: nat): Cat
    requires i < |rules|
  {
    var c1 := CatalogAll(c, RuleSymbols(rules[i]));
    var target := rules[i].target;
    var prods := if target in c1.productions then c1.productions[target] else [];
    c1.(productions := c1.productions[target := prods + [i]])
  }

  /** The constructor: the start symbol, then every rule in order. */
  function Build(start: Nonterminal, rules: seq<Rule>): Cat
  {
    BuildUpTo(start, rules, |rules|)
  }

  function BuildUpTo(start: Nonterminal, rules: seq<Rule>, k: nat): Cat
    requires k <= |rules|
  {
    if k == 0 then CatalogSymbol(Cat([], [], map[]), N(start))
    else ProcessRule(BuildUpTo(start, rules, k - 1), rules, k - 1)
  }

  /** The nonterminals of a symbol list, in order. */
  function NontermsIn(syms: seq<Symbol>): (r: seq<Nonterminal>)
    ensures forall n :: n in r <==> N(n) in syms
  {
    if |syms| == 0 then []
    else
      var init := NontermsIn(syms[..|syms| - 1]);
      assert syms == syms[..|syms| - 1] + [syms[|syms| - 1]];
      if syms[|syms| - 1].N? then init + [syms[|syms| - 1].nt] else init
  }

  /** The terminals of a symbol list, in order. */
  function TermsIn(syms: seq<Symbol>): (r: seq<Terminal>)
    ensures forall t :: t in r <==> T(t) in syms
  {
    if |syms| == 0 then []
    else
      var init := TermsIn(syms[..|syms| - 1]);
      assert syms == syms[..|syms| - 1] + [syms[|syms| - 1]];
      if syms[|syms| - 1].T? then init + [syms[|syms| - 1].t] else init
  }

  /** The indices of the rules for `n`, in increasing order: the reference
      for the production lists. */
  function ProductionsOf(rules: seq<Rule>, n: Nonterminal): (r: seq<nat>)
    ensures forall i: nat :: i in r <==> i < |rules| && rules[i].target == n
    ensures forall a, b :: 0 <= a < b < |r| ==> r[a] < r[b]
  {
    if |rules| == 0 then []
    else
      var last := |rules| - 1;
      var init := ProductionsOf(rules[..last], n);
      assert forall i: nat :: i < last ==> rules[..last][i] == rules[i];
      forall a | 0 <= a < |init|
        ensures init[a] < last
      {
        assert init[a] in init;
      }
      if rules[last].target == n then init + [last] else init
  }

  lemma {:induction false} FiltersAppend(a: seq<Symbol>, b: seq<Symbol>)
    ensures NontermsIn(a + b) == NontermsIn(a) + NontermsIn(b)
    ensures TermsIn(a + b) == TermsIn(a) + TermsIn(b)
  {
    if |b| > 0 {
      var b0 := b[..|b| - 1];
      assert (a + b)[..|a + b| - 1] == a + b0;
      assert (a + b)[|a + b| - 1] == b[|b| - 1];
      FiltersAppend(a, b0);
    } else {
      assert a + b == a;
    }
  }

  /** Cataloguing symbols meets their nonterminals in order. */
  lemma {:induction false} CatalogAllNonterms(c: Cat, syms: seq<Symbol>)
    ensures CatalogAll(c, syms).nonterminals == AddAll(c.nonterminals, NontermsIn(syms))
  {
    if |syms| > 0 {
      var init := syms[..|syms| - 1];
      var last := syms[|syms| - 1];
      CatalogAllNonterms(c, init);
      if last.N? {
        AddAllSnoc(c.nonterminals, NontermsIn(init), last.nt);
      }
    }
  }

  /** Cataloguing symbols meets their terminals in order. */
  lemma {:induction false} CatalogAllTerms(c: Cat, syms: seq<Symbol>)
    ensures CatalogAll(c, syms).terminals == AddAll(c.terminals, TermsIn(syms))
  {
    if |syms| > 0 {
      var init := syms[..|syms| - 1];
      var last := syms[|syms| - 1];
      CatalogAllTerms(c, init);
      if last.T? {
        AddAllSnoc(c.terminals, TermsIn(init), last.t);
      }
    }
  }

  /** Production lists exist exactly for the catalogued nonterminals; those
      already there are left alone and new ones start empty. */
  lemma {:induction false} CatalogAllProductions(c: Cat, syms: seq<Symbol>)
    requires forall n :: n in c.productions <==> n in c.nonterminals
    ensures forall n :: n in CatalogAll(c, syms).productions <==> n in CatalogAll(c, syms).nonterminals
    ensures forall n :: n in c.productions ==>
      n in CatalogAll(c, syms).productions && CatalogAll(c, syms).productions[n] == c.productions[n]
    ensures forall n :: n in CatalogAll(c, syms).productions && n !in c.productions ==>
      CatalogAll(c, syms).productions[n] == []
  {
    if |syms| > 0 {
      CatalogAllProductions(c, syms[..|syms| - 1]);
    }
  }

  /** Every rule's target occurs in the symbol stream. */
  lemma {:induction false} TargetsInStream(rules: seq<Rule>, j: nat)
    requires j < |rules|
    ensures N(rules[j].target) in SymbolStream(rules)
  {
    var init := rules[..|rules| - 1];
    if j < |rules| - 1 {
      TargetsInStream(init, j);
      assert init[j] == rules[j];
    } else {
      assert SymbolStream(rules) == SymbolStream(init) + RuleSymbols(rules[j]);
      assert RuleSymbols(rules[j])[0] == N(rules[j].target);
    }
  }

  /** The stream of the first `k` rules grows by rule `k - 1`'s symbols. */
  lemma StreamStep(start: Nonterminal, rules: seq<Rule>, k: nat)
    requires 0 < k <= |rules|
    ensures CatalogStream(start, rules[..k]) == CatalogStream(start, rules[..k - 1]) + RuleSymbols(rules[k - 1])
  {
    assert rules[..k][..k - 1] == rules[..k - 1];
  }

  /** The stream before any rule holds only the start symbol. */
  lemma StreamBase(start: Nonterminal, rules: seq<Rule>)
    ensures NontermsIn(CatalogStream(start, rules[..0])) == [start]
    ensures TermsIn(CatalogStream(start, rules[..0])) == []
    ensures Dedup([start]) == [start]
  {
    var stream := CatalogStream(start, rules[..0]);
    assert stream == [] + [N(start)];
    AddAllSnoc([], [], start);
    assert stream[..0] == [];
  }

  /** The catalogue after `k` rules lists, in order of first appearance,
      the nonterminals met so far. */
  lemma {:induction false} BuildUpToNonterms(start: Nonterminal, rules: seq<Rule>, k: nat)
    requires k <= |rules|
    ensures BuildUpTo(start, rules, k).nonterminals == Dedup(NontermsIn(CatalogStream(start, rules[..k])))
  {
    if k == 0 {
      StreamBase(start, rules);
    } else {
      var prev := BuildUpTo(start, rules, k - 1);
      var syms := RuleSymbols(rules[k - 1]);
      var prevStream := CatalogStream(start, rules[..k - 1]);
      BuildUpToNonterms(start, rules, k - 1);
      StreamStep(start, rules, k);
      FiltersAppend(prevStream, syms);
      CatalogAllNonterms(prev, syms);
      AddAllAppend([], NontermsIn(prevStream), NontermsIn(syms));
    }
  }

  /** The catalogue after `k` rules lists, in order of first appearance,
      the terminals met so far. */
  lemma {:induction false} BuildUpToTerms(start: Nonterminal, rules: seq<Rule>, k: nat)
    requires k <= |rules|
    ensures BuildUpTo(start, rules, k).terminals == Dedup(TermsIn(CatalogStream(start, rules[..k])))
  {
    if k == 0 {
      StreamBase(start, rules);
    } else {
      var prev := BuildUpTo(start, rules, k - 1);
      var syms := RuleSymbols(rules[k - 1]);
      var prevStream := CatalogStream(start, rules[..k - 1]);
      BuildUpToTerms(start, rules, k - 1);
      StreamStep(start, rules, k);
      FiltersAppend(prevStream, syms);
      CatalogAllTerms(prev, syms);
      AddAllAppend([], TermsIn(prevStream), TermsIn(syms));
    }
  }

  /** The catalogue after `k` rules holds, for each of its nonterminals,
      exactly the rules among the first `k` that have it as target, in
      order. */
  lemma {:induction false} BuildUpToProductions(start: Nonterminal, rules: seq<Rule>, k: nat)
    requires k <= |rules|
    ensures forall n :: n in BuildUpTo(start, rules, k).productions <==> n in BuildUpTo(start, rules, k).nonterminals
    ensures forall n :: n in BuildUpTo(start, rules, k).productions ==>
      BuildUpTo(start, rules, k).productions[n] == ProductionsOf(rules[..k], n)
  {
    var c := BuildUpTo(start, rules, k);
    if k == 0 {
      assert rules[..0] == [];
    } else {
      var prev := BuildUpTo(start, rules, k - 1);
      var r := rules[k - 1];
      var syms := RuleSymbols(r);
      BuildUpToProductions(start, rules, k - 1);
      BuildUpToNonterms(start, rules, k - 1);
      CatalogAllProductions(prev, syms);
      var c1 := CatalogAll(prev, syms);
      assert r.target in c1.nonterminals by {
        CatalogAllNonterms(prev, syms);
        AddAllAppend(prev.nonterminals, [r.target], NontermsIn(r.symbols));
        FiltersAppend([N(r.target)], r.symbols);
        assert NontermsIn([N(r.target)]) == [r.target] by {
          assert [N(r.target)][..0] == [];
        }
        AddAllSnoc(prev.nonterminals, [], r.target);
        assert [] + [r.target] == [r.target];
        AddAllKeeps(AddAll(prev.nonterminals, [r.target]), NontermsIn(r.symbols), r.target);
      }
      var prevStream := CatalogStream(start, rules[..k - 1]);
      forall n | n in c.productions
        ensures c.productions[n] == ProductionsOf(rules[..k], n)
      {
        assert rules[..k][..k - 1] == rules[..k - 1];
        if n !in prev.productions {
          assert ProductionsOf(rules[..k - 1], n) == [] by {
            if |ProductionsOf(rules[..k - 1], n)| > 0 {
              var i := ProductionsOf(rules[..k - 1], n)[0];
              assert i in ProductionsOf(rules[..k - 1], n);
              TargetsInStream(rules[..k - 1], i);
              DedupElements(NontermsIn(prevStream));
              assert false;
            }
          }
        }
      }
    }
  }

  /** The constructor's catalogue: nonterminals and terminals each listed
      once, every one that occurs, in order of first appearance; and each
      nonterminal's production list is exactly its rules, in order. */
  lemma BuildCatalog(start: Nonterminal, rules: seq<Rule>)
    ensures NoDup(Build(start, rules).nonterminals) && NoDup(Build(start, rules).terminals)
    ensures forall n :: n in Build(start, rules).nonterminals <==> N(n) in CatalogStream(start, rules)
    ensures forall t :: t in Build(start, rules).terminals <==> T(t) in CatalogStream(start, rules)
    ensures Build(start, rules).nonterminals == Dedup(NontermsIn(CatalogStream(start, rules)))
    ensures Build(start, rules).terminals == Dedup(TermsIn(CatalogStream(start, rules)))
    ensures forall n :: n in Build(start, rules).productions <==> n in Build(start, rules).nonterminals
    ensures forall n :: n in Build(start, rules).productions ==>
      Build(start, rules).productions[n] == ProductionsOf(rules, n)
  {
    BuildUpToNonterms(start, rules, |rules|);
    BuildUpToTerms(start, rules, |rules|);
    BuildUpToProductions(start, rules, |rules|);
    assert rules[..|rules|] == rules;
    DedupElements(NontermsIn(CatalogStream(start, rules)));
    DedupElements(TermsIn(CatalogStream(start, rules)));
  }

  /** Catalogue indices follow first appearance: of two catalogued
      nonterminals, the one met first has the smaller index. */
  lemma CatalogOrder(start: Nonterminal, rules: seq<Rule>)
    ensures var ns := Build(start, rules).nonterminals; var s := NontermsIn(CatalogStream(start, rules));
      forall i, j :: 0 <= i < j < |ns| ==> ns[i] in s && ns[j] in s && FirstIndex(s, ns[i]) < FirstIndex(s, ns[j])
    ensures var ts := Build(start, rules).terminals; var s := TermsIn(CatalogStream(start, rules));
      forall i, j :: 0 <= i < j < |ts| ==> ts[i] in s && ts[j] in s && FirstIndex(s, ts[i]) < FirstIndex(s, ts[j])
  {
    BuildCatalog(start, rules);
    DedupOrder(NontermsIn(CatalogStream(start, rules)));
    DedupOrder(TermsIn(CatalogStream(start, rules)));
  }
}
