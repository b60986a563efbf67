/** Production rules and the reduction handlers that turn the values of a
    rule's symbols into the value of its target. */
module ParseRules {
  import opened Wrappers
  import opened Symbols
  import opened Text
  import opened ParseNodes

  /** The built-in reduction handlers. `Generic` is the default handler;
      the others are the Passthrough, ElemChoose and ListBuild handlers. */
  datatype Handler =
    | Generic
    | Passthrough(fieldIdx: int)
    | ElemChoose(elemIdxs: seq<int>)
    | ListBuild(listIdx: int, itemIdx: int)

  /** Passthrough index selecting the whole symbol array. */
  const PassAll: int := -1
  /** ElemChoose index producing a null entry. */
  const ChooseEmpty: int := -1
  /** ElemChoose index copying the rest of the symbols. */
  const ChooseRemainder: int := -2

  /** A production `target ::= symbols`. The symbols are a value: the rule
      owns its copy, so no caller can change them afterwards. */
  datatype Rule = Rule(target: Nonterminal, symbols: seq<Symbol>, handler: Handler)

  /** The three-argument constructor. */
  function MakeRule(target: Nonterminal, symbols: seq<Symbol>, handler: Handler): (r: Rule)
    ensures r.target == target && r.symbols == symbols && r.handler == handler
  {
    Rule(target, symbols, handler)
  }

  /** The two-argument constructor installs the generic handler. */
  function MakeGenericRule(target: Nonterminal, symbols: seq<Symbol>): (r: Rule)
    ensures r == MakeRule(target, symbols, Generic)
  {
    Rule(target, symbols, Generic)
  }

  /** `getSymbols` hands out the symbols the rule was built with. */
  function GetSymbols(r: Rule): seq<Symbol> {
    r.symbols
  }

  /** A rule reads back exactly the symbols it was constructed from. */
  lemma GetSymbolsRoundTrip(target: Nonterminal, symbols: seq<Symbol>, handler: Handler)
    ensures GetSymbols(MakeRule(target, symbols, handler)) == symbols
    ensures GetSymbols(MakeGenericRule(target, symbols)) == symbols
  {
  }

  /** The display form of one right-hand-side symbol: a space and the
      nonterminal in angle brackets, or a space and the quoted terminal. */
  function SymbolPart(s: Symbol): string {
    match s
    case N(n) => " " + NontermString(n)
    case T(t) => " '" + TerminalString(t) + "'"
  }

  function SymbolParts(symbols: seq<Symbol>): (s: string)
    ensures |symbols| == 0 ==> s == ""
  {
    if |symbols| == 0 then "" else SymbolParts(symbols[..|symbols| - 1]) + SymbolPart(symbols[|symbols| - 1])
  }

  /** `ParseRule.toString`: the target's bare name and " ::=", then one
      part per symbol. */
  function RuleString(r: Rule): string {
    r.target.name + " ::=" + SymbolParts(r.symbols)
  }

  /** Each further symbol extends the display form by its own part, so the
      display form lists the symbols in order. */
  lemma RuleStringSnoc(target: Nonterminal, symbols: seq<Symbol>, s: Symbol, h: Handler)
    ensures RuleString(Rule(target, symbols + [s], h)) == RuleString(Rule(target, symbols, h)) + SymbolPart(s)
    ensures RuleString(Rule(target, [], h)) == target.name + " ::="
  {
    assert (symbols + [s])[..|symbols + [s]| - 1] == symbols;
  }

  /** The value `PassthroughHandler` returns: the whole symbol array for a
      negative index, the indexed value when it exists, `null` otherwise. */
  function PassthroughReduce(fieldIdx: int, symbols: seq<Value>): (v: Value)
    ensures fieldIdx < 0 ==> v == Array(symbols)
    ensures 0 <= fieldIdx < |symbols| ==> v == symbols[fieldIdx]
    ensures fieldIdx >= |symbols| ==> v == Null
  {
    if fieldIdx < 0 then Array(symbols)
    else if |symbols| > fieldIdx then symbols[fieldIdx]
    else Null
  }

  /** One element choice of `ElemChooseHandler`, as written: an index equal
      to the number of symbols passes the `> length` guard and fails. */
  function ChooseOneAsWritten(elemIdxs: seq<int>, i: nat, symbols: seq<Value>): (r: Result<seq<Value>>)
    requires i < |elemIdxs|
    ensures 0 <= elemIdxs[i] < |symbols| ==> r == Ok([symbols[elemIdxs[i]]])
    ensures elemIdxs[i] == |symbols| ==> r.Err?
    ensures elemIdxs[i] > |symbols| ==> r == Ok([Null])
    ensures elemIdxs[i] != |symbols| ==> r == ChooseOne(elemIdxs, i, symbols)
  {
    var idx := elemIdxs[i];
    if idx == ChooseEmpty then Ok([Null])
    else if idx == ChooseRemainder then
      var fromIdx := if i == 0 then 0 else elemIdxs[i - 1];
      if fromIdx >= |symbols| then Ok([])
      else if fromIdx < 0 then Err("ArrayIndexOutOfBoundsException")
      else Ok(symbols[fromIdx..])
    else if idx > |symbols| then Ok([Null])
    else if idx < 0 || idx == |symbols| then Err("ArrayIndexOutOfBoundsException")
    else Ok([symbols[idx]])
  }

  /** One element choice with the guard evidently intended: every index at
      or past the end yields `null`. */
  function ChooseOne(elemIdxs: seq<int>, i: nat, symbols: seq<Value>): (r: Result<seq<Value>>)
    requires i < |elemIdxs|
    ensures elemIdxs[i] >= 0 ==> r.Ok? && |r.value| == 1
    ensures 0 <= elemIdxs[i] < |symbols| ==> r == Ok([symbols[elemIdxs[i]]])
    ensures elemIdxs[i] >= |symbols| ==> r == Ok([Null])
    ensures elemIdxs[i] == ChooseEmpty ==> r == Ok([Null])
    ensures elemIdxs[i] == ChooseRemainder && i == 0 ==> r == Ok(symbols)
  {
    var idx := elemIdxs[i];
    if idx == ChooseEmpty then Ok([Null])
    else if idx == ChooseRemainder then
      var fromIdx := if i == 0 then 0 else elemIdxs[i - 1];
      if fromIdx >= |symbols| then Ok([])
      else if fromIdx < 0 then Err("ArrayIndexOutOfBoundsException")
      else Ok(symbols[fromIdx..])
    else if idx >= |symbols| then Ok([Null])
    else if idx < 0 then Err("ArrayIndexOutOfBoundsException")
    else Ok([symbols[idx]])
  }

  /** The chosen values for `elemIdxs[i..]`, concatenated in order; the
      first failing choice fails the whole handler. */
  function ChooseFrom(elemIdxs: seq<int>, i: nat, symbols: seq<Value>, asWritten: bool): Result<seq<Value>>
    requires i <= |elemIdxs|
    decreases |elemIdxs| - i
  {
    if i == |elemIdxs| then Ok([])
    else
      var one :- if asWritten then ChooseOneAsWritten(elemIdxs, i, symbols) else ChooseOne(elemIdxs, i, symbols);
      var rest :- ChooseFrom(elemIdxs, i + 1, symbols, asWritten);
      Ok(one + rest)
  }

  /** The two guards disagree only on an index equal to the number of
      symbols: as written that fails the handler, and where the written
      handler succeeds it chose what the corrected one does. */
  lemma {:induction false} ChooseFromAgree(elemIdxs: seq<int>, i: nat, symbols: seq<Value>)
    requires i <= |elemIdxs|
    ensures |symbols| in elemIdxs[i..] ==> ChooseFrom(elemIdxs, i, symbols, true).Err?
    ensures ChooseFrom(elemIdxs, i, symbols, true).Ok? ==>
      ChooseFrom(elemIdxs, i, symbols, true) == ChooseFrom(elemIdxs, i, symbols, false)
    decreases |elemIdxs| - i
  {
    if i < |elemIdxs| {
      ChooseFromAgree(elemIdxs, i + 1, symbols);
      assert elemIdxs[i..] == [elemIdxs[i]] + elemIdxs[i + 1..];
    }
  }

  /** `ElemChooseHandler.reduce` as written. */
  function ElemChooseReduceAsWritten(target: Nonterminal, from: SourcePos, elemIdxs: seq<int>, symbols: seq<Value>): (r: Result<Value>)
    ensures r.Ok? <==> ChooseFrom(elemIdxs, 0, symbols, true).Ok?
    ensures |symbols| in elemIdxs ==> r.Err?
    ensures r.Ok? ==> r == ElemChooseReduce(target, from, elemIdxs, symbols)
  {
    ChooseFromAgree(elemIdxs, 0, symbols);
    var chosen :- ChooseFrom(elemIdxs, 0, symbols, true);
    Ok(Node(MakeNode(target, Some(from), Some(chosen))))
  }

  /** `ElemChooseHandler.reduce` with the corrected guard: a generic node of
      the target holding the chosen values. */
  function ElemChooseReduce(target: Nonterminal, from: SourcePos, elemIdxs: seq<int>, symbols: seq<Value>): (r: Result<Value>)
    ensures r.Ok? <==> ChooseFrom(elemIdxs, 0, symbols, false).Ok?
    ensures r.Ok? ==> r.value.Node? && r.value.node.nodeType == target && r.value.node.from == Some(from)
    ensures r.Ok? ==> r.value.node.components == Some(ChooseFrom(elemIdxs, 0, symbols, false).value)
  {
    var chosen :- ChooseFrom(elemIdxs, 0, symbols, false);
    Ok(Node(MakeNode(target, Some(from), Some(chosen))))
  }

  /** Indices that are all non-negative choose one value each: the symbol
      at that index, or `null` past the end. */
  lemma {:induction false} ChooseIndices(elemIdxs: seq<int>, i: nat, symbols: seq<Value>)
    requires i <= |elemIdxs|
    requires forall k :: i <= k < |elemIdxs| ==> elemIdxs[k] >= 0
    ensures ChooseFrom(elemIdxs, i, symbols, false).Ok?
    ensures |ChooseFrom(elemIdxs, i, symbols, false).value| == |elemIdxs| - i
    ensures forall k :: i <= k < |elemIdxs| ==>
      ChooseFrom(elemIdxs, i, symbols, false).value[k - i] ==
        (if elemIdxs[k] < |symbols| then symbols[elemIdxs[k]] else Null)
    decreases |elemIdxs| - i
  {
    if i < |elemIdxs| {
      ChooseIndices(elemIdxs, i + 1, symbols);
    }
  }

  /** The as-written handler fails on an index equal to the number of
      symbols, where the corrected one yields `null`: choosing element 1 of
      a one-symbol rule. */
  lemma ElemChooseIndexAtLength(target: Nonterminal, from: SourcePos, v: Value)
    ensures ElemChooseReduceAsWritten(target, from, [1], [v]).Err?
    ensures ElemChooseReduce(target, from, [1], [v]) == Ok(Node(ParseNode(target, Some(from), Some([Null]))))
  {
    assert ChooseOneAsWritten([1], 0, [v]).Err?;
    assert ChooseOne([1], 0, [v]) == Ok([Null]);
    assert ChooseFrom([1], 1, [v], false) == Ok([]);
    assert [Null] + [] == [Null];
  }

  /** The list handler adds no item: its index is past the end or holds `null`. */
  predicate ItemSkipped(itemIdx: int, symbols: seq<Value>)
  {
    |symbols| <= itemIdx || (0 <= itemIdx && symbols[itemIdx] == Null)
  }

  /** `ListBuildHandler.reduce`: the list at `listIdx` (a non-list value
      there is wrapped in a fresh list, a missing one gives an empty list),
      with the value at `itemIdx` appended when it comes after the list,
      prepended when it comes before, and skipped when it is `null` or
      missing. A negative index fails as an array access. */
  function ListBuildReduce(listIdx: int, itemIdx: int, symbols: seq<Value>): (r: Result<Value>)
    ensures r.Ok? <==> (listIdx >= 0 || |symbols| <= listIdx) && (itemIdx >= 0 || |symbols| <= itemIdx)
    ensures r.Ok? ==> r.value.List?
    // no list value: an empty list, holding only the item if there is one
    ensures |symbols| <= listIdx && ItemSkipped(itemIdx, symbols) ==> r == Ok(List([]))
    ensures |symbols| <= listIdx && 0 <= itemIdx < |symbols| && symbols[itemIdx] != Null ==>
      r == Ok(List([symbols[itemIdx]]))
    // a list value is reused, any other value is wrapped in a fresh list
    ensures 0 <= listIdx < |symbols| && symbols[listIdx].List? && ItemSkipped(itemIdx, symbols) ==>
      r == Ok(symbols[listIdx])
    ensures 0 <= listIdx < |symbols| && !symbols[listIdx].List? && ItemSkipped(itemIdx, symbols) ==>
      r == Ok(List([symbols[listIdx]]))
    // an item after the list is appended
    ensures 0 <= listIdx < itemIdx < |symbols| && symbols[itemIdx] != Null && symbols[listIdx].List? ==>
      r == Ok(List(symbols[listIdx].elems + [symbols[itemIdx]]))
    ensures 0 <= listIdx < itemIdx < |symbols| && symbols[itemIdx] != Null && !symbols[listIdx].List? ==>
      r == Ok(List([symbols[listIdx], symbols[itemIdx]]))
    // an item at or before the list is prepended
    ensures 0 <= itemIdx <= listIdx < |symbols| && symbols[itemIdx] != Null && symbols[listIdx].List? ==>
      r == Ok(List([symbols[itemIdx]] + symbols[listIdx].elems))
    ensures 0 <= itemIdx <= listIdx < |symbols| && symbols[itemIdx] != Null && !symbols[listIdx].List? ==>
      r == Ok(List([symbols[itemIdx], symbols[listIdx]]))
  {
    if |symbols| > listIdx && listIdx < 0 then Err("ArrayIndexOutOfBoundsException")
    else
      var list := if |symbols| > listIdx then
          (if symbols[listIdx].List? then symbols[listIdx].elems else [symbols[listIdx]])
        else [];
      if |symbols| > itemIdx && itemIdx < 0 then Err("ArrayIndexOutOfBoundsException")
      else
        var item := if |symbols| > itemIdx then symbols[itemIdx] else Null;
        if item == Null then Ok(List(list))
        else if itemIdx > listIdx then
          assert list == [] ==> list + [item] == [item];
          assert |list| == 1 ==> list + [item] == [list[0], item];
          Ok(List(list + [item]))
        else
          assert list == [] ==> [item] + list == [item];
          assert |list| == 1 ==> [item] + list == [item, list[0]];
          Ok(List([item] + list))
  }

  /** A left-recursive list rule `L ::= L x` with `ListBuild(0, 1)`, whose
      base rule passes its single value through, collects the values in
      input order. */
  function LeftListFold(first: Value, items: seq<Value>): Result<Value>
  {
    if |items| == 0 then Ok(first)
    else
      var acc :- LeftListFold(first, items[..|items| - 1]);
      ListBuildReduce(0, 1, [acc, items[|items| - 1]])
  }

  lemma {:induction false} LeftListCollects(first: Value, items: seq<Value>)
    requires first != Null && !first.List?
    requires forall k :: 0 <= k < |items| ==> items[k] != Null
    requires |items| > 0
    ensures LeftListFold(first, items) == Ok(List([first] + items))
  {
    var init := items[..|items| - 1];
    if |items| > 1 {
      LeftListCollects(first, init);
      assert [first] + init + [items[|items| - 1]] == [first] + items;
    } else {
      assert init == [];
      assert LeftListFold(first, init) == Ok(first);
      assert ListBuildReduce(0, 1, [first, items[0]]) == Ok(List([first] + [items[0]]));
      assert [first] + items == [first] + [items[0]];
      assert LeftListFold(first, items) == ListBuildReduce(0, 1, [first, items[0]]);
    }
  }

  /** A right-recursive list rule `L ::= x L` with `ListBuild(1, 0)` puts
      each new value in front. */
  function RightListFold(items: seq<Value>, last: Value): Result<Value>
  {
    if |items| == 0 then Ok(last)
    else
      var acc :- RightListFold(items[1..], last);
      ListBuildReduce(1, 0, [items[0], acc])
  }

  lemma {:induction false} RightListCollects(items: seq<Value>, last: Value)
    requires last != Null && !last.List?
    requires forall k :: 0 <= k < |items| ==> items[k] != Null
    requires |items| > 0
    ensures RightListFold(items, last) == Ok(List(items + [last]))
  {
    if |items| > 1 {
      RightListCollects(items[1..], last);
      assert [items[0]] + (items[1..] + [last]) == items + [last];
    } else {
      assert items[1..] == [];
      assert RightListFold(items[1..], last) == Ok(last);
      assert ListBuildReduce(1, 0, [items[0], last]) == Ok(List([items[0]] + [last]));
      assert items + [last] == [items[0]] + [last];
      assert RightListFold(items, last) == ListBuildReduce(1, 0, [items[0], last]);
    }
  }

  /** The value a rule's handler produces from the popped symbol values. */
  function Reduce(rule: Rule, from: SourcePos, symbols: seq<Value>): (r: Result<Value>)
    ensures rule.handler.Generic? ==> r == Ok(Node(ParseNode(rule.target, Some(from), Some(symbols))))
    ensures rule.handler.Passthrough? ==> r == Ok(PassthroughReduce(rule.handler.fieldIdx, symbols))
    ensures rule.handler.ElemChoose? ==> r == ElemChooseReduceAsWritten(rule.target, from, rule.handler.elemIdxs, symbols)
    ensures rule.handler.ElemChoose? ==>
      (r.Ok? <==> ChooseFrom(rule.handler.elemIdxs, 0, symbols, true).Ok?) &&
      (|symbols| in rule.handler.elemIdxs ==> r.Err?) &&
      (r.Ok? ==> r == ElemChooseReduce(rule.target, from, rule.handler.elemIdxs, symbols)) &&
      (r.Ok? ==> r.value.Node? && r.value.node.nodeType == rule.target && r.value.node.from == Some(from))
    ensures rule.handler.ListBuild? ==> r == ListBuildReduce(rule.handler.listIdx, rule.handler.itemIdx, symbols)
    ensures rule.handler.ListBuild? ==> (r.Ok? ==> r.value.List?)
  {
    match rule.handler
    case Generic => Ok(Node(MakeNode(rule.target, Some(from), Some(symbols))))
    case Passthrough(i) => Ok(PassthroughReduce(i, symbols))
    case ElemChoose(idxs) => ElemChooseReduceAsWritten(rule.target, from, idxs, symbols)
    case ListBuild(l, i) => ListBuildReduce(l, i, symbols)
  }
}
