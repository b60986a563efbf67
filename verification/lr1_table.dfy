/** `LR1_Table`: the action and goto tables kept as one map per state, the
    deterministic numbering of the grammar's symbols, and the encoding of
    each row as integers. */
module LR1Tables {
  import opened Wrappers
  import opened Seqs
  import opened Symbols
  import opened ParseRules
  import Catalog
  import opened Actions
  import Priorities
  import Tables

  /** A cell of a row: a goto target under a nonterminal key, an action
      under a terminal key. */
  datatype Entry = Goto(state: int) | Act(acn: ParseAction)

  /** One row: the goto and action cells of a state in one map. */
  type Row = map<Symbol, Entry>

  /** The kind of each cell matches the kind of its key. */
  predicate RowOk(row: Row) {
    forall k :: k in row ==> (k.N? <==> row[k].Goto?)
  }

  /** Every action of the row is one the Java object can hold. */
  predicate RowActionsOk(row: Row) {
    forall k :: k in row && row[k].Act? ==> WellTyped(row[k].acn)
  }

  /** A table: its rows and the rules it was built for. */
  datatype Table = Table(rows: seq<Row>, rules: seq<Rule>)

  predicate TableOk(tb: Table) {
    forall s :: 0 <= s < |tb.rows| ==> RowOk(tb.rows[s]) && RowActionsOk(tb.rows[s])
  }

  // ---------------------------------------------------------------------
  // Symbol numbering

  /** `buildSymbolLists`: EOF, then the symbols of the rules in the order
      met (each rule's target, then its body), each listed once. */
  function SymbolList(rules: seq<Rule>): (syms: seq<Symbol>)
    ensures |syms| > 0 && syms[0] == T(Eof)
    ensures NoDup(syms)
    ensures forall x :: x in syms <==> x == T(Eof) || x in Catalog.SymbolStream(rules)
  {
    var stream := [T(Eof)] + Catalog.SymbolStream(rules);
    DedupElements(stream);
    AddAllAppend([], [T(Eof)], Catalog.SymbolStream(rules));
    assert AddAll([], [T(Eof)]) == [T(Eof)] by {
      assert [T(Eof)][..0] == [];
    }
    AddAllPrefix([T(Eof)], Catalog.SymbolStream(rules));
    Dedup(stream)
  }

  /** The numbering is in order of first appearance in EOF followed by the
      rules' symbol stream. */
  lemma SymbolListOrder(rules: seq<Rule>)
    ensures var stream := [T(Eof)] + Catalog.SymbolStream(rules);
      var syms := SymbolList(rules);
      forall i, j :: 0 <= i < j < |syms| ==>
        syms[i] in stream && syms[j] in stream && FirstIndex(stream, syms[i]) < FirstIndex(stream, syms[j])
  {
    DedupOrder([T(Eof)] + Catalog.SymbolStream(rules));
  }

  /** `buildArrayReverseMapping`: each element mapped to its index; a later
      occurrence overwrites an earlier one. */
  function ReverseMapping(arr: seq<Symbol>): (m: map<Symbol, nat>)
    ensures forall x :: x in m <==> x in arr
    ensures forall x :: x in m ==> m[x] < |arr| && arr[m[x]] == x
    ensures forall x, j :: x in m && m[x] < j < |arr| ==> arr[j] != x
  {
    if |arr| == 0 then map[]
    else
      var init := arr[..|arr| - 1];
      assert arr == init + [arr[|arr| - 1]];
      ReverseMapping(init)[arr[|arr| - 1] := |arr| - 1]
  }

  /** On a list without repeats the mapping is the inverse of indexing. */
  lemma ReverseMappingInverse(arr: seq<Symbol>)
    requires NoDup(arr)
    ensures forall i :: 0 <= i < |arr| ==> arr[i] in ReverseMapping(arr) && ReverseMapping(arr)[arr[i]] == i
  {
    var m := ReverseMapping(arr);
    forall i | 0 <= i < |arr| ensures arr[i] in m && m[arr[i]] == i {
      assert arr[i] in arr;
      assert arr[m[arr[i]]] == arr[i];
    }
  }

  // ---------------------------------------------------------------------
  // Row encoding

  /** One entry as `serializeTableRow` writes it: the key's index, then the
      goto target or the encoded action. A key the numbering lacks is a
      null unboxed; a cell of the wrong kind fails its cast. */
  function EntryCodes(index: map<Symbol, nat>, k: Symbol, e: Entry): (r: Result<seq<int>>)
    ensures r.Ok? <==> k in index && (k.N? <==> e.Goto?)
    ensures r.Ok? ==> 2 <= |r.value| <= 3 && r.value[0] == index[k]
  {
    if k !in index then Err("NullPointerException")
    else if k.N? then
      if e.Goto? then Ok([index[k], e.state]) else Err("ClassCastException")
    else if e.Act? then Ok([index[k] as int] + Encode(e.acn))
    else Err("ClassCastException")
  }

  /** `serializeTableRow`, visiting the keys of `row` in the order `order`
      (the map's iteration order). */
  function SerializeRow(index: map<Symbol, nat>, row: Row, order: seq<Symbol>): (r: Result<seq<int>>)
    requires forall i :: 0 <= i < |order| ==> order[i] in row
    ensures r.Ok? ==> |r.value| <= 3 * |order|
    ensures r.Ok? <==> forall i :: 0 <= i < |order| ==> order[i] in index && (order[i].N? <==> row[order[i]].Goto?)
  {
    if |order| == 0 then Ok([])
    else
      var first :- EntryCodes(index, order[0], row[order[0]]);
      var rest :- SerializeRow(index, row, order[1..]);
      assert forall i :: 1 <= i < |order| ==> order[i] == order[1..][i - 1];
      Ok(first + rest)
  }

  /** `deserializeTableRow` from the remaining codes, putting each entry
      read into `acc`; an index outside the symbol list or a buffer that
      ends inside an entry is an index error. */
  function Deserialize(symbols: seq<Symbol>, codes: seq<int>, acc: Row): (r: Result<Row>)
    requires RowOk(acc) && RowActionsOk(acc)
    ensures r.Ok? ==> RowOk(r.value) && RowActionsOk(r.value) && acc.Keys <= r.value.Keys
    ensures r.Ok? ==> forall k :: k in r.value && k !in acc ==> k in symbols
    decreases |codes|
  {
    if |codes| == 0 then Ok(acc)
    else if codes[0] < 0 || codes[0] >= |symbols| then Err("ArrayIndexOutOfBoundsException")
    else
      var key := symbols[codes[0]];
      if key.N? then
        if |codes| < 2 then Err("ArrayIndexOutOfBoundsException")
        else Deserialize(symbols, codes[2..], acc[key := Goto(codes[1])])
      else
        var (a, w) :- Decode(codes, 1);
        Deserialize(symbols, codes[1 + w..], acc[key := Act(a)])
  }

  function DeserializeRow(symbols: seq<Symbol>, codes: seq<int>): (r: Result<Row>)
    ensures r.Ok? ==> RowOk(r.value) && RowActionsOk(r.value)
    ensures r.Ok? ==> forall k :: k in r.value ==> k in symbols
  {
    Deserialize(symbols, codes, map[])
  }

  /** A cell as it reads back after encoding. */
  function StoredEntry(e: Entry): Entry {
    match e
    case Goto(n) => Goto(n)
    case Act(a) => Act(Stored(a))
  }

  /** The cells of `row` under the keys listed in `order`, as they read
      back. */
  function StoredPart(row: Row, order: seq<Symbol>): Row {
    map k | k in row && k in order :: StoredEntry(row[k])
  }

  /** A whole row as it reads back. */
  function StoredRow(row: Row): Row {
    map k | k in row :: StoredEntry(row[k])
  }

  /** Reading one written entry puts its stored cell into the row and
      leaves the codes after it. */
  lemma EntryStep(symbols: seq<Symbol>, k: Symbol, e: Entry, rest: seq<int>, acc: Row)
    requires k in symbols && RowOk(acc) && RowActionsOk(acc)
    requires (k.N? <==> e.Goto?) && (e.Act? ==> WellTyped(e.acn))
    ensures EntryCodes(ReverseMapping(symbols), k, e).Ok?
    ensures RowOk(acc[k := StoredEntry(e)]) && RowActionsOk(acc[k := StoredEntry(e)])
    ensures Deserialize(symbols, EntryCodes(ReverseMapping(symbols), k, e).value + rest, acc) ==
            Deserialize(symbols, rest, acc[k := StoredEntry(e)])
  {
    var index := ReverseMapping(symbols);
    var codes := EntryCodes(index, k, e).value + rest;
    assert codes[0] == index[k] && 0 <= index[k] < |symbols| && symbols[index[k]] == k;
    if k.N? {
      assert codes[1] == e.state && codes[2..] == rest;
    } else {
      DecodeEncode(e.acn, [index[k] as int], rest);
      assert codes == [index[k] as int] + Encode(e.acn) + rest;
      assert codes[1 + |Encode(e.acn)|..] == rest;
    }
  }

  /** Putting the first listed cell in, then the others, is putting them
      all in. */
  lemma StoredPartStep(acc: Row, row: Row, order: seq<Symbol>)
    requires |order| > 0 && order[0] in row && order[0] !in order[1..]
    ensures acc[order[0] := StoredEntry(row[order[0]])] + StoredPart(row, order[1..]) == acc + StoredPart(row, order)
  {
    var k := order[0];
    assert forall x :: x in order <==> x == k || x in order[1..] by {
      assert order == [k] + order[1..];
    }
  }

  /** Reading back a row written in any key order puts every listed cell,
      as stored, over what was read before. The symbol list need not be
      free of repeats: the reverse mapping always names an index holding
      the key. */
  lemma {:induction false} DeserializeSerialized(symbols: seq<Symbol>, row: Row, order: seq<Symbol>, acc: Row)
    requires RowOk(row) && RowActionsOk(row) && RowOk(acc) && RowActionsOk(acc)
    requires NoDup(order) && forall i :: 0 <= i < |order| ==> order[i] in row && order[i] in symbols
    ensures SerializeRow(ReverseMapping(symbols), row, order).Ok?
    ensures Deserialize(symbols, SerializeRow(ReverseMapping(symbols), row, order).value, acc) ==
            Ok(acc + StoredPart(row, order))
  {
    var index := ReverseMapping(symbols);
    if |order| == 0 {
      assert StoredPart(row, order) == map[];
      assert acc + map[] == acc;
    } else {
      var k := order[0];
      var e := row[k];
      var tail := order[1..];
      assert forall i :: 0 <= i < |tail| ==> tail[i] == order[i + 1];
      assert NoDup(tail);
      assert k !in tail;
      EntryStep(symbols, k, e, SerializeRow(index, row, tail).value, acc);
      var acc' := acc[k := StoredEntry(e)];
      DeserializeSerialized(symbols, row, tail, acc');
      assert SerializeRow(index, row, order).value ==
             EntryCodes(index, k, e).value + SerializeRow(index, row, tail).value;
      StoredPartStep(acc, row, order);
    }
  }

  /** The whole row reads back: every goto entry and every action's type
      and payload, only an ACCEPT losing its rule, whenever every key of
      the row is numbered. */
  lemma RowRoundTrip(symbols: seq<Symbol>, row: Row, order: seq<Symbol>)
    requires RowOk(row) && RowActionsOk(row)
    requires NoDup(order) && (forall k :: k in row <==> k in order)
    requires forall k :: k in row ==> k in symbols
    ensures SerializeRow(ReverseMapping(symbols), row, order).Ok?
    ensures DeserializeRow(symbols, SerializeRow(ReverseMapping(symbols), row, order).value) == Ok(StoredRow(row))
  {
    DeserializeSerialized(symbols, row, order, map[]);
    StoredPartWhole(row, order);
  }

  /** Listing every key stores the whole row. */
  lemma StoredPartWhole(row: Row, order: seq<Symbol>)
    requires forall k :: k in row <==> k in order
    ensures map[] + StoredPart(row, order) == StoredRow(row)
  {
    var part := StoredPart(row, order);
    var m: Row := map[];
    assert m + part == part;
    assert part.Keys == StoredRow(row).Keys;
  }

  // ---------------------------------------------------------------------
  // The table

  /** The codes of every row in order, or the failure of the first row
      that fails. */
  function CollectRows(rs: seq<Result<seq<int>>>): (r: Result<seq<seq<int>>>)
    ensures r.Ok? <==> forall s :: 0 <= s < |rs| ==> rs[s].Ok?
    ensures r.Ok? ==> |r.value| == |rs| && forall s :: 0 <= s < |rs| ==> rs[s] == Ok(r.value[s])
    ensures r.Err? ==> exists s :: 0 <= s < |rs| && rs[s] == Err(r.msg) && forall j :: 0 <= j < s ==> rs[j].Ok?
    decreases |rs|
  {
    if |rs| == 0 then Ok([])
    else
      var n := |rs| - 1;
      var init := CollectRows(rs[..n]);
      assert forall s :: 0 <= s < n ==> rs[..n][s] == rs[s];
      if init.Err? then Err(init.msg)
      else if rs[n].Err? then Err(rs[n].msg)
      else
        var rows := init.value + [rs[n].value];
        assert forall s :: 0 <= s < n ==> rows[s] == init.value[s];
        Ok(rows)
  }

  /** Each row written in its own key order. */
  function RowCodes(tb: Table, orders: seq<seq<Symbol>>): (rs: seq<Result<seq<int>>>)
    requires |orders| == |tb.rows|
    requires forall s, i :: 0 <= s < |orders| && 0 <= i < |orders[s]| ==> orders[s][i] in tb.rows[s]
    ensures |rs| == |orders|
    ensures forall s :: 0 <= s < |orders| ==> rs[s] == SerializeRow(ReverseMapping(SymbolList(tb.rules)), tb.rows[s], orders[s])
  {
    var index := ReverseMapping(SymbolList(tb.rules));
    seq(|orders|, s requires 0 <= s < |orders| => SerializeRow(index, tb.rows[s], orders[s]))
  }

  /** `serialize`: every row, each in its own key order; the first row that
      cannot be written ends it. */
  function Serialize(tb: Table, orders: seq<seq<Symbol>>): (r: Result<seq<seq<int>>>)
    requires |orders| == |tb.rows|
    requires forall s, i :: 0 <= s < |orders| && 0 <= i < |orders[s]| ==> orders[s][i] in tb.rows[s]
  {
    CollectRows(RowCodes(tb, orders))
  }

  /** The constructor from rules and serialised data. */
  function Load(rules: seq<Rule>, data: seq<seq<int>>): (r: Result<Table>)
    ensures r.Ok? ==> TableOk(r.value) && r.value.rules == rules && |r.value.rows| == |data|
    ensures r.Ok? ==> forall s :: 0 <= s < |data| ==> DeserializeRow(SymbolList(rules), data[s]) == Ok(r.value.rows[s])
    ensures r.Err? ==> exists s :: 0 <= s < |data| && DeserializeRow(SymbolList(rules), data[s]).Err?
    decreases |data|
  {
    if |data| == 0 then Ok(Table([], rules))
    else
      var n := |data| - 1;
      var init := Load(rules, data[..n]);
      var last := DeserializeRow(SymbolList(rules), data[n]);
      if init.Err? then Err(init.msg)
      else if last.Err? then Err(last.msg)
      else Ok(Table(init.value.rows + [last.value], rules))
  }

  /** Every key of the table is numbered by its rules. */
  predicate KeysNumbered(tb: Table) {
    forall s, k :: 0 <= s < |tb.rows| && k in tb.rows[s] ==> k in SymbolList(tb.rules)
  }

  /** Each row's key order lists that row's keys once each. */
  ghost predicate OrdersFit(tb: Table, orders: seq<seq<Symbol>>) {
    |orders| == |tb.rows| &&
    forall s :: 0 <= s < |orders| ==> NoDup(orders[s]) && forall k :: k in tb.rows[s] <==> k in orders[s]
  }

  /** The table as it reads back. */
  function StoredTable(tb: Table): (r: Table)
    ensures |r.rows| == |tb.rows| && r.rules == tb.rules
  {
    Table(seq(|tb.rows|, s requires 0 <= s < |tb.rows| => StoredRow(tb.rows[s])), tb.rules)
  }

  /** Serialising succeeds, and each row of the data reads back. */
  lemma SerializedRowsReadBack(tb: Table, orders: seq<seq<Symbol>>)
    requires TableOk(tb) && KeysNumbered(tb) && OrdersFit(tb, orders)
    ensures Serialize(tb, orders).Ok? && |Serialize(tb, orders).value| == |tb.rows|
    ensures forall s :: 0 <= s < |tb.rows| ==>
      DeserializeRow(SymbolList(tb.rules), Serialize(tb, orders).value[s]) == Ok(StoredTable(tb).rows[s])
  {
    var syms := SymbolList(tb.rules);
    var rs := RowCodes(tb, orders);
    forall s | 0 <= s < |tb.rows|
      ensures rs[s].Ok? && DeserializeRow(syms, rs[s].value) == Ok(StoredTable(tb).rows[s])
    {
      RowRoundTrip(syms, tb.rows[s], orders[s]);
    }
    var r := CollectRows(rs);
    forall s | 0 <= s < |tb.rows|
      ensures DeserializeRow(syms, r.value[s]) == Ok(StoredTable(tb).rows[s])
    {
      assert rs[s] == Ok(r.value[s]);
    }
  }

  /** Loading what was serialised with the same rules gives back the table,
      every cell as stored. */
  lemma TableRoundTrip(tb: Table, orders: seq<seq<Symbol>>)
    requires TableOk(tb) && KeysNumbered(tb) && OrdersFit(tb, orders)
    ensures Serialize(tb, orders).Ok?
    ensures Load(tb.rules, Serialize(tb, orders).value) == Ok(StoredTable(tb))
  {
    SerializedRowsReadBack(tb, orders);
    LoadRows(tb.rules, Serialize(tb, orders).value, StoredTable(tb).rows);
  }

  /** Data whose every row reads back loads as the table of those rows. */
  lemma LoadRows(rules: seq<Rule>, data: seq<seq<int>>, rows: seq<Row>)
    requires |rows| == |data|
    requires forall s :: 0 <= s < |data| ==> DeserializeRow(SymbolList(rules), data[s]) == Ok(rows[s])
    ensures Load(rules, data) == Ok(Table(rows, rules))
  {
    var r := Load(rules, data);
    assert r.Ok?;
    assert r.value.rows == rows;
  }

  // ---------------------------------------------------------------------
  // Lookups

  /** `getAction`: the action of a terminal's cell, if any. */
  function GetAction(tb: Table, state: nat, token: Terminal): (r: Option<ParseAction>)
    requires state < |tb.rows| && TableOk(tb)
    ensures r.Some? <==> T(token) in tb.rows[state]
    ensures r.Some? ==> tb.rows[state][T(token)] == Act(r.value)
  {
    if T(token) in tb.rows[state] then Some(tb.rows[state][T(token)].acn) else None
  }

  /** `getStateTrans`: the goto target of a nonterminal; a missing entry is
      a null unboxed. */
  function GetStateTrans(tb: Table, state: nat, nt: Nonterminal): (r: Result<int>)
    requires state < |tb.rows| && TableOk(tb)
    ensures r.Ok? <==> N(nt) in tb.rows[state]
    ensures r.Ok? ==> tb.rows[state][N(nt)] == Goto(r.value)
  {
    if N(nt) in tb.rows[state] then Ok(tb.rows[state][N(nt)].state) else Err("NullPointerException")
  }

  /** `getOptions`: the keys of a row that are not nonterminals, in the
      row's key order. */
  function Options(row: Row, order: seq<Symbol>): (r: seq<Terminal>)
    ensures |r| <= |order|
  {
    if |order| == 0 then []
    else
      var rest := Options(row, order[1..]);
      if order[0].T? then [order[0].t] + rest else rest
  }

  /** The options are exactly the terminal keys, each once. */
  lemma {:induction false} OptionsAreTerminals(row: Row, order: seq<Symbol>)
    requires NoDup(order) && forall k :: k in row <==> k in order
    ensures NoDup(Options(row, order))
    ensures forall t :: t in Options(row, order) <==> T(t) in row
  {
    OptionsOf(row, order);
  }

  lemma {:induction false} OptionsOf(row: Row, order: seq<Symbol>)
    requires NoDup(order)
    ensures NoDup(Options(row, order))
    ensures forall t :: t in Options(row, order) <==> T(t) in order
  {
    if |order| > 0 {
      var tail := order[1..];
      assert forall i :: 0 <= i < |tail| ==> tail[i] == order[i + 1];
      assert NoDup(tail);
      OptionsOf(row, tail);
      assert order == [order[0]] + tail;
      if order[0].T? {
        assert order[0] !in tail;
        var r := Options(row, order);
        assert r == [order[0].t] + Options(row, tail);
        forall i, j | 0 <= i < j < |r| ensures r[i] != r[j] {
          if i == 0 {
            assert r[j] in Options(row, tail);
          }
        }
      }
    }
  }

  // ---------------------------------------------------------------------
  // Building from a grammar

  /** A state's action map and goto map as one row. */
  function MergeRow(acts: map<Terminal, Tables.Cell>, gotos: map<Nonterminal, nat>): (row: Row)
    ensures RowOk(row)
    ensures forall t :: T(t) in row <==> t in acts
    ensures forall nt :: N(nt) in row <==> nt in gotos
    ensures forall t :: t in acts ==> row[T(t)] == Act(acts[t].acn)
    ensures forall nt :: nt in gotos ==> row[N(nt)] == Goto(gotos[nt])
  {
    var a := map t | t in acts :: T(t) := Act(acts[t].acn);
    var g := map nt | nt in gotos :: N(nt) := Goto(gotos[nt]);
    assert forall k :: k in a ==> k.T? && k.t in acts;
    assert forall k :: k in g ==> k.N? && k.nt in gotos;
    a + g
  }

  /** Every state's action map and goto map merged into its row. */
  function MergeTables(tb: Tables.Tables): (rows: seq<Row>)
    requires |tb.gotos| == |tb.actions|
    ensures |rows| == |tb.actions|
    ensures forall s :: 0 <= s < |rows| ==>
      RowOk(rows[s]) &&
      (forall t :: T(t) in rows[s] <==> t in tb.actions[s]) &&
      (forall t :: t in tb.actions[s] ==> rows[s][T(t)] == Act(tb.actions[s][t].acn)) &&
      (forall nt :: N(nt) in rows[s] <==> nt in tb.gotos[s]) &&
      (forall nt :: nt in tb.gotos[s] ==> rows[s][N(nt)] == Goto(tb.gotos[s][nt]))
  {
    seq(|tb.actions|, s requires 0 <= s < |tb.actions| => MergeRow(tb.actions[s], tb.gotos[s]))
  }

  /** The constructor from a grammar: the generated tables, each state's
      actions and gotos in one row, or a failure when the grammar has
      conflicts. */
  function FromGrammar(g: Catalog.Grammar): (r: Result<Table>)
    requires Priorities.Valid(g.priorities)
    ensures var tb := Tables.Generate(g.rules, g.start, g.priorities);
      (r.Err? <==> tb.conflicts != {}) &&
      (r.Ok? ==>
         r.value.rules == g.rules && |r.value.rows| == |tb.actions| &&
         forall s :: 0 <= s < |r.value.rows| ==>
           RowOk(r.value.rows[s]) &&
           (forall t :: T(t) in r.value.rows[s] <==> t in tb.actions[s]) &&
           (forall t :: t in tb.actions[s] ==> r.value.rows[s][T(t)] == Act(tb.actions[s][t].acn)) &&
           (forall nt :: N(nt) in r.value.rows[s] <==> nt in tb.gotos[s]) &&
           (forall nt :: nt in tb.gotos[s] ==> r.value.rows[s][N(nt)] == Goto(tb.gotos[s][nt])))
  {
    var tb := Tables.Generate(g.rules, g.start, g.priorities);
    if tb.conflicts != {} then Err("Grammar has conflicts")
    else Ok(Table(MergeTables(tb), g.rules))
  }

  /** A table built from a grammar holds only the four known actions. */
  lemma FromGrammarOk(g: Catalog.Grammar)
    requires Priorities.Valid(g.priorities)
    ensures FromGrammar(g).Ok? ==> TableOk(FromGrammar(g).value)
  {
    var tb := Tables.Generate(g.rules, g.start, g.priorities);
    Tables.GenerateActions(g.rules, g.start, g.priorities);
    var r := FromGrammar(g);
    if r.Ok? {
      forall s | 0 <= s < |r.value.rows| ensures RowActionsOk(r.value.rows[s]) {
        forall k | k in r.value.rows[s] && r.value.rows[s][k].Act? ensures WellTyped(r.value.rows[s][k].acn) {
          assert k.T? && k.t in tb.actions[s];
        }
      }
    }
  }
}
