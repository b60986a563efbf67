/** The priority store (`Parser.Priorities`): a priority per symbol or rule,
    with fallback from a terminal to its class, and an associativity per
    priority level. */
module Priorities {
  import opened Wrappers
  import opened Symbols

  /** A key of the priority map: a rule (by identity) or a symbol. */
  datatype Key = RuleKey(rule: nat) | SymKey(sym: Symbol)

  /** Associativity of a priority level. */
  datatype Assoc = Left | Right | Nonassoc

  const LEFT: int := 0
  const RIGHT: int := 1
  const NONASSOC: int := 2
  const DefaultPri: int := 0

  /** The integer code of an associativity. */
  function AssocCode(a: Assoc): (c: int)
    ensures LEFT <= c <= NONASSOC
  {
    match a
    case Left => LEFT
    case Right => RIGHT
    case Nonassoc => NONASSOC
  }

  /** The associativity with a given code, if the code is valid. */
  function AssocOf(code: int): (r: Option<Assoc>)
    ensures r.Some? <==> LEFT <= code <= NONASSOC
    ensures r.Some? ==> AssocCode(r.value) == code
  {
    if code == LEFT then Some(Left)
    else if code == RIGHT then Some(Right)
    else if code == NONASSOC then Some(Nonassoc)
    else None
  }

  datatype Store = Store(pri: map<Key, int>, assoc: map<int, Assoc>)

  const Empty: Store := Store(map[], map[])

  /** What the store's setters keep true: every stored priority is
      positive (0 is stored by removing the entry) and associativities are
      recorded only for levels of at least 1. */
  predicate Valid(p: Store) {
    (forall k :: k in p.pri ==> p.pri[k] >= 1) &&
    (forall l :: l in p.assoc ==> l >= 1)
  }

  /** The class key a key falls back to: a terminal's class, the class of
      rule objects; nonterminals have no fallback. */
  function ClassKey(k: Key): (c: Option<Key>)
    ensures k.SymKey? && k.sym.N? <==> c.None?
  {
    match k
    case RuleKey(_) => Some(SymKey(T(Class(RuleClassName))))
    case SymKey(N(_)) => None
    case SymKey(T(t)) => Some(SymKey(T(ClassOf(t))))
  }

  /** `getInt`: the key's own priority, else its class's, else none. */
  function GetInt(p: Store, k: Key): (r: Option<int>)
    ensures k in p.pri ==> r == Some(p.pri[k])
    ensures k !in p.pri && ClassKey(k).Some? && ClassKey(k).value in p.pri ==> r == Some(p.pri[ClassKey(k).value])
    ensures r.Some? ==> k in p.pri || (ClassKey(k).Some? && ClassKey(k).value in p.pri)
  {
    if k in p.pri then Some(p.pri[k])
    else
      match ClassKey(k)
      case Some(c) => if c in p.pri then Some(p.pri[c]) else None
      case None => None
  }

  /** `get`: the priority, 0 when none is set. */
  function Get(p: Store, k: Key): (r: int)
    ensures GetInt(p, k).None? ==> r == DefaultPri
    ensures GetInt(p, k).Some? ==> r == GetInt(p, k).value
    ensures Valid(p) ==> r >= 0
  {
    match GetInt(p, k)
    case Some(v) => v
    case None => DefaultPri
  }

  /** Stores a priority; 0 removes the entry. */
  function SetPriVal(p: Store, k: Key, v: int): (r: Store)
    ensures r.assoc == p.assoc
    ensures v != 0 ==> r.pri == p.pri[k := v]
    ensures v == 0 ==> r.pri == p.pri - {k}
  {
    if v != 0 then p.(pri := p.pri[k := v]) else p.(pri := p.pri - {k})
  }

  /** `set(symbol, value)`: rejects a negative value. */
  function Set(p: Store, k: Key, v: int): (r: Result<Store>)
    ensures r.Ok? <==> v >= 0
  {
    if v < 0 then Err("Bad associativity value") else Ok(SetPriVal(p, k, v))
  }

  /** A set value reads back, 0 reads back as unset (so the class's value
      shows through), other keys keep their own entries, and the store
      stays valid. */
  lemma SetThenGet(p: Store, k: Key, v: int)
    requires v >= 0
    ensures v > 0 ==> Get(Set(p, k, v).value, k) == v
    ensures v == 0 ==> k !in Set(p, k, v).value.pri
    ensures v == 0 && ClassKey(k).None? ==> Get(Set(p, k, v).value, k) == DefaultPri
    ensures forall k' :: k' != k ==>
      (k' in Set(p, k, v).value.pri <==> k' in p.pri) &&
      (k' in p.pri ==> Set(p, k, v).value.pri[k'] == p.pri[k'])
    ensures Valid(p) ==> Valid(Set(p, k, v).value)
  {
  }

  /** `getAssociativity`: rejects levels below 1; an unset level is LEFT. */
  function GetAssociativity(p: Store, level: int): (r: Result<Assoc>)
    ensures r.Ok? <==> level >= 1
    ensures level >= 1 && level !in p.assoc ==> r == Ok(Left)
  {
    if level < 1 then Err("Bad associativity value")
    else if level in p.assoc then Ok(p.assoc[level])
    else Ok(Left)
  }

  /** `setAssociativity`: rejects levels below 1 and codes outside
      LEFT..NONASSOC. */
  function SetAssociativity(p: Store, level: int, code: int): (r: Result<Store>)
    ensures r.Ok? <==> level >= 1 && LEFT <= code <= NONASSOC
    ensures r.Ok? ==> r.value.pri == p.pri
  {
    if level < 1 then Err("Bad associativity value")
    else match AssocOf(code)
      case None => Err("Bad associativity value")
      case Some(a) => Ok(p.(assoc := p.assoc[level := a]))
  }

  /** A stored associativity reads back; other levels keep theirs. */
  lemma SetAssociativityThenGet(p: Store, level: int, code: int, other: int)
    requires level >= 1 && LEFT <= code <= NONASSOC
    ensures AssocCode(GetAssociativity(SetAssociativity(p, level, code).value, level).value) == code
    ensures other != level ==>
      GetAssociativity(SetAssociativity(p, level, code).value, other) == GetAssociativity(p, other)
    ensures Valid(p) ==> Valid(SetAssociativity(p, level, code).value)
  {
  }

  /** Sets every key's priority in turn. */
  function SetAll(p: Store, keys: seq<Key>, v: int): (r: Store)
    ensures r.assoc == p.assoc
    decreases |keys|
  {
    if |keys| == 0 then p else SetAll(SetPriVal(p, keys[0], v), keys[1..], v)
  }

  /** After `SetAll` with a positive value every listed key has that
      priority, and unlisted keys keep their entries. */
  lemma {:induction false} SetAllEffect(p: Store, keys: seq<Key>, v: int)
    requires v > 0
    ensures forall i :: 0 <= i < |keys| ==> keys[i] in SetAll(p, keys, v).pri && SetAll(p, keys, v).pri[keys[i]] == v
    ensures forall k :: k !in keys ==> (k in SetAll(p, keys, v).pri <==> k in p.pri)
    ensures forall k :: k !in keys && k in p.pri ==> SetAll(p, keys, v).pri[k] == p.pri[k]
    decreases |keys|
  {
    if |keys| > 0 {
      var p1 := SetPriVal(p, keys[0], v);
      SetAllEffect(p1, keys[1..], v);
      forall i | 0 <= i < |keys|
        ensures keys[i] in SetAll(p, keys, v).pri && SetAll(p, keys, v).pri[keys[i]] == v
      {
        if i > 0 { assert keys[i] == keys[1..][i - 1]; }
        else if keys[0] !in keys[1..] {
          assert keys[0] in p1.pri && p1.pri[keys[0]] == v;
        }
      }
    }
  }

  /** `set(symbols, associativity, value)`: rejects a negative value, then
      records the level's associativity (which rejects level 0 and bad
      codes), then gives every symbol the level as its priority. */
  function SetLevel(p: Store, keys: seq<Key>, code: int, v: int): (r: Result<Store>)
    ensures r.Ok? <==> v >= 1 && LEFT <= code <= NONASSOC
    ensures r.Ok? ==> AssocCode(GetAssociativity(r.value, v).value) == code
  {
    if v < 0 then Err("Bad associativity value")
    else
      var p1 :- SetAssociativity(p, v, code);
      Ok(SetAll(p1, keys, v))
  }

  /** Every symbol of a level gets the level's priority. */
  lemma SetLevelPriorities(p: Store, keys: seq<Key>, code: int, v: int)
    requires v >= 1 && LEFT <= code <= NONASSOC
    ensures forall i :: 0 <= i < |keys| ==> Get(SetLevel(p, keys, code, v).value, keys[i]) == v
    ensures Valid(p) ==> Valid(SetLevel(p, keys, code, v).value)
  {
    var p1 := SetAssociativity(p, v, code).value;
    SetAllEffect(p1, keys, v);
  }

  /** A priority level: its symbols, its associativity code and its value. */
  datatype PriorityLevel = PriorityLevel(items: seq<Key>, assocCode: int, level: int)

  /** The constructor from a list of levels: applies each level in order;
      the first invalid level fails the whole construction. */
  function FromLevels(levels: seq<PriorityLevel>): (r: Result<Store>)
    ensures r.Ok? <==> forall i :: 0 <= i < |levels| ==>
      levels[i].level >= 1 && LEFT <= levels[i].assocCode <= NONASSOC
    ensures r.Ok? ==> Valid(r.value)
  {
    FromLevelsOnto(Empty, levels)
  }

  function FromLevelsOnto(p: Store, levels: seq<PriorityLevel>): (r: Result<Store>)
    requires Valid(p)
    ensures r.Ok? <==> forall i :: 0 <= i < |levels| ==>
      levels[i].level >= 1 && LEFT <= levels[i].assocCode <= NONASSOC
    ensures r.Ok? ==> Valid(r.value)
    decreases |levels|
  {
    if |levels| == 0 then Ok(p)
    else
      var lev := levels[0];
      match SetLevel(p, lev.items, lev.assocCode, lev.level)
      case Err(m) => Err(m)
      case Ok(p1) =>
        SetLevelPriorities(p, lev.items, lev.assocCode, lev.level);
        var r := FromLevelsOnto(p1, levels[1..]);
        assert forall i :: 1 <= i < |levels| ==> levels[i] == levels[1..][i - 1];
        r
  }
}
