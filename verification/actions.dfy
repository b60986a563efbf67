/** `LR1_Table.ParseAction`: the actions of a parse-table cell and their
    encoding as integers. */
module Actions {
  import opened Wrappers

  const SHIFT: int := 0
  const REDUCE: int := 1
  const ACCEPT: int := 2
  const NONASSOC_ERR: int := 3

  /** An action. `Shift` carries the next state and `Reduce`/`Accept` the
      index of the rule; `Other` is an action read back with a type code
      that is none of the four. */
  datatype ParseAction =
    | Shift(next: int)
    | Reduce(rule: int)
    | Accept(rule: int)
    | NonassocErr
    | Other(code: int)

  /** The `type` field of an action. */
  function TypeCode(a: ParseAction): int {
    match a
    case Shift(_) => SHIFT
    case Reduce(_) => REDUCE
    case Accept(_) => ACCEPT
    case NonassocErr => NONASSOC_ERR
    case Other(c) => c
  }

  /** An action the Java object can hold: an `Other` code is not one of the
      four known codes. */
  predicate WellTyped(a: ParseAction) {
    a.Other? ==> !(SHIFT <= a.code <= NONASSOC_ERR)
  }

  /** `serializeToBuffer`: the type code, then the payload for SHIFT and
      REDUCE. */
  function Encode(a: ParseAction): (codes: seq<int>)
    ensures |codes| >= 1 && codes[0] == TypeCode(a)
    ensures |codes| == (if a.Shift? || a.Reduce? then 2 else 1)
  {
    match a
    case Shift(n) => [SHIFT, n]
    case Reduce(r) => [REDUCE, r]
    case _ => [TypeCode(a)]
  }

  /** The action as `deserializeFromBuffer` rebuilds it: ACCEPT loses its
      rule, since only the type code is written for it. */
  function Stored(a: ParseAction): ParseAction {
    match a
    case Accept(_) => Accept(0)
    case _ => a
  }

  /** `deserializeFromBuffer`: the action at `pos` and the number of codes
      it takes; a buffer that ends too early is an index error. */
  function Decode(codes: seq<int>, pos: nat): (r: Result<(ParseAction, nat)>)
    ensures r.Ok? ==> pos + r.value.1 <= |codes| && 1 <= r.value.1 <= 2
    ensures r.Ok? ==> TypeCode(r.value.0) == codes[pos] && WellTyped(r.value.0)
    ensures r.Err? <==> pos >= |codes| || ((codes[pos] == SHIFT || codes[pos] == REDUCE) && pos + 1 >= |codes|)
  {
    if pos >= |codes| then Err("ArrayIndexOutOfBoundsException")
    else
      var t := codes[pos];
      if t == SHIFT || t == REDUCE then
        if pos + 1 >= |codes| then Err("ArrayIndexOutOfBoundsException")
        else Ok((if t == SHIFT then Shift(codes[pos + 1]) else Reduce(codes[pos + 1]), 2))
      else if t == ACCEPT then Ok((Accept(0), 1))
      else if t == NONASSOC_ERR then Ok((NonassocErr, 1))
      else Ok((Other(t), 1))
  }

  /** Reading back what was written, wherever it sits in the buffer, gives
      the stored action and consumes exactly the codes written. */
  lemma DecodeEncode(a: ParseAction, before: seq<int>, after: seq<int>)
    requires WellTyped(a)
    ensures Decode(before + Encode(a) + after, |before|) == Ok((Stored(a), |Encode(a)|))
  {
    var codes := before + Encode(a) + after;
    assert codes[|before|] == Encode(a)[0];
    if a.Shift? || a.Reduce? {
      assert codes[|before| + 1] == Encode(a)[1];
    }
  }

  /** SHIFT and REDUCE keep their payload, NONASSOC_ERR and unknown codes
      are unchanged, and an ACCEPT keeps only its type. */
  lemma StoredKeeps(a: ParseAction)
    ensures !a.Accept? ==> Stored(a) == a
    ensures a.Accept? ==> Stored(a).Accept? && Stored(a).rule == 0
    ensures TypeCode(Stored(a)) == TypeCode(a)
  {
  }
}
