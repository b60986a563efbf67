/** `RegexCharSet`: a set of UTF-16 code units kept as a list of inclusive
    ranges, sorted by start with neighbours neither overlapping nor
    touching, so that two sets are equal exactly when their lists are.
    Java packs each range into one `int` (start in the upper half, end in
    the lower half); the model keeps the two ends apart and uses the packed
    form only where Java computes with it. */
module CharSets {
  import opened Wrappers

  /** The largest code unit, `Character.MAX_VALUE`. */
  const MaxChar: int := 0xFFFF

  datatype Range = Range(lo: int, hi: int)

  /** A range of real code units, start not after end. */
  predicate RangeOk(r: Range) {
    0 <= r.lo <= r.hi <= MaxChar
  }

  predicate InRange(r: Range, c: int) {
    r.lo <= c <= r.hi
  }

  /** Every range of the list is a range of real code units. */
  predicate AllOk(rs: seq<Range>) {
    forall i :: 0 <= i < |rs| ==> RangeOk(rs[i])
  }

  /** The set the list stands for. */
  predicate Contains(rs: seq<Range>, c: int) {
    exists i :: 0 <= i < |rs| && InRange(rs[i], c)
  }

  /** The normal form: valid ranges in increasing order, with a gap of at
      least one code unit between any two. */
  predicate Canonical(rs: seq<Range>) {
    AllOk(rs) && forall i, j :: 0 <= i < j < |rs| ==> rs[i].hi + 1 < rs[j].lo
  }

  predicate SortedByStart(rs: seq<Range>) {
    forall i, j :: 0 <= i < j < |rs| ==> rs[i].lo <= rs[j].lo
  }

  /** `ALL`: every code unit. */
  const All: seq<Range> := [Range(0, MaxChar)]

  /** The packed form: start in the upper 16 bits, end in the lower 16. */
  function Pack(r: Range): int {
    r.lo * 0x1_0000 + r.hi
  }

  lemma PackInjective(a: Range, b: Range)
    requires RangeOk(a) && RangeOk(b)
    ensures Pack(a) == Pack(b) <==> a == b
  {
    if Pack(a) == Pack(b) {
      assert a.lo == Pack(a) / 0x1_0000 && a.hi == Pack(a) % 0x1_0000;
      assert b.lo == Pack(b) / 0x1_0000 && b.hi == Pack(b) % 0x1_0000;
    }
  }

  lemma ContainsConcat(a: seq<Range>, b: seq<Range>, c: int)
    ensures Contains(a + b, c) <==> Contains(a, c) || Contains(b, c)
  {
    if Contains(a + b, c) {
      var i :| 0 <= i < |a + b| && InRange((a + b)[i], c);
      if i >= |a| {
        assert InRange(b[i - |a|], c);
      }
    }
    if Contains(a, c) {
      var i :| 0 <= i < |a| && InRange(a[i], c);
      assert (a + b)[i] == a[i];
    }
    if Contains(b, c) {
      var i :| 0 <= i < |b| && InRange(b[i], c);
      assert (a + b)[|a| + i] == b[i];
    }
  }

  lemma ContainsSingle(r: Range, c: int)
    ensures Contains([r], c) <==> InRange(r, c)
  {
    if InRange(r, c) {
      assert [r][0] == r;
    }
  }

  // ---------------------------------------------------------------------
  // Construction and normalisation.

  /** The range pairs of the constructor's first array: element `2k` to
      element `2k+1`; an odd last element is ignored. */
  function PairRanges(pairs: seq<int>): (rs: seq<Range>)
    ensures |rs| == |pairs| / 2
    ensures forall k :: 0 <= k < |rs| ==> rs[k] == Range(pairs[2 * k], pairs[2 * k + 1])
  {
    if |pairs| < 2 then [] else [Range(pairs[0], pairs[1])] + PairRanges(pairs[2..])
  }

  /** One single code unit per range. */
  function SingleRanges(singles: seq<int>): (rs: seq<Range>)
    ensures |rs| == |singles|
    ensures forall k :: 0 <= k < |rs| ==> rs[k] == Range(singles[k], singles[k])
  {
    seq(|singles|, k requires 0 <= k < |singles| => Range(singles[k], singles[k]))
  }

  /** Inserting a range into a list sorted by start. */
  function Insert(r: Range, rs: seq<Range>): (out: seq<Range>)
    requires SortedByStart(rs)
    ensures |out| == |rs| + 1 && SortedByStart(out)
    ensures forall x :: x in out <==> x == r || x in rs
  {
    if |rs| == 0 || r.lo <= rs[0].lo then [r] + rs
    else
      var tail := Insert(r, rs[1..]);
      assert forall j :: 0 <= j < |tail| ==> rs[0].lo <= tail[j].lo by {
        forall j | 0 <= j < |tail|
          ensures rs[0].lo <= tail[j].lo
        {
          assert tail[j] in tail;
        }
      }
      [rs[0]] + tail
  }

  /** A sort by start; Java's quicksort orders by the packed value, and any
      order by start normalises to the same list (`CanonicalUnique`). */
  function SortByStart(rs: seq<Range>): (out: seq<Range>)
    ensures |out| == |rs| && SortedByStart(out)
    ensures forall x :: x in out <==> x in rs
  {
    if |rs| == 0 then [] else Insert(rs[0], SortByStart(rs[1..]))
  }

  /** `normalize`'s merging pass: each range, in order of start, either
      extends the last kept range (when it overlaps or touches it) or is
      kept after it. */
  function MergeInto(acc: seq<Range>, rs: seq<Range>): (out: seq<Range>)
    requires Canonical(acc) && AllOk(rs) && SortedByStart(rs)
    requires |acc| > 0 && |rs| > 0 ==> acc[|acc| - 1].lo <= rs[0].lo
    ensures Canonical(out)
    ensures forall c :: Contains(out, c) <==> Contains(acc, c) || Contains(rs, c)
    decreases |rs|
  {
    if |rs| == 0 then acc
    else
      var r := rs[0];
      if |acc| > 0 && acc[|acc| - 1].hi + 1 >= r.lo then
        var init := acc[..|acc| - 1];
        var last := acc[|acc| - 1];
        var merged := Range(last.lo, if last.hi < r.hi then r.hi else last.hi);
        MergeStep(init, last, merged, rs);
        MergeInto(init + [merged], rs[1..])
      else
        AppendStep(acc, rs);
        MergeInto(acc + [r], rs[1..])
  }

  lemma MergeStep(init: seq<Range>, last: Range, merged: Range, rs: seq<Range>)
    requires Canonical(init + [last]) && AllOk(rs) && SortedByStart(rs) && |rs| > 0
    requires last.lo <= rs[0].lo <= last.hi + 1
    requires merged == Range(last.lo, if last.hi < rs[0].hi then rs[0].hi else last.hi)
    ensures Canonical(init + [merged]) && AllOk(rs[1..]) && SortedByStart(rs[1..])
    ensures |rs| > 1 ==> merged.lo <= rs[1].lo
    ensures forall c :: (Contains(init + [merged], c) || Contains(rs[1..], c)) <==>
                        (Contains(init + [last], c) || Contains(rs, c))
  {
    var acc := init + [last];
    var out := init + [merged];
    assert RangeOk(rs[0]) && RangeOk(acc[|init|]);
    forall i | 0 <= i < |out|
      ensures RangeOk(out[i])
    {
      if i < |init| {
        assert out[i] == acc[i];
      }
    }
    forall i, j | 0 <= i < j < |out|
      ensures out[i].hi + 1 < out[j].lo
    {
      assert out[i] == acc[i];
      if j < |init| {
        assert out[j] == acc[j];
      } else {
        assert acc[j] == last;
      }
    }
    forall c
      ensures (Contains(init + [merged], c) || Contains(rs[1..], c)) <==>
              (Contains(init + [last], c) || Contains(rs, c))
    {
      ContainsConcat(init, [merged], c);
      ContainsConcat(init, [last], c);
      ContainsSingle(merged, c);
      ContainsSingle(last, c);
      ContainsConcat([rs[0]], rs[1..], c);
      ContainsSingle(rs[0], c);
      assert rs == [rs[0]] + rs[1..];
    }
  }

  lemma AppendStep(acc: seq<Range>, rs: seq<Range>)
    requires Canonical(acc) && AllOk(rs) && SortedByStart(rs) && |rs| > 0
    requires |acc| > 0 ==> acc[|acc| - 1].lo <= rs[0].lo && acc[|acc| - 1].hi + 1 < rs[0].lo
    ensures Canonical(acc + [rs[0]]) && AllOk(rs[1..]) && SortedByStart(rs[1..])
    ensures |rs| > 1 ==> rs[0].lo <= rs[1].lo
    ensures forall c :: (Contains(acc + [rs[0]], c) || Contains(rs[1..], c)) <==>
                        (Contains(acc, c) || Contains(rs, c))
  {
    assert RangeOk(rs[0]);
    forall c
      ensures (Contains(acc + [rs[0]], c) || Contains(rs[1..], c)) <==> (Contains(acc, c) || Contains(rs, c))
    {
      ContainsConcat(acc, [rs[0]], c);
      ContainsSingle(rs[0], c);
      ContainsConcat([rs[0]], rs[1..], c);
      assert rs == [rs[0]] + rs[1..];
    }
  }

  /** `normalize`: sort by start, then merge. */
  function Normalize(rs: seq<Range>): (out: seq<Range>)
    requires AllOk(rs)
    ensures Canonical(out)
    ensures forall c :: Contains(out, c) <==> Contains(rs, c)
    ensures |out| <= |rs|
  {
    var sorted := SortByStart(rs);
    assert AllOk(sorted) by {
      forall i | 0 <= i < |sorted|
        ensures RangeOk(sorted[i])
      {
        assert sorted[i] in rs;
      }
    }
    forall c
      ensures Contains(sorted, c) <==> Contains(rs, c)
    {
      if Contains(sorted, c) {
        var i :| 0 <= i < |sorted| && InRange(sorted[i], c);
        assert sorted[i] in rs;
      }
      if Contains(rs, c) {
        var i :| 0 <= i < |rs| && InRange(rs[i], c);
        assert rs[i] in sorted;
      }
    }
    var out := MergeInto([], sorted);
    MergeLength([], sorted);
    out
  }

  lemma {:induction false} MergeLength(acc: seq<Range>, rs: seq<Range>)
    requires Canonical(acc) && AllOk(rs) && SortedByStart(rs)
    requires |acc| > 0 && |rs| > 0 ==> acc[|acc| - 1].lo <= rs[0].lo
    ensures |MergeInto(acc, rs)| <= |acc| + |rs|
    decreases |rs|
  {
    if |rs| > 0 {
      var r := rs[0];
      if |acc| > 0 && acc[|acc| - 1].hi + 1 >= r.lo {
        var last := acc[|acc| - 1];
        var merged := Range(last.lo, if last.hi < r.hi then r.hi else last.hi);
        MergeStep(acc[..|acc| - 1], last, merged, rs);
        MergeLength(acc[..|acc| - 1] + [merged], rs[1..]);
      } else {
        AppendStep(acc, rs);
        MergeLength(acc + [r], rs[1..]);
      }
    }
  }

  /** The constructor: one range per pair and one per single, normalised.
      With nothing to hold, Java's `normalize` copies one element out of an
      empty array and throws. Every caller passes pairs in order. */
  function MakeCharSet(pairs: seq<int>, singles: seq<int>): (r: Result<seq<Range>>)
    requires forall k :: 0 <= k < |pairs| / 2 ==> 0 <= pairs[2 * k] <= pairs[2 * k + 1] <= MaxChar
    requires forall k :: 0 <= k < |singles| ==> 0 <= singles[k] <= MaxChar
    ensures r.Ok? <==> |pairs| / 2 + |singles| > 0
    ensures r.Ok? ==> Canonical(r.value) && 0 < |r.value|
    ensures r.Ok? ==> forall c :: Contains(r.value, c) <==> Contains(PairRanges(pairs), c) || c in singles
  {
    var listed := PairRanges(pairs) + SingleRanges(singles);
    if |listed| == 0 then Err("ArrayIndexOutOfBoundsException")
    else
      var out := Normalize(listed);
      forall c
        ensures Contains(out, c) <==> Contains(PairRanges(pairs), c) || c in singles
      {
        ContainsConcat(PairRanges(pairs), SingleRanges(singles), c);
        SinglesContain(singles, c);
      }
      assert Contains(listed, listed[0].lo);
      Ok(out)
  }

  lemma SinglesContain(singles: seq<int>, c: int)
    ensures Contains(SingleRanges(singles), c) <==> c in singles
  {
    var rs := SingleRanges(singles);
    if c in singles {
      var k :| 0 <= k < |singles| && singles[k] == c;
      assert InRange(rs[k], c);
    }
  }

  // ---------------------------------------------------------------------
  // Equality.

  /** `equals`: the packed ranges compared element by element. */
  method Equals(a: seq<Range>, b: seq<Range>) returns (eq: bool)
    requires AllOk(a) && AllOk(b)
    ensures eq <==> a == b
  {
    if |a| != |b| {
      return false;
    }
    var i := 0;
    while i < |a|
      invariant 0 <= i <= |a|
      invariant a[..i] == b[..i]
    {
      PackInjective(a[i], b[i]);
      if Pack(a[i]) != Pack(b[i]) {
        return false;
      }
      assert a[..i + 1] == a[..i] + [a[i]] && b[..i + 1] == b[..i] + [b[i]];
      i := i + 1;
    }
    assert a == a[..i] && b == b[..i];
    return true;
  }

  lemma FirstIsLeast(rs: seq<Range>, c: int)
    requires Canonical(rs) && Contains(rs, c)
    ensures |rs| > 0 && rs[0].lo <= c
  {
    var i :| 0 <= i < |rs| && InRange(rs[i], c);
    if i > 0 {
      assert rs[0].hi + 1 < rs[i].lo;
    }
  }

  lemma AfterFirst(rs: seq<Range>, c: int)
    requires Canonical(rs) && |rs| > 0
    ensures Canonical(rs[1..])
    ensures Contains(rs[1..], c) <==> Contains(rs, c) && c > rs[0].hi + 1
  {
    if Contains(rs[1..], c) {
      var i :| 0 <= i < |rs[1..]| && InRange(rs[1..][i], c);
      assert rs[1..][i] == rs[i + 1];
      assert rs[0].hi + 1 < rs[i + 1].lo;
    }
    if Contains(rs, c) && c > rs[0].hi + 1 {
      var i :| 0 <= i < |rs| && InRange(rs[i], c);
      assert i > 0;
      assert InRange(rs[1..][i - 1], c);
    }
  }

  lemma FirstEndsBeforeGap(rs: seq<Range>)
    requires Canonical(rs) && |rs| > 0
    ensures !Contains(rs, rs[0].hi + 1)
  {
    forall i | 0 <= i < |rs|
      ensures !InRange(rs[i], rs[0].hi + 1)
    {
      if i > 0 {
        assert rs[0].hi + 1 < rs[i].lo;
      }
    }
  }

  /** The normal form is unique: two normal lists for the same set of code
      units are the same list. So `equals` is equality of sets, and a set's
      form does not depend on the order its ranges were given in. */
  lemma {:induction false} CanonicalUnique(a: seq<Range>, b: seq<Range>)
    requires Canonical(a) && Canonical(b)
    requires forall c :: 0 <= c <= MaxChar ==> (Contains(a, c) <==> Contains(b, c))
    ensures a == b
    decreases |a|
  {
    if |a| > 0 {
      assert Contains(a, a[0].lo) by { assert InRange(a[0], a[0].lo); }
      FirstIsLeast(b, a[0].lo);
    }
    if |b| > 0 {
      assert Contains(b, b[0].lo) by { assert InRange(b[0], b[0].lo); }
      FirstIsLeast(a, b[0].lo);
    }
    if |a| > 0 && |b| > 0 {
      assert a[0].lo == b[0].lo;
      FirstEndsBeforeGap(a);
      FirstEndsBeforeGap(b);
      if a[0].hi < MaxChar {
        assert !Contains(b, a[0].hi + 1);
        assert !InRange(b[0], a[0].hi + 1);
      }
      if b[0].hi < MaxChar {
        assert !Contains(a, b[0].hi + 1);
        assert !InRange(a[0], b[0].hi + 1);
      }
      assert a[0] == b[0];
      forall c | 0 <= c <= MaxChar
        ensures Contains(a[1..], c) <==> Contains(b[1..], c)
      {
        AfterFirst(a, c);
        AfterFirst(b, c);
      }
      CanonicalUnique(a[1..], b[1..]);
      assert a == [a[0]] + a[1..] && b == [b[0]] + b[1..];
    }
  }

  /** Building from the same code units in another order gives the same
      set: `[0-9a-z]` and `[a-z0-9]` are equal. */
  lemma NormalizeOrderFree(rs: seq<Range>, ts: seq<Range>)
    requires AllOk(rs) && AllOk(ts)
    requires forall c :: Contains(rs, c) <==> Contains(ts, c)
    ensures Normalize(rs) == Normalize(ts)
  {
    CanonicalUnique(Normalize(rs), Normalize(ts));
  }

  // ---------------------------------------------------------------------
  // Complement.

  /** The gap before the first range, unless it starts at 0. */
  function Lead(rs: seq<Range>): (out: seq<Range>)
    requires Canonical(rs) && |rs| > 0
    ensures Canonical(out) && |out| <= 1
    ensures forall c :: Contains(out, c) <==> 0 <= c < rs[0].lo
  {
    if rs[0].lo != 0 then
      var out := [Range(0, rs[0].lo - 1)];
      forall c ensures Contains(out, c) <==> 0 <= c < rs[0].lo { ContainsSingle(out[0], c); }
      out
    else []
  }

  /** The gap after the last range, unless it ends at `MaxChar`. */
  function Tail(rs: seq<Range>): (out: seq<Range>)
    requires Canonical(rs) && |rs| > 0
    ensures Canonical(out) && |out| <= 1
    ensures forall c :: Contains(out, c) <==> rs[|rs| - 1].hi < c <= MaxChar
  {
    if rs[|rs| - 1].hi != MaxChar then
      var out := [Range(rs[|rs| - 1].hi + 1, MaxChar)];
      forall c ensures Contains(out, c) <==> rs[|rs| - 1].hi < c <= MaxChar { ContainsSingle(out[0], c); }
      out
    else []
  }

  /** The gaps between neighbouring ranges. */
  function Mid(rs: seq<Range>): (out: seq<Range>)
    requires Canonical(rs) && |rs| > 0
    ensures |out| == |rs| - 1
    ensures forall k :: 0 <= k < |out| ==> out[k] == Range(rs[k].hi + 1, rs[k + 1].lo - 1)
  {
    seq(|rs| - 1, k requires 0 <= k < |rs| - 1 => Range(rs[k].hi + 1, rs[k + 1].lo - 1))
  }

  /** The gaps of a non-empty normal list within [0, MaxChar]. */
  function Gaps(rs: seq<Range>): (out: seq<Range>)
    requires Canonical(rs) && |rs| > 0
  {
    Lead(rs) + Mid(rs) + Tail(rs)
  }

  /** `invert` as written: reads the first range, so an empty set throws. */
  function InvertAsWritten(rs: seq<Range>): (r: Result<seq<Range>>)
    requires Canonical(rs)
    ensures r.Ok? <==> |rs| > 0
    ensures r.Ok? ==> r.value == Invert(rs)
  {
    if |rs| == 0 then Err("ArrayIndexOutOfBoundsException") else Ok(Gaps(rs))
  }

  /** `invert` with the empty set's complement, every code unit, added. */
  function Invert(rs: seq<Range>): (out: seq<Range>)
    requires Canonical(rs)
  {
    if |rs| == 0 then All else Gaps(rs)
  }

  lemma Ordered(rs: seq<Range>, i: int, j: int)
    requires Canonical(rs) && 0 <= i <= j < |rs|
    ensures rs[i].lo <= rs[j].lo && rs[i].hi <= rs[j].hi
  {
    if i < j {
      assert rs[i].hi + 1 < rs[j].lo;
    }
  }

  lemma CanonicalConcat(a: seq<Range>, b: seq<Range>)
    requires Canonical(a) && Canonical(b)
    requires |a| > 0 && |b| > 0 ==> a[|a| - 1].hi + 1 < b[0].lo
    ensures Canonical(a + b)
  {
    var ab := a + b;
    forall i | 0 <= i < |ab|
      ensures RangeOk(ab[i])
    {
      if i >= |a| {
        assert ab[i] == b[i - |a|];
      }
    }
    forall i, j | 0 <= i < j < |ab|
      ensures ab[i].hi + 1 < ab[j].lo
    {
      if j < |a| {
      } else if i >= |a| {
        assert ab[i] == b[i - |a|] && ab[j] == b[j - |a|];
      } else {
        Ordered(a, i, |a| - 1);
        Ordered(b, 0, j - |a|);
      }
    }
  }

  lemma MidCanonical(rs: seq<Range>)
    requires Canonical(rs) && |rs| > 0
    ensures Canonical(Mid(rs))
  {
    var m := Mid(rs);
    forall k | 0 <= k < |m|
      ensures RangeOk(m[k])
    {
      assert rs[k].hi + 1 < rs[k + 1].lo;
    }
    forall i, j | 0 <= i < j < |m|
      ensures m[i].hi + 1 < m[j].lo
    {
      Ordered(rs, i + 1, j);
    }
  }

  lemma GapsCanonical(rs: seq<Range>)
    requires Canonical(rs) && |rs| > 0
    ensures Canonical(Gaps(rs))
  {
    LeadMidCanonical(rs);
    CanonicalConcat(Lead(rs) + Mid(rs), Tail(rs));
  }

  /** The gaps before the last range are in order and end before it ends. */
  lemma LeadMidCanonical(rs: seq<Range>)
    requires Canonical(rs) && |rs| > 0
    ensures var lm := Lead(rs) + Mid(rs);
      Canonical(lm) && (|lm| > 0 ==> lm[|lm| - 1].hi < rs[|rs| - 1].hi)
  {
    var lead, mid := Lead(rs), Mid(rs);
    MidCanonical(rs);
    if |lead| > 0 && |mid| > 0 {
      assert lead[0].hi + 1 == rs[0].lo;
      assert rs[0].lo <= rs[0].hi;
    }
    CanonicalConcat(lead, mid);
    var lm := lead + mid;
    if |lm| > 0 {
      if |mid| > 0 {
        assert lm[|lm| - 1] == mid[|mid| - 1];
      } else {
        assert lm[|lm| - 1] == lead[0];
        Ordered(rs, 0, |rs| - 1);
      }
    }
  }

  /** A code unit outside the list and past its first range lies in the gap
      after the last range starting at or before it. */
  lemma {:induction false} FindGap(rs: seq<Range>, c: int) returns (k: int)
    requires Canonical(rs) && |rs| > 0 && rs[0].lo <= c && !Contains(rs, c)
    ensures 0 <= k < |rs| && rs[k].hi < c
    ensures k + 1 == |rs| || c < rs[k + 1].lo
    decreases |rs|
  {
    if !InRange(rs[0], c) && (|rs| == 1 || c < rs[1].lo) {
      return 0;
    }
    assert !InRange(rs[0], c);
    AfterFirst(rs, c);
    assert rs[1..][0] == rs[1];
    k := FindGap(rs[1..], c);
    assert rs[1..][k] == rs[k + 1];
    if k + 1 < |rs[1..]| {
      assert rs[1..][k + 1] == rs[k + 2];
    }
    k := k + 1;
  }

  lemma MidOutside(rs: seq<Range>, c: int)
    requires Canonical(rs) && |rs| > 0 && Contains(Mid(rs), c)
    ensures !Contains(rs, c)
  {
    var mid := Mid(rs);
    var k :| 0 <= k < |mid| && InRange(mid[k], c);
    assert mid[k] == Range(rs[k].hi + 1, rs[k + 1].lo - 1);
    var below, above := rs[k].hi, rs[k + 1].lo;
    assert below < c < above;
    forall j | 0 <= j < |rs|
      ensures !InRange(rs[j], c)
    {
      if j <= k {
        Ordered(rs, j, k);
      } else {
        Ordered(rs, k + 1, j);
      }
    }
  }

  lemma EndsOutside(rs: seq<Range>, c: int)
    requires Canonical(rs) && |rs| > 0
    requires c < rs[0].lo || c > rs[|rs| - 1].hi
    ensures !Contains(rs, c)
  {
    forall j | 0 <= j < |rs|
      ensures !InRange(rs[j], c)
    {
      Ordered(rs, 0, j);
      Ordered(rs, j, |rs| - 1);
    }
  }

  lemma OutsideInGaps(rs: seq<Range>, c: int)
    requires Canonical(rs) && |rs| > 0 && 0 <= c <= MaxChar && !Contains(rs, c)
    ensures Contains(Lead(rs), c) || Contains(Mid(rs), c) || Contains(Tail(rs), c)
  {
    if rs[0].lo <= c {
      var k := FindGap(rs, c);
      if k + 1 < |rs| {
        assert InRange(Mid(rs)[k], c);
      }
    }
  }

  /** `invert` is the complement within [0, MaxChar], in normal form. */
  lemma InvertComplement(rs: seq<Range>)
    requires Canonical(rs)
    ensures Canonical(Invert(rs))
    ensures forall c :: 0 <= c <= MaxChar ==> (Contains(Invert(rs), c) <==> !Contains(rs, c))
  {
    if |rs| == 0 {
      forall c | 0 <= c <= MaxChar
        ensures Contains(Invert(rs), c)
      {
        assert InRange(All[0], c);
      }
    } else {
      GapsCanonical(rs);
      forall c | 0 <= c <= MaxChar
        ensures Contains(Gaps(rs), c) <==> !Contains(rs, c)
      {
        ContainsConcat(Lead(rs) + Mid(rs), Tail(rs), c);
        ContainsConcat(Lead(rs), Mid(rs), c);
        if !Contains(rs, c) {
          OutsideInGaps(rs, c);
        }
        if Contains(Mid(rs), c) {
          MidOutside(rs, c);
        }
        if Contains(Lead(rs), c) || Contains(Tail(rs), c) {
          EndsOutside(rs, c);
        }
      }
    }
  }

  /** Inverting twice gives the set back. */
  lemma InvertTwice(rs: seq<Range>)
    requires Canonical(rs)
    ensures Canonical(Invert(rs)) && Invert(Invert(rs)) == rs
  {
    InvertComplement(rs);
    InvertComplement(Invert(rs));
    CanonicalUnique(Invert(Invert(rs)), rs);
  }

  /** As written, inverting every code unit gives the empty set, and
      inverting that throws. */
  lemma InvertAllTwiceThrows()
    ensures Canonical(All) && InvertAsWritten(All) == Ok([])
    ensures InvertAsWritten([]).Err?
  {
    assert Gaps(All) == [];
  }

  /** `[^bcd]`: everything below `b` and everything above `d`. */
  lemma InvertBcd()
    ensures Canonical([Range('b' as int, 'd' as int)])
    ensures Invert([Range('b' as int, 'd' as int)]) == [Range(0, 'a' as int), Range('e' as int, MaxChar)]
  {
  }

  // ---------------------------------------------------------------------
  // The quicksort's pivot.

  /** A 32-bit two's-complement wrap: `x` moved by multiples of 2^32 into
      [-2^31, 2^31). */
  function Int32(x: int): (r: int)
    ensures -0x8000_0000 <= r < 0x8000_0000
    ensures -0x8000_0000 <= x < 0x8000_0000 ==> r == x
    decreases if x >= 0x8000_0000 then x else if x < -0x8000_0000 then -x else 0
  {
    if x >= 0x8000_0000 then Int32(x - 0x1_0000_0000)
    else if x < -0x8000_0000 then Int32(x + 0x1_0000_0000)
    else x
  }

  /** The sort key: the packed range shifted right by one, unsigned. */
  function SortKey(r: Range): int {
    Pack(r) / 2
  }

  /** The pivot as written: the two keys are added in `int` and the sum
      shifted right arithmetically. */
  function PivotAsWritten(k1: int, k2: int): (p: int)
    ensures -0x8000_0000 <= k1 + k2 < 0x8000_0000 ==> p == Pivot(k1, k2)
    ensures -0x8000_0000 <= p < 0x8000_0000
  {
    Int32(k1 + k2) / 2
  }

  /** The pivot computed without wrapping. */
  function Pivot(k1: int, k2: int): (p: int)
    ensures k1 <= k2 ==> k1 <= p <= k2
    ensures k2 <= k1 ==> k2 <= p <= k1
  {
    (k1 + k2) / 2
  }

  /** The partition's downward scan: from just above `g`, step down while
      the key is above the pivot; stepping below index 0 throws. */
  function ScanDown(keys: seq<int>, g: int, pivot: int): (r: Result<int>)
    requires g <= |keys|
    ensures r.Ok? ==> 0 <= r.value < g && keys[r.value] <= pivot &&
                      forall j :: r.value < j < g ==> keys[j] > pivot
    ensures r.Err? <==> forall j :: 0 <= j < g ==> keys[j] > pivot
    decreases g
  {
    if g <= 0 then Err("ArrayIndexOutOfBoundsException")
    else if keys[g - 1] > pivot then ScanDown(keys, g - 1, pivot)
    else Ok(g - 1)
  }

  /** As written, three Hangul syllables (U+AC00, U+B098, U+B2E4) make the
      pivot negative; the downward scan then passes index 0 and throws. */
  lemma HangulPivotThrows()
    ensures var keys := [SortKey(Range(0xAC00, 0xAC00)), SortKey(Range(0xB098, 0xB098)), SortKey(Range(0xB2E4, 0xB2E4))];
      PivotAsWritten(keys[0], keys[2]) < 0 && ScanDown(keys, 3, PivotAsWritten(keys[0], keys[2])).Err?
  {
    var keys := [SortKey(Range(0xAC00, 0xAC00)), SortKey(Range(0xB098, 0xB098)), SortKey(Range(0xB2E4, 0xB2E4))];
    assert keys[0] == 1442862592 && keys[2] == 1500666226;
    assert Int32(keys[0] + keys[2]) == -1351438478;
  }

  /** With an unwrapped pivot the scan stops inside [low, high]. */
  lemma PivotScanInBounds(keys: seq<int>, low: int, high: int)
    requires 0 <= low < high < |keys|
    ensures var r := ScanDown(keys, high + 1, Pivot(keys[low], keys[high]));
      r.Ok? && low <= r.value <= high
  {
  }
}
