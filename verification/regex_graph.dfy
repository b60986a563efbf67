/** The NFA graphs `RegexParser` builds. Each graph is a subgraph whose
    nodes are numbered from 0 to `nodeCount() - 1`; node `n` has
    `getExitCount(n)` exits, exit `e` leads to node `getExitPeer(n, e)`
    reading `getTransitionChar(n, e)` (nothing for a lambda edge), and a
    peer equal to `nodeCount()` leaves the subgraph. A composite graph
    numbers the nodes of its parts consecutively and shifts their peers. */
module RegexGraphs {
  import opened CharSets

  /** What an exit reads: nothing (`NFAGraph.LAMBDA`, a Java `null`) or
      one code unit of a set. */
  datatype Trans = Lambda | Chars(cs: set<int>)

  /** `SimpleTransition`, `RegexRepetition` (`{n}`), `RegexLoop` (`*` when
      zero repetitions are allowed, `+` otherwise), `RegexSequence`,
      `RegexOption` and `RegexGroup`. */
  datatype Graph =
    | Simple(trans: Trans)
    | Repeat(count: nat, content: Graph)
    | Loop(zeroAllowed: bool, content: Graph)
    | Sequence(parts: seq<Graph>)
    | Choice(parts: seq<Graph>)
    | Group(id: int, content: Graph)

  /** `nodeCount()`. */
  function NodeCount(g: Graph): nat
    decreases g, 1
  {
    match g
    case Simple(_) => 1
    case Repeat(n, c) => n * NodeCount(c)
    case Loop(_, c) => 1 + NodeCount(c)
    case Sequence(parts) => Total(parts)
    case Choice(parts) => 1 + Total(parts)
    case Group(_, c) => 2 + NodeCount(c)
  }

  /** The nodes of a list of parts laid end to end. */
  function Total(parts: seq<Graph>): nat
    decreases parts, 0
  {
    if |parts| == 0 then 0 else Total(parts[..|parts| - 1]) + NodeCount(parts[|parts| - 1])
  }

  /** `getGroupCount()`: the groups inside a graph. A `{n}` repetition
      counts its content's groups once. */
  function GroupCount(g: Graph): nat
    decreases g, 1
  {
    match g
    case Simple(_) => 0
    case Repeat(_, c) => GroupCount(c)
    case Loop(_, c) => GroupCount(c)
    case Sequence(parts) => GroupSum(parts)
    case Choice(parts) => GroupSum(parts)
    case Group(_, c) => 1 + GroupCount(c)
  }

  function GroupSum(parts: seq<Graph>): nat
    decreases parts, 0
  {
    if |parts| == 0 then 0 else GroupSum(parts[..|parts| - 1]) + GroupCount(parts[|parts| - 1])
  }

  lemma GroupSumSnoc(parts: seq<Graph>, g: Graph)
    ensures GroupSum(parts + [g]) == GroupSum(parts) + GroupCount(g)
  {
    assert (parts + [g])[..|parts|] == parts;
  }

  lemma TotalSnoc(parts: seq<Graph>, j: int)
    requires 0 <= j < |parts|
    ensures Total(parts[..j + 1]) == Total(parts[..j]) + NodeCount(parts[j])
  {
    assert parts[..j + 1][..j] == parts[..j];
  }

  /** The nodes before part `j` are among the nodes of the whole list. */
  lemma {:induction false} TotalPrefix(parts: seq<Graph>, j: int)
    requires 0 <= j <= |parts|
    ensures Total(parts[..j]) <= Total(parts)
    decreases |parts| - j
  {
    if j < |parts| {
      TotalSnoc(parts, j);
      TotalPrefix(parts, j + 1);
    } else {
      assert parts[..j] == parts;
    }
  }

  /** Part offsets never decrease. */
  lemma TotalMonotone(parts: seq<Graph>, i: int, j: int)
    requires 0 <= i <= j <= |parts|
    ensures Total(parts[..i]) <= Total(parts[..j])
  {
    TotalPrefix(parts[..j], i);
    assert parts[..j][..i] == parts[..i];
  }

  /** The part holding node `n` of parts laid end to end: the last part
      whose offset is at most `n` (parts without nodes are skipped). */
  function Locate(parts: seq<Graph>, n: int): (k: nat)
    requires 0 <= n < Total(parts)
    ensures k < |parts| && Total(parts[..k]) <= n < Total(parts[..k]) + NodeCount(parts[k])
    ensures forall j :: k < j < |parts| ==> n < Total(parts[..j])
    decreases |parts|
  {
    var m := |parts| - 1;
    if n >= Total(parts[..m]) then m
    else
      var k := Locate(parts[..m], n);
      assert parts[..m][..k] == parts[..k];
      assert forall j :: k < j < m ==> parts[..m][..j] == parts[..j];
      k
  }

  /** The offsets of the parts: `subgraphOffsets`. */
  function Offsets(parts: seq<Graph>): (offs: seq<int>)
    ensures |offs| == |parts|
  {
    seq(|parts|, i requires 0 <= i < |parts| => Total(parts[..i]))
  }

  /** The loop node of a `RegexLoop`: in front of the content when zero
      repetitions are allowed, behind it otherwise. */
  function LoopNode(zeroAllowed: bool, c: Graph): nat {
    if zeroAllowed then 0 else NodeCount(c)
  }

  function ContentOffset(zeroAllowed: bool): nat {
    if zeroAllowed then 1 else 0
  }

  predicate IsNode(g: Graph, n: int) {
    0 <= n < NodeCount(g)
  }

  /** The content of a `{n}` repetition has nodes whenever the repetition
      has, and block `n / c` of it starts at `n - n % c`. */
  lemma BlockBounds(n: int, count: nat, c: nat)
    requires 0 <= n < count * c
    ensures c > 0 && 0 <= n - n % c && n - n % c + c <= count * c
  {
    assert c != 0;
    var d := n / c;
    assert n == c * d + n % c;
    assert c * d < c * count;
    assert d < count;
    assert c * d + c == c * (d + 1) <= c * count;
  }

  /** `getExitCount`. */
  function ExitCount(g: Graph, n: int): nat
    requires IsNode(g, n)
    decreases g
  {
    match g
    case Simple(_) => 1
    case Repeat(count, c) =>
      BlockBounds(n, count, NodeCount(c));
      ExitCount(c, n % NodeCount(c))
    case Loop(z, c) => if n == LoopNode(z, c) then 2 else ExitCount(c, n - ContentOffset(z))
    case Sequence(parts) =>
      var k := Locate(parts, n);
      ExitCount(parts[k], n - Total(parts[..k]))
    case Choice(parts) =>
      if n == 0 then |parts|
      else
        var k := Locate(parts, n - 1);
        ExitCount(parts[k], n - 1 - Total(parts[..k]))
    case Group(_, c) => if n == 0 || n == 1 + NodeCount(c) then 1 else ExitCount(c, n - 1)
  }

  /** How the end of a loop body and the end of an alternative are wired:
      as the classes do it, or as the constructs mean. */
  datatype Wiring = AsWritten | Corrected

  /** `getExitPeer`. As written, the end of the body of a `*` loop leaves
      the loop instead of going back to the loop node, and the end of every
      alternative but the last runs into the next alternative instead of
      leaving the choice; `Corrected` wires both as the constructs mean.
      Either way, every peer is a node of the graph or its exit. */
  function ExitPeer(g: Graph, n: int, e: int, w: Wiring): (q: int)
    requires IsNode(g, n) && 0 <= e < ExitCount(g, n)
    ensures 0 <= q <= NodeCount(g)
    decreases g, 1
  {
    match g
    case Simple(_) => 1
    case Repeat(count, c) => RepeatPeer(count, c, n, e, w)
    case Loop(z, c) => LoopPeer(z, c, n, e, w)
    case Sequence(parts) => SequencePeer(parts, n, e, w)
    case Choice(parts) => ChoicePeer(parts, n, e, w)
    case Group(_, c) =>
      if n == 0 || n == 1 + NodeCount(c) then n + 1 else ExitPeer(c, n - 1, e, w) + 1
  }

  /** Block `n / c` of a `{n}` repetition ends where block `n / c + 1`
      starts. */
  function RepeatPeer(count: nat, c: Graph, n: int, e: int, w: Wiring): (q: int)
    requires IsNode(Repeat(count, c), n) && 0 <= e < ExitCount(Repeat(count, c), n)
    ensures 0 <= q <= count * NodeCount(c)
    decreases c, 2
  {
    BlockBounds(n, count, NodeCount(c));
    var local := n % NodeCount(c);
    ExitPeer(c, local, e, w) + (n - local)
  }

  /** The loop node's exits enter the body and leave the loop; the end of
      the body of a `+` loop comes back to the loop node behind it. */
  function LoopPeer(z: bool, c: Graph, n: int, e: int, w: Wiring): (q: int)
    requires IsNode(Loop(z, c), n) && 0 <= e < ExitCount(Loop(z, c), n)
    ensures 0 <= q <= 1 + NodeCount(c)
    decreases c, 2
  {
    if n == LoopNode(z, c) then (if e == 0 then ContentOffset(z) else 1 + NodeCount(c))
    else
      var q := ExitPeer(c, n - ContentOffset(z), e, w);
      if w == Corrected && z && q == NodeCount(c) then LoopNode(z, c) else q + ContentOffset(z)
  }

  /** The end of each part runs into the next part. */
  function SequencePeer(parts: seq<Graph>, n: int, e: int, w: Wiring): (q: int)
    requires IsNode(Sequence(parts), n) && 0 <= e < ExitCount(Sequence(parts), n)
    ensures 0 <= q <= Total(parts)
    decreases parts, 0
  {
    var k := Locate(parts, n);
    TotalSnoc(parts, k);
    TotalPrefix(parts, k + 1);
    ExitPeer(parts[k], n - Total(parts[..k]), e, w) + Total(parts[..k])
  }

  /** The branching node's exit `e` enters alternative `e`. */
  function ChoicePeer(parts: seq<Graph>, n: int, e: int, w: Wiring): (q: int)
    requires IsNode(Choice(parts), n) && 0 <= e < ExitCount(Choice(parts), n)
    ensures 0 <= q <= 1 + Total(parts)
    decreases parts, 0
  {
    if n == 0 then
      TotalPrefix(parts, e);
      Total(parts[..e]) + 1
    else
      var k := Locate(parts, n - 1);
      TotalSnoc(parts, k);
      TotalPrefix(parts, k + 1);
      var q := ExitPeer(parts[k], n - 1 - Total(parts[..k]), e, w);
      if w == Corrected && q == NodeCount(parts[k]) then Total(parts) + 1 else q + Total(parts[..k]) + 1
  }

  /** `getTransitionChar`: loop nodes, the branching node of a choice and
      the two ends of a group move on lambda edges. */
  function TransitionChar(g: Graph, n: int, e: int): Trans
    requires IsNode(g, n) && 0 <= e < ExitCount(g, n)
    decreases g
  {
    match g
    case Simple(t) => t
    case Repeat(count, c) =>
      BlockBounds(n, count, NodeCount(c));
      TransitionChar(c, n % NodeCount(c), e)
    case Loop(z, c) => if n == LoopNode(z, c) then Lambda else TransitionChar(c, n - ContentOffset(z), e)
    case Sequence(parts) =>
      var k := Locate(parts, n);
      TransitionChar(parts[k], n - Total(parts[..k]), e)
    case Choice(parts) =>
      if n == 0 then Lambda
      else
        var k := Locate(parts, n - 1);
        TransitionChar(parts[k], n - 1 - Total(parts[..k]), e)
    case Group(_, c) => if n == 0 || n == 1 + NodeCount(c) then Lambda else TransitionChar(c, n - 1, e)
  }

  /** `getGroupCode`: the start node of a group reports a positive code
      and its end node the negated code; other nodes report 0, "no
      group". As written the codes are the group's id and its negation,
      so the first group, whose id is 0, reports 0 at both ends;
      `Corrected` uses the encoding of `GroupOps`: `id + 1` and `~id`. */
  function GroupCode(g: Graph, n: int, w: Wiring): int
    requires IsNode(g, n)
    decreases g
  {
    match g
    case Simple(_) => 0
    case Repeat(count, c) =>
      BlockBounds(n, count, NodeCount(c));
      GroupCode(c, n % NodeCount(c), w)
    case Loop(z, c) => if n == LoopNode(z, c) then 0 else GroupCode(c, n - ContentOffset(z), w)
    case Sequence(parts) =>
      var k := Locate(parts, n);
      GroupCode(parts[k], n - Total(parts[..k]), w)
    case Choice(parts) =>
      if n == 0 then 0
      else
        var k := Locate(parts, n - 1);
        GroupCode(parts[k], n - 1 - Total(parts[..k]), w)
    case Group(id, c) =>
      if n == 0 then (if w == Corrected then id + 1 else id)
      else if n == 1 + NodeCount(c) then (if w == Corrected then -id - 1 else -id)
      else GroupCode(c, n - 1, w)
  }

  /** With the `GroupOps` encoding every group, the first included, marks
      its two ends with nonzero codes that name it. */
  lemma GroupEndsMarked(id: nat, c: Graph)
    ensures var g := Group(id, c);
      GroupCode(g, 0, Corrected) > 0 && GroupCode(g, 1 + NodeCount(c), Corrected) < 0 &&
      GroupCode(g, 0, Corrected) - 1 == id && -GroupCode(g, 1 + NodeCount(c), Corrected) - 1 == id
  {
  }

  /** As written, the ends of group 0 report "no group". */
  lemma FirstGroupUnmarked(c: Graph)
    ensures GroupCode(Group(0, c), 0, AsWritten) == 0
    ensures GroupCode(Group(0, c), 1 + NodeCount(c), AsWritten) == 0
  {
  }

  /** Every `{n}` repetition inside the graph repeats at least once. */
  predicate PositiveRepeats(g: Graph)
    decreases g
  {
    match g
    case Simple(_) => true
    case Repeat(n, c) => n > 0 && PositiveRepeats(c)
    case Loop(_, c) => PositiveRepeats(c)
    case Sequence(parts) => forall i :: 0 <= i < |parts| ==> PositiveRepeats(parts[i])
    case Choice(parts) => forall i :: 0 <= i < |parts| ==> PositiveRepeats(parts[i])
    case Group(_, c) => PositiveRepeats(c)
  }

  /** Each group brings its own start and end node, so a graph in which no
      repetition is empty has at least two nodes per group it counts. */
  lemma {:induction false} NodesCoverGroups(g: Graph)
    requires PositiveRepeats(g)
    ensures NodeCount(g) >= 2 * GroupCount(g)
    decreases g, 1
  {
    match g
    case Simple(_) =>
    case Repeat(n, c) =>
      NodesCoverGroups(c);
      assert n * NodeCount(c) >= NodeCount(c);
    case Loop(_, c) => NodesCoverGroups(c);
    case Sequence(parts) => PartsCoverGroups(parts);
    case Choice(parts) => PartsCoverGroups(parts);
    case Group(_, c) => NodesCoverGroups(c);
  }

  lemma {:induction false} PartsCoverGroups(parts: seq<Graph>)
    requires forall i :: 0 <= i < |parts| ==> PositiveRepeats(parts[i])
    ensures Total(parts) >= 2 * GroupSum(parts)
    decreases parts, 0
  {
    if |parts| > 0 {
      PartsCoverGroups(parts[..|parts| - 1]);
      NodesCoverGroups(parts[|parts| - 1]);
    }
  }

  /** A part's groups are among the groups of the parts. */
  lemma {:induction false} GroupSumPart(parts: seq<Graph>, k: int)
    requires 0 <= k < |parts|
    ensures GroupCount(parts[k]) <= GroupSum(parts)
    decreases |parts|
  {
    if k < |parts| - 1 {
      GroupSumPart(parts[..|parts| - 1], k);
    }
  }

  /** A node that marks a group end has a single lambda exit and lies in a
      graph that counts a group. */
  lemma {:induction false} GroupNodeShape(g: Graph, n: int, w: Wiring)
    requires IsNode(g, n) && GroupCode(g, n, w) != 0
    ensures ExitCount(g, n) == 1 && TransitionChar(g, n, 0) == Lambda
    ensures GroupCount(g) > 0
    decreases g, 1
  {
    match g
    case Simple(_) =>
    case Repeat(count, c) => GroupNodeRepeat(count, c, n, w);
    case Loop(z, c) => GroupNodeLoop(z, c, n, w);
    case Sequence(parts) => GroupNodeSequence(parts, n, w);
    case Choice(parts) => GroupNodeChoice(parts, n, w);
    case Group(id, c) => GroupNodeGroup(id, c, n, w);
  }

  lemma {:induction false} GroupNodeRepeat(count: nat, c: Graph, n: int, w: Wiring)
    requires IsNode(Repeat(count, c), n) && GroupCode(Repeat(count, c), n, w) != 0
    ensures ExitCount(Repeat(count, c), n) == 1 && TransitionChar(Repeat(count, c), n, 0) == Lambda
    ensures GroupCount(Repeat(count, c)) > 0
    decreases c, 2
  {
    BlockBounds(n, count, NodeCount(c));
    GroupNodeShape(c, n % NodeCount(c), w);
  }

  lemma {:induction false} GroupNodeLoop(z: bool, c: Graph, n: int, w: Wiring)
    requires IsNode(Loop(z, c), n) && GroupCode(Loop(z, c), n, w) != 0
    ensures ExitCount(Loop(z, c), n) == 1 && TransitionChar(Loop(z, c), n, 0) == Lambda
    ensures GroupCount(Loop(z, c)) > 0
    decreases c, 2
  {
    GroupNodeShape(c, n - ContentOffset(z), w);
  }

  lemma {:induction false} GroupNodeSequence(parts: seq<Graph>, n: int, w: Wiring)
    requires IsNode(Sequence(parts), n) && GroupCode(Sequence(parts), n, w) != 0
    ensures ExitCount(Sequence(parts), n) == 1 && TransitionChar(Sequence(parts), n, 0) == Lambda
    ensures GroupCount(Sequence(parts)) > 0
    decreases parts, 0
  {
    var k := Locate(parts, n);
    GroupNodeShape(parts[k], n - Total(parts[..k]), w);
    GroupSumPart(parts, k);
  }

  lemma {:induction false} GroupNodeChoice(parts: seq<Graph>, n: int, w: Wiring)
    requires IsNode(Choice(parts), n) && GroupCode(Choice(parts), n, w) != 0
    ensures ExitCount(Choice(parts), n) == 1 && TransitionChar(Choice(parts), n, 0) == Lambda
    ensures GroupCount(Choice(parts)) > 0
    decreases parts, 0
  {
    var k := Locate(parts, n - 1);
    GroupNodeShape(parts[k], n - 1 - Total(parts[..k]), w);
    GroupSumPart(parts, k);
  }

  lemma {:induction false} GroupNodeGroup(id: int, c: Graph, n: int, w: Wiring)
    requires IsNode(Group(id, c), n) && GroupCode(Group(id, c), n, w) != 0
    ensures ExitCount(Group(id, c), n) == 1 && TransitionChar(Group(id, c), n, 0) == Lambda
    ensures GroupCount(Group(id, c)) > 0
    decreases c, 2
  {
    if n != 0 && n != 1 + NodeCount(c) {
      GroupNodeShape(c, n - 1, w);
    }
  }

  /** A node with other than one exit, a loop node or the branching node
      of a choice, moves on lambda edges only. */
  lemma {:induction false} BranchNodeShape(g: Graph, n: int, e: int)
    requires IsNode(g, n) && 0 <= e < ExitCount(g, n) && ExitCount(g, n) != 1
    ensures TransitionChar(g, n, e) == Lambda
    decreases g, 1
  {
    match g
    case Simple(_) =>
    case Repeat(count, c) => BranchRepeat(count, c, n, e);
    case Loop(z, c) => BranchLoop(z, c, n, e);
    case Sequence(parts) => BranchSequence(parts, n, e);
    case Choice(parts) => BranchChoice(parts, n, e);
    case Group(id, c) => BranchGroup(id, c, n, e);
  }

  lemma {:induction false} BranchRepeat(count: nat, c: Graph, n: int, e: int)
    requires IsNode(Repeat(count, c), n) && 0 <= e < ExitCount(Repeat(count, c), n)
    requires ExitCount(Repeat(count, c), n) != 1
    ensures TransitionChar(Repeat(count, c), n, e) == Lambda
    decreases c, 2
  {
    BlockBounds(n, count, NodeCount(c));
    BranchNodeShape(c, n % NodeCount(c), e);
  }

  lemma {:induction false} BranchLoop(z: bool, c: Graph, n: int, e: int)
    requires IsNode(Loop(z, c), n) && 0 <= e < ExitCount(Loop(z, c), n)
    requires ExitCount(Loop(z, c), n) != 1
    ensures TransitionChar(Loop(z, c), n, e) == Lambda
    decreases c, 2
  {
    if n != LoopNode(z, c) {
      BranchNodeShape(c, n - ContentOffset(z), e);
    }
  }

  lemma {:induction false} BranchSequence(parts: seq<Graph>, n: int, e: int)
    requires IsNode(Sequence(parts), n) && 0 <= e < ExitCount(Sequence(parts), n)
    requires ExitCount(Sequence(parts), n) != 1
    ensures TransitionChar(Sequence(parts), n, e) == Lambda
    decreases parts, 0
  {
    var k := Locate(parts, n);
    BranchNodeShape(parts[k], n - Total(parts[..k]), e);
  }

  lemma {:induction false} BranchChoice(parts: seq<Graph>, n: int, e: int)
    requires IsNode(Choice(parts), n) && 0 <= e < ExitCount(Choice(parts), n)
    requires ExitCount(Choice(parts), n) != 1
    ensures TransitionChar(Choice(parts), n, e) == Lambda
    decreases parts, 0
  {
    if n != 0 {
      var k := Locate(parts, n - 1);
      BranchNodeShape(parts[k], n - 1 - Total(parts[..k]), e);
    }
  }

  lemma {:induction false} BranchGroup(id: int, c: Graph, n: int, e: int)
    requires IsNode(Group(id, c), n) && 0 <= e < ExitCount(Group(id, c), n)
    requires ExitCount(Group(id, c), n) != 1
    ensures TransitionChar(Group(id, c), n, e) == Lambda
    decreases c, 2
  {
    if n != 0 && n != 1 + NodeCount(c) {
      BranchNodeShape(c, n - 1, e);
    }
  }

  // ---------------------------------------------------------------------
  // What a graph matches.

  /** The graph, wired as `w`, can go from node `n` to its exit reading
      exactly `s`, taking at most `fuel` edges. */
  predicate Accepts(g: Graph, w: Wiring, n: int, s: string, fuel: nat)
    requires 0 <= n <= NodeCount(g)
    decreases fuel, 1
  {
    if n == NodeCount(g) then |s| == 0
    else fuel > 0 && exists e :: 0 <= e < ExitCount(g, n) && Takes(g, w, n, e, s, fuel)
  }

  /** Exit `e` of node `n` reads nothing or the first character of `s`,
      and the rest of `s` is accepted from its peer. */
  predicate Takes(g: Graph, w: Wiring, n: int, e: int, s: string, fuel: nat)
    requires IsNode(g, n) && 0 <= e < ExitCount(g, n) && fuel > 0
    decreases fuel, 0
  {
    var q := ExitPeer(g, n, e, w);
    match TransitionChar(g, n, e)
    case Lambda => Accepts(g, w, q, s, fuel - 1)
    case Chars(cs) => |s| > 0 && s[0] as int in cs && Accepts(g, w, q, s[1..], fuel - 1)
  }

  // ---------------------------------------------------------------------
  // Building a sequence and finding a node in it.

  /** The `RegexSequence` constructor: the offset of each part, the total
      node count and the total group count. */
  method BuildSequence(parts: seq<Graph>) returns (offs: seq<int>, totalNodes: int, groupCount: int)
    ensures offs == Offsets(parts)
    ensures totalNodes == Total(parts) && groupCount == GroupSum(parts)
  {
    offs := [];
    totalNodes := 0;
    groupCount := 0;
    var i := 0;
    while i < |parts|
      invariant 0 <= i <= |parts|
      invariant offs == Offsets(parts[..i])
      invariant totalNodes == Total(parts[..i]) && groupCount == GroupSum(parts[..i])
    {
      assert parts[..i + 1] == parts[..i] + [parts[i]];
      GroupSumSnoc(parts[..i], parts[i]);
      TotalSnoc(parts, i);
      assert forall k :: 0 <= k < i ==> parts[..i + 1][..k] == parts[..i][..k];
      offs := offs + [totalNodes];
      totalNodes := totalNodes + NodeCount(parts[i]);
      groupCount := groupCount + GroupCount(parts[i]);
      i := i + 1;
    }
    assert parts[..i] == parts;
  }

  /** `getSubgraphIdx`: a binary search for the last part whose offset is
      at most `nodeId`; it finds the part `Locate` describes. */
  method SubgraphIdx(parts: seq<Graph>, offs: seq<int>, nodeId: int) returns (idx: int)
    requires offs == Offsets(parts) && 0 <= nodeId < Total(parts)
    ensures idx == Locate(parts, nodeId)
  {
    var min, max := 0, |offs| - 1;
    while min < max
      invariant 0 <= min <= max < |offs|
      invariant offs[min] <= nodeId
      invariant forall j :: max < j < |offs| ==> nodeId < offs[j]
      decreases max - min
    {
      var mid := (min + max + 1) / 2;
      if nodeId < offs[mid] {
        forall j | mid <= j < |offs| ensures nodeId < offs[j] {
          TotalMonotone(parts, mid, j);
        }
        max := mid - 1;
      } else {
        min := mid;
      }
    }
    idx := max;
    var k := Locate(parts, nodeId);
    assert offs[idx] == Total(parts[..idx]) && offs[k] == Total(parts[..k]);
  }
}
