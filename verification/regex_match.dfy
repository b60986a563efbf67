/** What the graphs `RegexParser` builds for `*`, `|` and `?` match, wired
    as the classes wire them and as the constructs mean. */
module RegexMatches {
  import opened Wrappers
  import opened CharSets
  import opened RegexGraphs
  import opened RegexParsers
  import RegexSpecs

  // ---------------------------------------------------------------------
  // Fuel.

  /** More edges never hurt: a path within `fuel` edges is within any
      larger budget. */
  lemma {:induction false} AcceptsMonotone(g: Graph, w: Wiring, n: int, s: string, fuel: nat, more: nat)
    requires 0 <= n <= NodeCount(g) && fuel <= more
    requires Accepts(g, w, n, s, fuel)
    ensures Accepts(g, w, n, s, more)
    decreases fuel, 1
  {
    if n < NodeCount(g) {
      var e :| 0 <= e < ExitCount(g, n) && Takes(g, w, n, e, s, fuel);
      TakesMonotone(g, w, n, e, s, fuel, more);
    }
  }

  lemma {:induction false} TakesMonotone(g: Graph, w: Wiring, n: int, e: int, s: string, fuel: nat, more: nat)
    requires IsNode(g, n) && 0 <= e < ExitCount(g, n) && 0 < fuel <= more
    requires Takes(g, w, n, e, s, fuel)
    ensures Takes(g, w, n, e, s, more)
    decreases fuel, 0
  {
    var q := ExitPeer(g, n, e, w);
    if TransitionChar(g, n, e).Lambda? {
      AcceptsMonotone(g, w, q, s, fuel - 1, more - 1);
    } else {
      AcceptsMonotone(g, w, q, s[1..], fuel - 1, more - 1);
    }
  }

  // ---------------------------------------------------------------------
  // `c*`: a loop node 0 in front of the node reading `c`, exit node 2.

  function Star(c: char): Graph {
    Loop(true, Char(c))
  }

  /** `c` repeated `n` times. */
  function Rep(c: char, n: nat): (r: string)
    ensures |r| == n && forall i :: 0 <= i < n ==> r[i] == c
  {
    if n == 0 then [] else [c] + Rep(c, n - 1)
  }

  /** The nodes and edges of `c*`: the loop node enters the body or
      leaves; the body reads `c` and, as written, leaves the loop, where
      it should go back to the loop node. */
  lemma StarShape(c: char, w: Wiring)
    ensures var g := Star(c);
      NodeCount(g) == 2 && ExitCount(g, 0) == 2 && ExitCount(g, 1) == 1 &&
      ExitPeer(g, 0, 0, w) == 1 && ExitPeer(g, 0, 1, w) == 2 &&
      TransitionChar(g, 0, 0) == Lambda && TransitionChar(g, 0, 1) == Lambda &&
      TransitionChar(g, 1, 0) == Chars({c as int}) &&
      ExitPeer(g, 1, 0, w) == (if w == Corrected then 0 else 2)
  {
    var g := Star(c);
    assert NodeCount(Char(c)) == 1;
    assert ExitPeer(Char(c), 0, 0, w) == 1;
    assert ExitPeer(g, 1, 0, w) == LoopPeer(true, Char(c), 1, 0, w);
  }

  /** Wired as meant, `c*` matches any number of `c`s. */
  lemma {:induction false} StarCorrected(c: char, n: nat)
    ensures Accepts(Star(c), Corrected, 0, Rep(c, n), 2 * n + 1)
  {
    var g := Star(c);
    StarShape(c, Corrected);
    var s := Rep(c, n);
    if n == 0 {
      assert Accepts(g, Corrected, 2, s, 0);
      assert Takes(g, Corrected, 0, 1, s, 1);
    } else {
      StarCorrected(c, n - 1);
      assert s[1..] == Rep(c, n - 1);
      assert Takes(g, Corrected, 1, 0, s, 2 * n);
      assert Accepts(g, Corrected, 1, s, 2 * n);
      assert Takes(g, Corrected, 0, 0, s, 2 * n + 1);
    }
  }

  /** Wired as meant, `c*` matches only `c`s. */
  lemma {:induction false} StarOnlyReps(c: char, n: int, s: string, fuel: nat)
    requires 0 <= n <= 2 && Accepts(Star(c), Corrected, n, s, fuel)
    ensures s == Rep(c, |s|)
    decreases fuel
  {
    var g := Star(c);
    StarShape(c, Corrected);
    if n < 2 {
      var e :| 0 <= e < ExitCount(g, n) && Takes(g, Corrected, n, e, s, fuel);
      if n == 0 {
        if e == 0 {
          StarOnlyReps(c, 1, s, fuel - 1);
        } else {
          assert Accepts(g, Corrected, 2, s, fuel - 1);
          assert s == Rep(c, 0);
        }
      } else {
        assert e == 0;
        StarOnlyReps(c, 0, s[1..], fuel - 1);
        assert s == [c] + s[1..];
      }
    }
  }

  /** As written, `c*` matches nothing but the empty string and one `c`:
      the body can never be repeated. */
  lemma StarAsWritten(c: char, s: string, fuel: nat)
    requires fuel >= 2
    ensures Accepts(Star(c), AsWritten, 0, s, fuel) <==> s == [] || s == [c]
  {
    var g := Star(c);
    StarShape(c, AsWritten);
    if Accepts(g, AsWritten, 0, s, fuel) {
      var e :| 0 <= e < 2 && Takes(g, AsWritten, 0, e, s, fuel);
      if e == 0 {
        assert Accepts(g, AsWritten, 1, s, fuel - 1);
        var e1 :| 0 <= e1 < 1 && Takes(g, AsWritten, 1, e1, s, fuel - 1);
        assert e1 == 0;
        assert |s| > 0 && s[0] as int in {c as int};
        assert Accepts(g, AsWritten, 2, s[1..], fuel - 2);
        assert s[0] == c && |s[1..]| == 0;
        assert s == [c];
      } else {
        assert Accepts(g, AsWritten, 2, s, fuel - 1);
      }
    }
    if s == [] {
      assert Takes(g, AsWritten, 0, 1, s, fuel);
    } else if s == [c] {
      assert Accepts(g, AsWritten, 2, s[1..], fuel - 2);
      assert s[0] as int in {c as int};
      assert Takes(g, AsWritten, 1, 0, s, fuel - 1);
      assert Accepts(g, AsWritten, 1, s, fuel - 1);
      assert Takes(g, AsWritten, 0, 0, s, fuel);
      assert Accepts(g, AsWritten, 0, s, fuel);
    }
  }

  /** So, as written, `c*` rejects `cc` whatever the budget, though the
      meant wiring accepts it. */
  lemma StarRepeatLost(c: char, fuel: nat)
    requires fuel >= 5
    ensures !Accepts(Star(c), AsWritten, 0, [c, c], fuel)
    ensures Accepts(Star(c), Corrected, 0, [c, c], fuel)
  {
    StarAsWritten(c, [c, c], fuel);
    StarCorrected(c, 2);
    assert Rep(c, 2) == [c, c];
    AcceptsMonotone(Star(c), Corrected, 0, [c, c], 5, fuel);
  }

  // ---------------------------------------------------------------------
  // `a|b` and `a?`: a branching node 0 and two one-node alternatives.

  function Pair(t1: Trans, t2: Trans): Graph {
    Choice([Simple(t1), Simple(t2)])
  }

  /** `a|b` as `parseExpr` finishes it. */
  function Alt(a: char, b: char): Graph {
    Choice([Char(a), Char(b)])
  }

  /** `a?` as `makeRepetition` builds it. */
  function Opt(a: char): Graph {
    Choice([LambdaEdge, Char(a)])
  }

  /** The two alternatives of a pair take nodes 1 and 2. */
  lemma PairParts(t1: Trans, t2: Trans)
    ensures var parts := [Simple(t1), Simple(t2)];
      Total(parts[..0]) == 0 && Total(parts[..1]) == 1 && Total(parts) == 2 &&
      Locate(parts, 0) == 0 && Locate(parts, 1) == 1
  {
    var parts := [Simple(t1), Simple(t2)];
    assert parts[..0] == [] && parts[..1] == [Simple(t1)] && parts[..2] == parts;
    assert [Simple(t1)][..0] == [];
  }

  /** The branching node enters either alternative on a lambda edge. */
  lemma PairBranch(t1: Trans, t2: Trans, w: Wiring)
    ensures var g := Pair(t1, t2);
      NodeCount(g) == 3 && ExitCount(g, 0) == 2 &&
      ExitPeer(g, 0, 0, w) == 1 && ExitPeer(g, 0, 1, w) == 2 &&
      TransitionChar(g, 0, 0) == Lambda && TransitionChar(g, 0, 1) == Lambda
  {
    PairParts(t1, t2);
  }

  /** The end of the first alternative, as written, runs into the second. */
  lemma PairFirst(t1: Trans, t2: Trans, w: Wiring)
    ensures var g := Pair(t1, t2);
      NodeCount(g) == 3 && ExitCount(g, 1) == 1 && TransitionChar(g, 1, 0) == t1 &&
      ExitPeer(g, 1, 0, w) == (if w == Corrected then 3 else 2)
  {
    PairParts(t1, t2);
    var parts := [Simple(t1), Simple(t2)];
    var g := Pair(t1, t2);
    assert Locate(parts, 0) == 0 && parts[0] == Simple(t1);
    assert ExitCount(g, 1) == ExitCount(Simple(t1), 0);
    assert TransitionChar(g, 1, 0) == TransitionChar(Simple(t1), 0, 0);
    assert ExitPeer(Simple(t1), 0, 0, w) == 1 == NodeCount(Simple(t1));
    assert ExitPeer(g, 1, 0, w) == ChoicePeer(parts, 1, 0, w);
  }

  /** The end of the second alternative leaves the choice. */
  lemma PairSecond(t1: Trans, t2: Trans, w: Wiring)
    ensures var g := Pair(t1, t2);
      NodeCount(g) == 3 && ExitCount(g, 2) == 1 && TransitionChar(g, 2, 0) == t2 &&
      ExitPeer(g, 2, 0, w) == 3
  {
    PairParts(t1, t2);
    var parts := [Simple(t1), Simple(t2)];
    var g := Pair(t1, t2);
    assert Locate(parts, 1) == 1 && parts[1] == Simple(t2);
    assert ExitCount(g, 2) == ExitCount(Simple(t2), 0);
    assert TransitionChar(g, 2, 0) == TransitionChar(Simple(t2), 0, 0);
    assert ExitPeer(Simple(t2), 0, 0, w) == 1 == NodeCount(Simple(t2));
    assert ExitPeer(g, 2, 0, w) == ChoicePeer(parts, 2, 0, w);
  }

  /** From the node of an alternative, the rest of the input is what that
      node reads and, when it runs into the other alternative, what that
      one reads. */
  lemma PairLast(t1: Trans, t2: Trans, w: Wiring, s: string, fuel: nat)
    ensures var g := Pair(t1, t2);
      NodeCount(g) == 3 && (Accepts(g, w, 2, s, fuel) <==> fuel >= 1 && Reads(t2, s, []))
  {
    var g := Pair(t1, t2);
    PairSecond(t1, t2, w);
    if Accepts(g, w, 2, s, fuel) {
      var e :| 0 <= e < 1 && Takes(g, w, 2, e, s, fuel);
      assert e == 0;
      if t2.Chars? {
        assert Accepts(g, w, 3, s[1..], fuel - 1);
        assert s == [s[0]] + s[1..];
      } else {
        assert Accepts(g, w, 3, s, fuel - 1);
      }
    }
    if fuel >= 1 && Reads(t2, s, []) {
      if t2.Chars? {
        assert s[1..] == [];
        assert Accepts(g, w, 3, s[1..], fuel - 1);
      } else {
        assert Accepts(g, w, 3, s, fuel - 1);
      }
      assert Takes(g, w, 2, 0, s, fuel);
    }
  }

  /** `t` reads nothing (a lambda edge) or one character of its set, and
      `rest` follows. */
  predicate Reads(t: Trans, s: string, rest: string) {
    match t
    case Lambda => s == rest
    case Chars(cs) => |s| == |rest| + 1 && s[0] as int in cs && s[1..] == rest
  }

  /** `t1` then `t2` read all of `s`. */
  predicate ReadsTwo(t1: Trans, t2: Trans, s: string) {
    match t1
    case Lambda => Reads(t2, s, [])
    case Chars(cs) => |s| > 0 && s[0] as int in cs && Reads(t2, s[1..], [])
  }

  /** From the node of the first alternative: as meant, what it reads; as
      written, what it reads followed by what the second one reads. */
  lemma PairMiddle(t1: Trans, t2: Trans, w: Wiring, s: string, fuel: nat)
    ensures var g := Pair(t1, t2);
      NodeCount(g) == 3 && (Accepts(g, w, 1, s, fuel) <==>
        fuel >= 1 && (if w == Corrected then Reads(t1, s, []) else fuel >= 2 && ReadsTwo(t1, t2, s)))
  {
    var g := Pair(t1, t2);
    PairFirst(t1, t2, w);
    if fuel >= 1 {
      assert Accepts(g, w, 1, s, fuel) <==> Takes(g, w, 1, 0, s, fuel);
      if t1.Chars? {
        if |s| > 0 {
          PairMiddleRead(t1, t2, w, s, fuel);
        }
      } else if w == AsWritten {
        PairLast(t1, t2, w, s, fuel - 1);
      } else {
        assert Takes(g, w, 1, 0, s, fuel) <==> Accepts(g, w, 3, s, fuel - 1);
      }
    }
  }

  lemma PairMiddleRead(t1: Trans, t2: Trans, w: Wiring, s: string, fuel: nat)
    requires t1.Chars? && |s| > 0 && fuel >= 1
    ensures var g := Pair(t1, t2);
      NodeCount(g) == 3 && ExitCount(g, 1) == 1 &&
      (Takes(g, w, 1, 0, s, fuel) <==>
        s[0] as int in t1.cs &&
        (if w == Corrected then |s| == 1 else fuel >= 2 && Reads(t2, s[1..], [])))
  {
    PairFirst(t1, t2, w);
    if w == AsWritten {
      PairLast(t1, t2, w, s[1..], fuel - 1);
    }
  }

  /** From the branching node: either alternative, the first one, as
      written, only when the second follows it. */
  lemma PairAccepts(t1: Trans, t2: Trans, w: Wiring, s: string, fuel: nat)
    requires fuel >= 3
    ensures Accepts(Pair(t1, t2), w, 0, s, fuel) <==>
      (if w == Corrected then Reads(t1, s, []) else ReadsTwo(t1, t2, s)) || Reads(t2, s, [])
  {
    var g := Pair(t1, t2);
    PairBranch(t1, t2, w);
    PairMiddle(t1, t2, w, s, fuel - 1);
    PairLast(t1, t2, w, s, fuel - 1);
    assert Accepts(g, w, 0, s, fuel) <==> Takes(g, w, 0, 0, s, fuel) || Takes(g, w, 0, 1, s, fuel);
  }

  /** As written, `a|b` matches `ab` and `b` but not `a`. */
  lemma AltAsWritten(a: char, b: char, s: string, fuel: nat)
    requires fuel >= 3
    ensures Accepts(Alt(a, b), AsWritten, 0, s, fuel) <==> s == [a, b] || s == [b]
  {
    PairAccepts(Chars({a as int}), Chars({b as int}), AsWritten, s, fuel);
    if |s| == 2 {
      assert s == [s[0]] + s[1..];
    }
  }

  /** Wired as meant, `a|b` matches `a` or `b`. */
  lemma AltCorrected(a: char, b: char, s: string, fuel: nat)
    requires fuel >= 3
    ensures Accepts(Alt(a, b), Corrected, 0, s, fuel) <==> s == [a] || s == [b]
  {
    PairAccepts(Chars({a as int}), Chars({b as int}), Corrected, s, fuel);
  }

  /** As written, `a?` makes `a` compulsory. */
  lemma OptAsWritten(a: char, s: string, fuel: nat)
    requires fuel >= 3
    ensures Accepts(Opt(a), AsWritten, 0, s, fuel) <==> s == [a]
  {
    PairAccepts(Lambda, Chars({a as int}), AsWritten, s, fuel);
  }

  /** Wired as meant, `a?` matches nothing or `a`. */
  lemma OptCorrected(a: char, s: string, fuel: nat)
    requires fuel >= 3
    ensures Accepts(Opt(a), Corrected, 0, s, fuel) <==> s == [] || s == [a]
  {
    PairAccepts(Lambda, Chars({a as int}), Corrected, s, fuel);
  }

  // ---------------------------------------------------------------------
  // The graphs the parser builds.

  /** `c*` parses as the loop `Star(c)`. */
  lemma ParseStar(c: char)
    requires !NeedEsc(c) && c as int <= MaxChar
    ensures RegexSpecs.Utf16([c, '*'])
    ensures Parse([c, '*']) == Done(Star(c), 3)
  {
    var s := [c, '*'];
    var p := s + ")\0";
    assert p == [c, '*', ')', '\0'];
    assert RegexSpecs.Padded(p);
    assert ExprLoop(p, 2, false, true, [], [Star(c)], 0) == Done((Star(c), 0), 3);
    assert MakeRepetition([Char(c)], ZeroOrGreater) == Some([Star(c)]);
    assert Element(p, 1, false, true, [Char(c)], 0) == Done(([Star(c)], 0), 2);
    assert ExprLoop(p, 1, false, true, [], [Char(c)], 0) == Done((Star(c), 0), 3);
    assert [] + [Char(c)] == [Char(c)];
    assert Element(p, 0, false, true, [], 0) == Done(([Char(c)], 0), 1);
    assert ExprLoop(p, 0, false, true, [], [], 0) == Done((Star(c), 0), 3);
    ParsesAs(s, Star(c), 0);
  }

  /** After `a|`, the loop of `parseExpr` reads `b` and finishes the
      choice. */
  lemma AltSecond(p: string, a: char, b: char)
    requires p == [a, '|', b, ')', '\0'] && !NeedEsc(b) && RegexSpecs.Padded(p)
    ensures ExprLoop(p, 2, false, true, [Char(a)], [], 0) == Done((Alt(a, b), 0), 4)
  {
    assert [Char(a)] + [Char(b)] == [Char(a), Char(b)];
    assert ExprLoop(p, 3, false, true, [Char(a)], [Char(b)], 0) == Done((Alt(a, b), 0), 4);
    assert [] + [Char(b)] == [Char(b)];
    assert Element(p, 2, false, true, [], 0) == Done(([Char(b)], 0), 3);
  }

  /** `a|b` parses as the choice `Alt(a, b)`. */
  lemma ParseAlt(a: char, b: char)
    requires !NeedEsc(a) && !NeedEsc(b) && a as int <= MaxChar && b as int <= MaxChar
    ensures RegexSpecs.Utf16([a, '|', b])
    ensures Parse([a, '|', b]) == Done(Alt(a, b), 4)
  {
    var s := [a, '|', b];
    var p := s + ")\0";
    assert p == [a, '|', b, ')', '\0'];
    assert RegexSpecs.Padded(p);
    AltSecond(p, a, b);
    assert [] + [MakeSequence([Char(a)])] == [Char(a)];
    assert ExprLoop(p, 1, false, true, [], [Char(a)], 0) == Done((Alt(a, b), 0), 4);
    assert [] + [Char(a)] == [Char(a)];
    assert Element(p, 0, false, true, [], 0) == Done(([Char(a)], 0), 1);
    assert ExprLoop(p, 0, false, true, [], [], 0) == Done((Alt(a, b), 0), 4);
    ParsesAs(s, Alt(a, b), 0);
  }

  /** After `a`, the loop of `parseExpr` reads `?` and finishes the
      choice. */
  lemma OptSecond(p: string, a: char)
    requires p == [a, '?', ')', '\0'] && RegexSpecs.Padded(p)
    ensures ExprLoop(p, 1, false, true, [], [Char(a)], 0) == Done((Opt(a), 0), 3)
  {
    assert ExprLoop(p, 2, false, true, [], [Opt(a)], 0) == Done((Opt(a), 0), 3);
    assert [Char(a)][..0] + [Opt(a)] == [Opt(a)];
    assert MakeRepetition([Char(a)], ZeroOrOne) == Some([Opt(a)]);
    assert Element(p, 1, false, true, [Char(a)], 0) == Done(([Opt(a)], 0), 2);
  }

  /** `a?` parses as the choice `Opt(a)`. */
  lemma ParseOpt(a: char)
    requires !NeedEsc(a) && a as int <= MaxChar
    ensures RegexSpecs.Utf16([a, '?'])
    ensures Parse([a, '?']) == Done(Opt(a), 3)
  {
    var s := [a, '?'];
    var p := s + ")\0";
    assert p == [a, '?', ')', '\0'];
    assert RegexSpecs.Padded(p);
    OptSecond(p, a);
    assert [] + [Char(a)] == [Char(a)];
    assert Element(p, 0, false, true, [], 0) == Done(([Char(a)], 0), 1);
    assert ExprLoop(p, 0, false, true, [], [], 0) == Done((Opt(a), 0), 3);
    ParsesAs(s, Opt(a), 0);
  }

  /** `(c)` parses as group 0 around `c`, and as written neither end of
      that group reports a group code; with the `GroupOps` encoding both
      do. */
  lemma ParseFirstGroup(c: char)
    requires !NeedEsc(c) && c as int <= MaxChar
    ensures RegexSpecs.Utf16(['(', c, ')'])
    ensures Parse(['(', c, ')']) == Done(Group(0, Char(c)), 4)
    ensures GroupCode(Group(0, Char(c)), 0, AsWritten) == 0 && GroupCode(Group(0, Char(c)), 2, AsWritten) == 0
    ensures GroupCode(Group(0, Char(c)), 0, Corrected) == 1 && GroupCode(Group(0, Char(c)), 2, Corrected) == -1
  {
    var s := ['(', c, ')'];
    var p := s + ")\0";
    var g := Group(0, Char(c));
    assert p == ['(', c, ')', ')', '\0'];
    assert RegexSpecs.Padded(p);
    assert ExprLoop(p, 2, true, true, [], [Char(c)], 1) == Done((Char(c), 1), 3);
    assert [] + [Char(c)] == [Char(c)];
    assert Element(p, 1, true, true, [], 1) == Done(([Char(c)], 1), 2);
    assert ExprLoop(p, 1, true, true, [], [], 1) == Done((Char(c), 1), 3);
    assert ParseExpr(p, 1, true, true, 1) == Done((Char(c), 1), 3);
    assert [] + [g] == [g];
    assert Element(p, 0, false, true, [], 0) == Done(([g], 1), 3);
    assert ExprLoop(p, 3, false, true, [], [g], 1) == Done((g, 1), 4);
    assert ExprLoop(p, 0, false, true, [], [], 0) == Done((g, 1), 4);
    ParsesAs(s, g, 1);
    assert NodeCount(Char(c)) == 1;
  }

  /** As written, an unmatched `)` after the last element is accepted and
      ignored; counted as extra characters, it is rejected. */
  lemma TrailingParen(c: char)
    requires !NeedEsc(c) && c as int <= MaxChar
    ensures RegexSpecs.Utf16([c, ')'])
    ensures ParseAsWritten([c, ')']) == Done(Char(c), 2)
    ensures Parse([c, ')']) == Fail(ExtraCharacters, 2)
  {
    var s := [c, ')'];
    var p := s + ")\0";
    assert p == [c, ')', ')', '\0'];
    assert RegexSpecs.Padded(p);
    assert ExprLoop(p, 1, false, true, [], [Char(c)], 0) == Done((Char(c), 0), 2);
    assert [] + [Char(c)] == [Char(c)];
    assert Element(p, 0, false, true, [], 0) == Done(([Char(c)], 0), 1);
    assert ExprLoop(p, 0, false, true, [], [], 0) == Done((Char(c), 0), 2);
    assert ParseExpr(p, 0, false, true, 0) == Done((Char(c), 0), 2);
    assert ExprLoop(p, 1, false, false, [], [Char(c)], 0) == Done((Char(c), 0), 2);
    assert Element(p, 0, false, false, [], 0) == Done(([Char(c)], 0), 1);
    assert ExprLoop(p, 0, false, false, [], [], 0) == Done((Char(c), 0), 2);
    assert ParseExpr(p, 0, false, false, 0) == Done((Char(c), 0), 2);
  }
}
