/** Wildcard matching of client identifiers: `*` for any bytes, `?` for one. */
module Glob {
  import opened Text

  const STAR: byte := 42
  const QUESTION: byte := 63

  /** What a pattern means. */
  predicate Matches(p: Bytes, v: Bytes)
    decreases |p|, |v|
  {
    if p == [] then v == []
    else if p[0] == STAR then Matches(p[1..], v) || (v != [] && Matches(p, v[1..]))
    else v != [] && (p[0] == QUESTION || p[0] == v[0]) && Matches(p[1..], v[1..])
  }

  predicate OnlyStars(p: Bytes) {
    forall i :: 0 <= i < |p| ==> p[i] == STAR
  }

  /** The matcher's loop from a given state: cursors into the pattern and the value, and, once a star has
      been passed, that star's position and the place in the value it is currently extended to. */
  predicate Greedy(p: Bytes, v: Bytes, pi: nat, vi: nat, star: Option<nat>, checkpoint: nat)
    requires pi <= |p| && vi <= |v| && checkpoint <= vi
    requires star.Some? ==> star.value < pi
    decreases |v| - checkpoint, |v| - vi + |p| - pi
  {
    if vi == |v| then OnlyStars(p[pi..])
    else if pi < |p| && (p[pi] == QUESTION || p[pi] == v[vi]) then Greedy(p, v, pi + 1, vi + 1, star, checkpoint)
    else if pi < |p| && p[pi] == STAR then Greedy(p, v, pi + 1, vi, Some(pi), vi)
    else if star.Some? then Greedy(p, v, star.value + 1, checkpoint + 1, star, checkpoint + 1)
    else false
  }

  predicate GlobMatches(p: Bytes, v: Bytes) {
    Greedy(p, v, 0, 0, None, 0)
  }

  // ----- Soundness: whatever the bytes of the value -----

  lemma {:induction false} StarsMatchNothing(p: Bytes)
    ensures Matches(p, []) <==> OnlyStars(p)
  {
    if p != [] {
      StarsMatchNothing(p[1..]);
      assert forall i :: 0 <= i < |p[1..]| ==> p[1..][i] == p[i + 1];
      if OnlyStars(p[1..]) && p[0] == STAR {
        forall i | 0 <= i < |p|
          ensures p[i] == STAR
        {
          if i > 0 {
            assert p[i] == p[1..][i - 1];
          }
        }
      }
    }
  }

  /** A star may take over bytes in front of what it matches. */
  lemma {:induction false} StarTakesMore(p: Bytes, v: Bytes, k: nat)
    requires p != [] && p[0] == STAR && k <= |v| && Matches(p, v[k..])
    ensures Matches(p, v)
    decreases |v|
  {
    if k == 0 {
      assert v[0..] == v;
    } else {
      assert v[1..][k - 1..] == v[k..];
      StarTakesMore(p, v[1..], k - 1);
    }
  }

  /** Matching byte for byte is sound even when the byte in the pattern is a star. */
  lemma LiteralStep(p: Bytes, v: Bytes)
    requires p != [] && v != [] && (p[0] == QUESTION || p[0] == v[0])
    requires Matches(p[1..], v[1..])
    ensures Matches(p, v)
  {
  }

  lemma StarExtends(p: Bytes, v: Bytes)
    requires p != [] && p[0] == STAR && v != []
    ensures Matches(p, v[1..]) ==> Matches(p, v)
  {
  }

  lemma StarStep(p: Bytes, v: Bytes)
    requires p != [] && p[0] == STAR
    ensures Matches(p[1..], v) ==> Matches(p, v)
  {
  }

  /** `goal` is whatever follows from a match of the rest, here or from the last star on. */
  lemma {:induction false} GreedyIsSound(
    p: Bytes, v: Bytes, pi: nat, vi: nat, star: Option<nat>, checkpoint: nat, goal: bool)
    requires pi <= |p| && vi <= |v| && checkpoint <= vi
    requires star.Some? ==> star.value < pi && p[star.value] == STAR
    requires Matches(p[pi..], v[vi..]) ==> goal
    requires star.Some? && Matches(p[star.value..], v[checkpoint..]) ==> goal
    ensures Greedy(p, v, pi, vi, star, checkpoint) ==> goal
    decreases |v| - checkpoint, |v| - vi + |p| - pi
  {
    if vi == |v| {
      StarsMatchNothing(p[pi..]);
    } else if pi < |p| && (p[pi] == QUESTION || p[pi] == v[vi]) {
      assert p[pi..][1..] == p[pi + 1..] && v[vi..][1..] == v[vi + 1..];
      if Matches(p[pi + 1..], v[vi + 1..]) {
        LiteralStep(p[pi..], v[vi..]);
      }
      GreedyIsSound(p, v, pi + 1, vi + 1, star, checkpoint, goal);
    } else if pi < |p| && p[pi] == STAR {
      assert p[pi..][1..] == p[pi + 1..];
      if Matches(p[pi + 1..], v[vi..]) {
        StarStep(p[pi..], v[vi..]);
      }
      GreedyIsSound(p, v, pi + 1, vi, Some(pi), vi, goal);
    } else if star.Some? {
      var s := star.value;
      assert p[s..][1..] == p[s + 1..] && v[checkpoint..][1..] == v[checkpoint + 1..];
      if Matches(p[s + 1..], v[checkpoint + 1..]) || Matches(p[s..], v[checkpoint + 1..]) {
        StarStep(p[s..], v[checkpoint + 1..]);
        StarExtends(p[s..], v[checkpoint..]);
      }
      GreedyIsSound(p, v, s + 1, checkpoint + 1, star, checkpoint + 1, goal);
    }
  }

  /** A reported match is a match, for every pattern and value. */
  lemma MatcherIsSound(p: Bytes, v: Bytes)
    ensures GlobMatches(p, v) ==> Matches(p, v)
  {
    assert p[0..] == p && v[0..] == v;
    GreedyIsSound(p, v, 0, 0, None, 0, Matches(p, v));
  }

  // ----- Completeness: values without a star -----

  predicate ByteMatches(b: byte, c: byte) {
    b != STAR && (b == QUESTION || b == c)
  }

  /** The stretch of the pattern from `from` to `pi` has no star and matches the value byte for byte
      from `base` to `vi`. */
  predicate Advanced(p: Bytes, v: Bytes, pi: nat, vi: nat, from: nat, base: nat)
    requires pi <= |p| && vi <= |v|
  {
    && from <= pi && base <= vi && vi - base == pi - from
    && forall j :: from <= j < pi ==> ByteMatches(p[j], v[base + (j - from)])
  }

  lemma AdvanceOne(p: Bytes, v: Bytes, pi: nat, vi: nat, from: nat, base: nat)
    requires pi < |p| && vi < |v| && Advanced(p, v, pi, vi, from, base) && ByteMatches(p[pi], v[vi])
    ensures Advanced(p, v, pi + 1, vi + 1, from, base)
  {
  }

  lemma AdvancedAtStart(p: Bytes, v: Bytes, from: nat, base: nat)
    requires from <= |p| && base <= |v|
    ensures Advanced(p, v, from, base, from, base)
  {
  }

  /** What a star matches, its rest matches somewhere further on. */
  lemma {:induction false} StarMatchesLater(p: Bytes, v: Bytes) returns (k: nat)
    requires p != [] && p[0] == STAR && Matches(p, v)
    ensures k <= |v| && Matches(p[1..], v[k..])
    decreases |v|
  {
    if Matches(p[1..], v) {
      assert v[0..] == v;
      k := 0;
    } else {
      var j := StarMatchesLater(p, v[1..]);
      assert v[1..][j..] == v[j + 1..];
      k := j + 1;
    }
  }

  /** A star-free stretch consumes as many bytes as it is long, wherever it matches. */
  lemma {:induction false} StretchConsumes(p: Bytes, n: nat, v: Bytes)
    requires n <= |p| && forall i :: 0 <= i < n ==> p[i] != STAR
    requires Matches(p, v)
    ensures n <= |v| && Matches(p[n..], v[n..])
    decreases n
  {
    if n == 0 {
      assert p[0..] == p && v[0..] == v;
    } else {
      assert p[1..][n - 1..] == p[n..];
      StretchConsumes(p[1..], n - 1, v[1..]);
      assert v[1..][n - 1..] == v[n..];
    }
  }

  lemma StretchMatches(p: Bytes, v: Bytes, pi: nat, from: nat, base: nat)
    requires from <= pi <= |p| && base <= |v|
    requires forall j :: from <= j < pi ==> p[j] != STAR
    requires Matches(p[from..], v[base..])
    ensures base + (pi - from) <= |v| && Matches(p[pi..], v[base + (pi - from)..])
  {
    var n := pi - from;
    StretchConsumes(p[from..], n, v[base..]);
    assert p[from..][n..] == p[pi..] && v[base..][n..] == v[base + n..];
  }

  /** If the star at `s` can match from `checkpoint` on, the pattern can be continued after the advanced
      stretch, at `vi` or some bytes later. */
  lemma StretchAfterStar(p: Bytes, v: Bytes, pi: nat, vi: nat, s: nat, checkpoint: nat) returns (j: nat)
    requires s < pi <= |p| && checkpoint <= vi <= |v| && p[s] == STAR
    requires Advanced(p, v, pi, vi, s + 1, checkpoint)
    requires Matches(p[s..], v[checkpoint..])
    ensures vi + j <= |v| && Matches(p[pi..], v[vi + j..])
  {
    j := StarMatchesLater(p[s..], v[checkpoint..]);
    assert p[s..][1..] == p[s + 1..] && v[checkpoint..][j..] == v[checkpoint + j..];
    StretchMatches(p, v, pi, s + 1, checkpoint + j);
  }

  /** When the value is used up, a match leaves only stars in the pattern. */
  lemma AtTheEnd(p: Bytes, v: Bytes, pi: nat, star: Option<nat>, checkpoint: nat)
    requires pi <= |p| && checkpoint <= |v|
    requires star.None? ==> Matches(p[pi..], v[|v|..])
    requires star.Some? ==> star.value < pi && p[star.value] == STAR && Matches(p[star.value..], v[checkpoint..])
    requires star.Some? ==> Advanced(p, v, pi, |v|, star.value + 1, checkpoint)
    ensures OnlyStars(p[pi..])
  {
    if star.Some? {
      var j := StretchAfterStar(p, v, pi, |v|, star.value, checkpoint);
    }
    StarsMatchNothing(p[pi..]);
  }

  /** Meeting the next star, the current extension of the last one need not be revisited. */
  lemma Commit(p: Bytes, v: Bytes, pi: nat, vi: nat, s: nat, checkpoint: nat)
    requires s < pi < |p| && checkpoint <= vi <= |v| && p[s] == STAR && p[pi] == STAR
    requires Advanced(p, v, pi, vi, s + 1, checkpoint)
    requires Matches(p[s..], v[checkpoint..])
    ensures Matches(p[pi..], v[vi..])
  {
    var j := StretchAfterStar(p, v, pi, vi, s, checkpoint);
    assert v[vi..][j..] == v[vi + j..];
    StarTakesMore(p[pi..], v[vi..], j);
  }

  /** At a mismatch the last star has to take one byte more. */
  lemma Extend(p: Bytes, v: Bytes, pi: nat, vi: nat, s: nat, checkpoint: nat)
    requires s < pi <= |p| && checkpoint <= vi < |v| && p[s] == STAR
    requires Advanced(p, v, pi, vi, s + 1, checkpoint)
    requires !Matches(p[pi..], v[vi..]) && Matches(p[s..], v[checkpoint..])
    ensures Matches(p[s..], v[checkpoint + 1..])
  {
    assert p[s..][1..] == p[s + 1..] && v[checkpoint..][1..] == v[checkpoint + 1..];
    if Matches(p[s + 1..], v[checkpoint..]) {
      StretchMatches(p, v, pi, s + 1, checkpoint);
      assert false;
    }
  }

  lemma Mismatch(p: Bytes, v: Bytes, pi: nat, vi: nat)
    requires pi <= |p| && vi < |v|
    requires pi < |p| ==> p[pi] != QUESTION && p[pi] != v[vi] && p[pi] != STAR
    ensures !Matches(p[pi..], v[vi..])
  {
  }

  lemma {:induction false} GreedyIsComplete(p: Bytes, v: Bytes, pi: nat, vi: nat, star: Option<nat>, checkpoint: nat)
    requires STAR !in v
    requires pi <= |p| && vi <= |v| && checkpoint <= vi
    requires star.Some? ==> star.value < pi && p[star.value] == STAR
    requires star.None? ==> (Matches(p, v) ==> Matches(p[pi..], v[vi..]))
    requires star.Some? ==> (Matches(p, v) ==> Matches(p[star.value..], v[checkpoint..]))
    requires star.Some? ==> Advanced(p, v, pi, vi, star.value + 1, checkpoint)
    ensures Matches(p, v) ==> Greedy(p, v, pi, vi, star, checkpoint)
    decreases |v| - checkpoint, |v| - vi + |p| - pi
  {
    if Matches(p, v) {
      if vi == |v| {
        AtTheEnd(p, v, pi, star, checkpoint);
      } else if pi < |p| && (p[pi] == QUESTION || p[pi] == v[vi]) {
        assert v[vi] in v;
        assert p[pi..][1..] == p[pi + 1..] && v[vi..][1..] == v[vi + 1..];
        if star.Some? {
          AdvanceOne(p, v, pi, vi, star.value + 1, checkpoint);
        }
        GreedyIsComplete(p, v, pi + 1, vi + 1, star, checkpoint);
      } else if pi < |p| && p[pi] == STAR {
        if star.Some? {
          Commit(p, v, pi, vi, star.value, checkpoint);
        }
        AdvancedAtStart(p, v, pi + 1, vi);
        GreedyIsComplete(p, v, pi + 1, vi, Some(pi), vi);
      } else {
        Mismatch(p, v, pi, vi);
        if star.Some? {
          Extend(p, v, pi, vi, star.value, checkpoint);
          AdvancedAtStart(p, v, star.value + 1, checkpoint + 1);
          GreedyIsComplete(p, v, star.value + 1, checkpoint + 1, star, checkpoint + 1);
        }
      }
    }
  }

  lemma MatcherIsComplete(p: Bytes, v: Bytes)
    requires STAR !in v
    ensures Matches(p, v) ==> GlobMatches(p, v)
  {
    assert p[0..] == p && v[0..] == v;
    GreedyIsComplete(p, v, 0, 0, None, 0);
  }

  method RunGlob(p: Bytes, v: Bytes) returns (matched: bool)
    ensures matched == GlobMatches(p, v)
    ensures matched ==> Matches(p, v)
    ensures STAR !in v ==> matched == Matches(p, v)
  {
    MatcherIsSound(p, v);
    if STAR !in v {
      MatcherIsComplete(p, v);
    }
    var pi: nat, vi: nat, checkpoint: nat := 0, 0, 0;
    var star: Option<nat> := None;
    while vi < |v|
      invariant pi <= |p| && vi <= |v| && checkpoint <= vi
      invariant star.Some? ==> star.value < pi
      invariant Greedy(p, v, pi, vi, star, checkpoint) == GlobMatches(p, v)
      decreases |v| - checkpoint, |v| - vi + |p| - pi
    {
      if pi < |p| && (p[pi] == QUESTION || p[pi] == v[vi]) {
        pi := pi + 1;
        vi := vi + 1;
      } else if pi < |p| && p[pi] == STAR {
        star := Some(pi);
        pi := pi + 1;
        checkpoint := vi;
      } else if star.Some? {
        pi := star.value + 1;
        checkpoint := checkpoint + 1;
        vi := checkpoint;
      } else {
        return false;
      }
    }
    ghost var start: nat := pi;
    while pi < |p| && p[pi] == STAR
      invariant start <= pi <= |p|
      invariant forall j :: start <= j < pi ==> p[j] == STAR
    {
      pi := pi + 1;
    }
    assert pi < |p| ==> p[start..][pi - start] == p[pi];
    matched := pi == |p|;
  }

  // ----- Exactly when the matcher is right -----

  lemma {:induction false} LiteralRun(p: Bytes, v: Bytes, k: nat, pi: nat)
    requires pi <= k <= |p| && k <= |v| && p[..k] == v[..k]
    ensures Greedy(p, v, pi, pi, None, 0) == Greedy(p, v, k, k, None, 0)
    decreases k - pi
  {
    if pi < k {
      assert p[pi] == p[..k][pi] == v[..k][pi] == v[pi];
      LiteralRun(p, v, k, pi + 1);
    }
  }

  lemma {:induction false} PrefixMatches(x: Bytes, p: Bytes, v: Bytes)
    requires STAR !in x && Matches(p, v)
    ensures Matches(x + p, x + v)
  {
    if x == [] {
      assert x + p == p && x + v == v;
    } else {
      PrefixMatches(x[1..], p, v);
      assert (x + p)[1..] == x[1..] + p && (x + v)[1..] == x[1..] + v;
    }
  }

  lemma {:induction false} FirstStar(v: Bytes, from: nat) returns (k: nat)
    requires from <= |v| && STAR !in v[..from] && STAR in v
    ensures k < |v| && v[k] == STAR && STAR !in v[..k]
    decreases |v| - from
  {
    assert from < |v| by {
      assert v[..|v|] == v;
    }
    if v[from] == STAR {
      k := from;
    } else {
      assert v[..from + 1] == v[..from] + [v[from]];
      k := FirstStar(v, from + 1);
    }
  }

  lemma {:induction false} StarMatchesAll(v: Bytes)
    ensures Matches([STAR], v)
  {
    if v != [] {
      StarMatchesAll(v[1..]);
    }
  }

  /** A value with a star in it has a pattern that means it and is refused: the star in the pattern
      is spent on the star in the value and is never extended. */
  lemma StarInValueIsMissed(v: Bytes) returns (p: Bytes)
    requires STAR in v
    ensures Matches(p, v) && !GlobMatches(p, v)
  {
    var k := FirstStar(v, 0);
    var x, y := v[..k], v[k + 1..];
    assert v == x + ([STAR] + y);
    if y == [] {
      p := x + [STAR, QUESTION];
      assert [STAR, QUESTION][1..] == [QUESTION] && [QUESTION][1..] == [] && [STAR][1..] == [];
      assert Matches([QUESTION], [STAR]);
      assert Matches([STAR, QUESTION], [STAR]);
      PrefixMatches(x, [STAR, QUESTION], [STAR]);
      assert v == x + [STAR];
      LiteralRun(p, v, k + 1, 0);
      assert p[k + 1..][0] == QUESTION;
      assert !OnlyStars(p[k + 1..]);
    } else {
      p := x + [STAR];
      StarMatchesAll([STAR] + y);
      PrefixMatches(x, [STAR], [STAR] + y);
      LiteralRun(p, v, k + 1, 0);
    }
  }

  /** The matcher agrees with the meaning of every pattern on a value exactly when the value has no star. */
  lemma RightExactlyWithoutStars(v: Bytes)
    ensures (forall p :: GlobMatches(p, v) == Matches(p, v)) <==> STAR !in v
  {
    if STAR in v {
      var p := StarInValueIsMissed(v);
    } else {
      forall p
        ensures GlobMatches(p, v) == Matches(p, v)
      {
        MatcherIsSound(p, v);
        MatcherIsComplete(p, v);
      }
    }
  }

  // ----- The same for a pattern -----

  /** Without a star the matcher compares byte by byte, stars in the value included. */
  lemma {:induction false} StarlessIsComplete(p: Bytes, v: Bytes, pi: nat, vi: nat)
    requires STAR !in p && pi <= |p| && vi <= |v|
    ensures Matches(p[pi..], v[vi..]) ==> Greedy(p, v, pi, vi, None, 0)
    decreases |v| - vi
  {
    if vi == |v| {
      assert v[vi..] == [];
      StarsMatchNothing(p[pi..]);
    } else if pi < |p| {
      assert p[pi] in p;
      assert p[pi..][1..] == p[pi + 1..] && v[vi..][1..] == v[vi + 1..];
      StarlessIsComplete(p, v, pi + 1, vi + 1);
    }
  }

  /** How many bytes of the pattern are not stars. */
  function Solid(p: Bytes): nat {
    if p == [] then 0 else (if p[0] == STAR then 0 else 1) + Solid(p[1..])
  }

  /** The shortest match: each star for nothing. */
  function Instance(p: Bytes): Bytes {
    if p == [] then [] else (if p[0] == STAR then [] else [p[0]]) + Instance(p[1..])
  }

  lemma {:induction false} InstanceMatches(p: Bytes)
    ensures Matches(p, Instance(p)) && |Instance(p)| == Solid(p)
  {
    if p != [] {
      InstanceMatches(p[1..]);
      assert if p[0] == STAR then Instance(p) == Instance(p[1..]) else Instance(p)[1..] == Instance(p[1..]);
    }
  }

  lemma {:induction false} MatchIsLongEnough(p: Bytes, v: Bytes)
    requires Matches(p, v)
    ensures |v| >= Solid(p)
    decreases |p|, |v|
  {
    if p != [] {
      if p[0] == STAR && !Matches(p[1..], v) {
        MatchIsLongEnough(p, v[1..]);
      } else if p[0] == STAR {
        MatchIsLongEnough(p[1..], v);
      } else {
        MatchIsLongEnough(p[1..], v[1..]);
      }
    }
  }

  lemma {:induction false} DropStars(stars: Bytes, p: Bytes, v: Bytes)
    requires OnlyStars(stars) && Matches(p, v)
    ensures Matches(stars + p, v)
  {
    if stars == [] {
      assert stars + p == p;
    } else {
      assert (stars + p)[1..] == stars[1..] + p;
      DropStars(stars[1..], p, v);
    }
  }

  /** A run of stars takes over anything in front of what follows it. */
  lemma StarsTake(stars: Bytes, p: Bytes, u: Bytes, v: Bytes)
    requires stars != [] && OnlyStars(stars) && Matches(p, v)
    ensures Matches(stars + p, u + v)
  {
    DropStars(stars, p, v);
    assert (u + v)[|u|..] == v;
    StarTakesMore(stars + p, u + v, |u|);
  }

  lemma {:induction false} StarRun(p: Bytes) returns (n: nat)
    ensures n <= |p| && OnlyStars(p[..n]) && (n < |p| ==> p[n] != STAR)
  {
    if p == [] || p[0] != STAR {
      n := 0;
    } else {
      var m := StarRun(p[1..]);
      n := m + 1;
      assert p[..n] == [STAR] + p[1..][..m];
    }
  }

  /** What the value goes on with after the copied stars: something the rest of the pattern only matches when
      the stars before it match more than their copies. */
  function Continuation(rest: Bytes): Bytes {
    if rest == [] then [QUESTION]
    else if rest[0] == QUESTION then Instance(rest[1..])
    else [if rest[0] == 0 then 1 else 0] + Instance(rest)
  }

  lemma ContinuationMatches(stars: Bytes, rest: Bytes)
    requires stars != [] && OnlyStars(stars) && (rest != [] ==> rest[0] != STAR)
    ensures Matches(stars + rest, stars + Continuation(rest))
  {
    if rest == [] {
      StarsTake(stars, [], stars + [QUESTION], []);
      assert stars + [] == stars && stars + [QUESTION] + [] == stars + [QUESTION];
    } else if rest[0] == QUESTION {
      var front, one := stars[..|stars| - 1], [STAR] + Instance(rest[1..]);
      InstanceMatches(rest[1..]);
      assert one[1..] == Instance(rest[1..]);
      StarsTake(stars, rest, front, one);
      assert front + one == stars + Instance(rest[1..]);
    } else {
      var d: Bytes := [if rest[0] == 0 then 1 else 0];
      InstanceMatches(rest);
      StarsTake(stars, rest, stars + d, Instance(rest));
      Regroup(stars, d, Instance(rest));
    }
  }

  lemma ContinuationIsMissed(p: Bytes, v: Bytes, n: nat)
    requires n <= |p| && n <= |v| && v[n..] == Continuation(p[n..])
    requires n < |p| ==> p[n] != STAR
    ensures !Greedy(p, v, n, n, None, 0)
  {
    var rest := p[n..];
    if rest == [] {
      assert v[n..][0] == QUESTION;
    } else if rest[0] == QUESTION {
      InstanceMatches(rest[1..]);
      if Matches(rest, v[n..]) {
        MatchIsLongEnough(rest, v[n..]);
      }
      GreedyIsSound(p, v, n, n, None, 0, false);
    } else {
      assert v[n] == v[n..][0] != p[n];
    }
  }

  lemma MissedAfter(x: Bytes, stars: Bytes, rest: Bytes)
    requires STAR !in x && stars != [] && OnlyStars(stars) && (rest != [] ==> rest[0] != STAR)
    ensures var p, v := x + (stars + rest), x + (stars + Continuation(rest));
            Matches(p, v) && !GlobMatches(p, v)
  {
    var p, v, n := x + (stars + rest), x + (stars + Continuation(rest)), |x| + |stars|;
    ContinuationMatches(stars, rest);
    PrefixMatches(x, stars + rest, stars + Continuation(rest));
    Regroup(x, stars, rest);
    Regroup(x, stars, Continuation(rest));
    assert p[..n] == x + stars == v[..n];
    assert p[n..] == rest && v[n..] == Continuation(rest);
    LiteralRun(p, v, n, 0);
    ContinuationIsMissed(p, v, n);
  }

  /** A pattern with a star in it misses a value that it means: its first stars are spent on their own copies
      in the value and are never extended. */
  lemma StarInPatternMisses(p: Bytes) returns (v: Bytes)
    requires STAR in p
    ensures Matches(p, v) && !GlobMatches(p, v)
  {
    var k := FirstStar(p, 0);
    var n := StarRun(p[k..]);
    var x, stars, rest := p[..k], p[k..][..n], p[k..][n..];
    assert p == x + (stars + rest) && p[k..][0] == STAR;
    v := x + (stars + Continuation(rest));
    MissedAfter(x, stars, rest);
  }

  /** The matcher agrees with the meaning of a pattern on every value exactly when the pattern has no star. */
  lemma RightExactlyForStarlessPatterns(p: Bytes)
    ensures (forall v :: GlobMatches(p, v) == Matches(p, v)) <==> STAR !in p
  {
    if STAR in p {
      var v := StarInPatternMisses(p);
    } else {
      forall v
        ensures GlobMatches(p, v) == Matches(p, v)
      {
        MatcherIsSound(p, v);
        assert p[0..] == p && v[0..] == v;
        StarlessIsComplete(p, v, 0, 0);
      }
    }
  }
}
