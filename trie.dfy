/**
 * The self-contained "branch" trie of trie.go: an arena of branches
 * addressed by index, the per-branch match, the worklist search over the
 * whole trie with its method-aware selection, and the per-branch recursions
 * up the parent chain (vars, score, pathString).
 *
 * Index 0 is the root, the zero `branch{}`; every other branch was made by
 * addChild and has a parent with a smaller index.
 */
module BranchTrie {
  import opened Common
  import Strings

  const CatchAllMethod := "*"

  /** One trie branch. Handlers are opaque values of type H. */
  datatype Branch<H> = Branch(
    parent: Option<nat>,
    staticChildren: map<string, nat>,
    wildcardChildren: seq<nat>,
    key: string,
    isParam: bool,
    methods: map<string, H>,
    depth: nat,
    priority: real)

  /** The zero branch that the trie creates lazily as its root. */
  function RootBranch<H>(): Branch<H> {
    Branch(None, map[], [], "", false, map[], 0, 0.0)
  }

  /** The weight of a branch in `score`: 2 for a static key, 1 for a parameter. */
  function Weight<H>(b: Branch<H>): real {
    if b.isParam then 1.0 else 2.0
  }

  /** score(): the branch's weight divided by depth+1, plus its parent's priority. */
  function Score<H>(a: seq<Branch<H>>, b: Branch<H>): real
    requires b.parent.Some? ==> b.parent.value < |a|
  {
    Weight(b) / (b.depth + 1) as real + (if b.parent.Some? then a[b.parent.value].priority else 0.0)
  }

  /** `c` is a child of `p` that was made by p.addChild(_, param). */
  ghost predicate ChildOf<H>(a: seq<Branch<H>>, p: nat, c: nat, param: bool) {
    c < |a| && a[c].parent == Some(p) && a[c].isParam == param
  }

  /** What addChild and setHandler keep true of every branch. */
  ghost predicate BranchOK<H>(a: seq<Branch<H>>, i: nat)
    requires i < |a|
  {
    && (if i == 0 then
          a[0].parent == None && a[0].key == "" && a[0].depth == 0 && !a[0].isParam && a[0].priority == 0.0
        else
          && a[i].parent.Some? && a[i].parent.value < i
          && a[i].depth == a[a[i].parent.value].depth + 1
          && a[i].priority == Score(a, a[i]))
    && (forall k | k in a[i].staticChildren :: ChildOf(a, i, a[i].staticChildren[k], false))
    && (forall j | 0 <= j < |a[i].wildcardChildren| :: ChildOf(a, i, a[i].wildcardChildren[j], true))
  }

  ghost predicate WellFormed<H>(a: seq<Branch<H>>) {
    forall i | 0 <= i < |a| :: BranchOK(a, i)
  }

  // ---------------------------------------------------------------------
  // branch.check and branch.match
  // ---------------------------------------------------------------------

  /**
   * check: whether the wildcard branch `b` accepts the piece `input`;
   * `isLast` says it is the last piece of the request.
   */
  predicate Check<H>(b: Branch<H>, input: string, isLast: bool) {
    if isLast && |b.methods| == 0 then false
    else if b.isParam && b.key != "" then true
    else b.key == input
  }

  /**
   * check, as branch.match applies it to a wildcard child of a trie built by
   * addChild: the child always is a parameter, so it accepts any piece when
   * its name is non-empty and only the empty piece when it is empty, except
   * that the last piece never matches a child without handlers.
   */
  lemma WildcardCheck<H>(a: seq<Branch<H>>, p: nat, j: nat, piece: string, isLast: bool)
    requires WellFormed(a) && p < |a| && j < |a[p].wildcardChildren|
    ensures var x := a[p].wildcardChildren[j];
      x < |a| &&
      (Check(a[x], piece, isLast) <==> (!isLast || |a[x].methods| > 0) && (a[x].key != "" || piece == ""))
  {
    assert BranchOK(a, p);
  }

  /** The wildcard children among `ws` that pass check, in slice order. */
  function WildMatches<H>(a: seq<Branch<H>>, ws: seq<nat>, piece: string, isLast: bool): (r: seq<nat>)
    requires forall j | 0 <= j < |ws| :: ws[j] < |a|
    ensures forall j | 0 <= j < |r| :: r[j] < |a| && r[j] in ws
  {
    if ws == [] then []
    else
      var last := ws[|ws| - 1];
      WildMatches(a, ws[..|ws| - 1], piece, isLast) + (if Check(a[last], piece, isLast) then [last] else [])
  }

  /** One step of a walk: `x` is the child of `p` that accepts `piece`. */
  ghost predicate Step<H>(a: seq<Branch<H>>, p: nat, x: nat, piece: string, isLast: bool)
    requires p < |a| && x < |a|
  {
    || (piece in a[p].staticChildren && a[p].staticChildren[piece] == x)
    || (x in a[p].wildcardChildren && Check(a[x], piece, isLast))
  }

  /** The static child for the first piece, if any. */
  function StaticMatch<H>(a: seq<Branch<H>>, b: nat, piece: string): seq<nat>
    requires b < |a|
  {
    if piece in a[b].staticChildren then [a[b].staticChildren[piece]] else []
  }

  /**
   * The branches that branch.match(input) returns: the static child for
   * input[0] first, then every wildcard child that passes check. They are
   * exactly the children that take one step on input[0].
   */
  function MatchSpec<H>(a: seq<Branch<H>>, b: nat, input: seq<string>): (r: seq<nat>)
    requires WellFormed(a) && b < |a|
    ensures forall j | 0 <= j < |r| :: r[j] < |a| && a[r[j]].parent == Some(b) && a[r[j]].depth == a[b].depth + 1
  {
    assert BranchOK(a, b);
    if |input| < 1 then []
    else
      var r := StaticMatch(a, b, input[0]) + WildMatches(a, a[b].wildcardChildren, input[0], |input| == 1);
      assert forall j | 0 <= j < |r| :: r[j] < |a| && a[r[j]].parent == Some(b) && a[r[j]].depth == a[b].depth + 1 by {
        forall j | 0 <= j < |r|
          ensures r[j] < |a| && a[r[j]].parent == Some(b) && a[r[j]].depth == a[b].depth + 1
        {
          assert r[j] in r;
          assert BranchOK(a, r[j]);
        }
      }
      r
  }

  /** A wildcard child is among the matches exactly when it passes check. */
  lemma {:induction false} WildMatchesMembers<H>(a: seq<Branch<H>>, ws: seq<nat>, piece: string, isLast: bool, x: nat)
    requires forall j | 0 <= j < |ws| :: ws[j] < |a|
    requires x < |a|
    ensures x in WildMatches(a, ws, piece, isLast) <==> x in ws && Check(a[x], piece, isLast)
  {
    if ws != [] {
      var pre := ws[..|ws| - 1];
      WildMatchesMembers(a, pre, piece, isLast, x);
      assert ws == pre + [ws[|ws| - 1]];
    }
  }

  /** The children that branch.match returns are exactly those that take one step on input[0]. */
  lemma MatchSpecMembers<H>(a: seq<Branch<H>>, b: nat, input: seq<string>, x: nat)
    requires WellFormed(a) && b < |a| && x < |a|
    ensures x in MatchSpec(a, b, input) <==> |input| >= 1 && Step(a, b, x, input[0], |input| == 1)
  {
    assert BranchOK(a, b);
    if |input| >= 1 {
      WildMatchesMembers(a, a[b].wildcardChildren, input[0], |input| == 1, x);
    }
  }

  /** branch.match: the matching children of `b` and how many pieces they consume. */
  method BranchMatch<H>(a: seq<Branch<H>>, b: nat, input: seq<string>) returns (matches: seq<nat>, inputMatched: nat)
    requires WellFormed(a) && b < |a|
    ensures matches == MatchSpec(a, b, input)
    ensures inputMatched == if matches == [] then 0 else 1
  {
    matches := [];
    if |input| < 1 {
      return matches, 0;
    }
    if input[0] in a[b].staticChildren {
      matches := matches + [a[b].staticChildren[input[0]]];
    }
    assert BranchOK(a, b);
    var ws := a[b].wildcardChildren;
    for i := 0 to |ws|
      invariant matches == StaticMatch(a, b, input[0]) + WildMatches(a, ws[..i], input[0], |input| == 1)
    {
      assert ws[..i + 1][..i] == ws[..i];
      if Check(a[ws[i]], input[0], |input| == 1) {
        matches := matches + [ws[i]];
      }
    }
    assert ws[..|ws|] == ws;
    inputMatched := if |matches| > 0 then 1 else 0;
  }

  // ---------------------------------------------------------------------
  // trie.match, search phase
  // ---------------------------------------------------------------------

  /** An entry of the worklist: a branch and how many pieces the walk to it consumed. */
  datatype Candidate = Candidate(b: nat, matchedPieces: nat)

  /**
   * The leaves that the worklist collects from the candidate (b, mp), in the
   * order it collects them: results that consume the last piece are leaves;
   * the others are pushed, and so explored last-pushed first.
   */
  ghost function Reach<H>(a: seq<Branch<H>>, input: seq<string>, b: nat, mp: nat): (r: seq<nat>)
    requires WellFormed(a) && b < |a| && mp <= |input|
    ensures forall j | 0 <= j < |r| :: r[j] < |a|
    decreases |input| - mp, 1
  {
    var rs := MatchSpec(a, b, input[mp..]);
    if rs == [] then []
    else if mp + 1 >= |input| then rs
    else ReachAll(a, input, rs, mp + 1)
  }

  /** The leaves collected from the results `rs`, pushed in order at `m` matched pieces. */
  ghost function ReachAll<H>(a: seq<Branch<H>>, input: seq<string>, rs: seq<nat>, m: nat): (r: seq<nat>)
    requires WellFormed(a) && m <= |input| && forall j | 0 <= j < |rs| :: rs[j] < |a|
    ensures forall j | 0 <= j < |r| :: r[j] < |a|
    decreases |input| - m + 1, 0, |rs|
  {
    if rs == [] then []
    else Reach(a, input, rs[|rs| - 1], m) + ReachAll(a, input, rs[..|rs| - 1], m)
  }

  /** How many worklist iterations the candidate (b, mp) costs: the size of its search tree. */
  ghost function Work<H>(a: seq<Branch<H>>, input: seq<string>, b: nat, mp: nat): nat
    requires WellFormed(a) && b < |a| && mp <= |input|
    decreases |input| - mp, 1
  {
    var rs := MatchSpec(a, b, input[mp..]);
    if rs == [] || mp + 1 >= |input| then 1
    else 1 + WorkAll(a, input, rs, mp + 1)
  }

  ghost function WorkAll<H>(a: seq<Branch<H>>, input: seq<string>, rs: seq<nat>, m: nat): nat
    requires WellFormed(a) && m <= |input| && forall j | 0 <= j < |rs| :: rs[j] < |a|
    decreases |input| - m + 1, 0, |rs|
  {
    if rs == [] then 0
    else Work(a, input, rs[|rs| - 1], m) + WorkAll(a, input, rs[..|rs| - 1], m)
  }

  ghost predicate ValidStack<H>(a: seq<Branch<H>>, input: seq<string>, cs: seq<Candidate>) {
    forall i | 0 <= i < |cs| :: cs[i].b < |a| && cs[i].matchedPieces <= |input|
  }

  /** The leaves still to come from a worklist, top of the stack first. */
  ghost function StackReach<H>(a: seq<Branch<H>>, input: seq<string>, cs: seq<Candidate>): seq<nat>
    requires WellFormed(a) && ValidStack(a, input, cs)
  {
    if cs == [] then []
    else
      var c := cs[|cs| - 1];
      Reach(a, input, c.b, c.matchedPieces) + StackReach(a, input, cs[..|cs| - 1])
  }

  /** The iterations still to come from a worklist. */
  ghost function StackWork<H>(a: seq<Branch<H>>, input: seq<string>, cs: seq<Candidate>): nat
    requires WellFormed(a) && ValidStack(a, input, cs)
  {
    if cs == [] then 0
    else
      var c := cs[|cs| - 1];
      Work(a, input, c.b, c.matchedPieces) + StackWork(a, input, cs[..|cs| - 1])
  }

  /** The candidates that pushing `rs` at `m` matched pieces adds to the worklist, in push order. */
  ghost function Pending(rs: seq<nat>, m: nat): (cs: seq<Candidate>)
    ensures |cs| == |rs|
  {
    if rs == [] then [] else Pending(rs[..|rs| - 1], m) + [Candidate(rs[|rs| - 1], m)]
  }

  /** The i-th pushed candidate is the i-th result at `m` matched pieces. */
  lemma {:induction false} PendingAt(rs: seq<nat>, m: nat, i: nat)
    requires i < |rs|
    ensures Pending(rs, m)[i] == Candidate(rs[i], m)
    decreases |rs|
  {
    if i < |rs| - 1 {
      PendingAt(rs[..|rs| - 1], m, i);
    }
  }

  /** The push loop of trie.match: every result goes on the worklist, in order, at `m` matched pieces. */
  method PushResults(candidates: seq<Candidate>, results: seq<nat>, m: nat) returns (cs: seq<Candidate>)
    ensures cs == candidates + Pending(results, m)
  {
    cs := candidates;
    for i := 0 to |results|
      invariant cs == candidates + Pending(results[..i], m)
    {
      cs := cs + [Candidate(results[i], m)];
      assert results[..i + 1][..i] == results[..i];
    }
    assert results[..|results|] == results;
  }

  /** Pushed candidates are in range. */
  lemma PendingValid<H>(a: seq<Branch<H>>, input: seq<string>, base: seq<Candidate>, rs: seq<nat>, m: nat)
    requires ValidStack(a, input, base) && m <= |input| && forall j | 0 <= j < |rs| :: rs[j] < |a|
    ensures ValidStack(a, input, base + Pending(rs, m))
  {
    var cs := base + Pending(rs, m);
    forall i | 0 <= i < |cs| ensures cs[i].b < |a| && cs[i].matchedPieces <= |input| {
      if i >= |base| {
        PendingAt(rs, m, i - |base|);
      }
    }
  }

  /** One push: the new top's leaves come before everything below it. */
  lemma PushOne<H>(a: seq<Branch<H>>, input: seq<string>, below: seq<Candidate>, c: Candidate)
    requires WellFormed(a) && ValidStack(a, input, below) && c.b < |a| && c.matchedPieces <= |input|
    ensures ValidStack(a, input, below + [c])
    ensures StackReach(a, input, below + [c]) == Reach(a, input, c.b, c.matchedPieces) + StackReach(a, input, below)
    ensures StackWork(a, input, below + [c]) == Work(a, input, c.b, c.matchedPieces) + StackWork(a, input, below)
  {
    assert (below + [c])[..|below|] == below;
  }

  /** Pushing the results in order puts their leaves, last result first, on top of the rest. */
  lemma {:induction false} PushAllReach<H>(a: seq<Branch<H>>, input: seq<string>, base: seq<Candidate>, rs: seq<nat>, m: nat)
    requires WellFormed(a) && ValidStack(a, input, base) && m <= |input| && forall j | 0 <= j < |rs| :: rs[j] < |a|
    requires ValidStack(a, input, base + Pending(rs, m))
    ensures StackReach(a, input, base + Pending(rs, m)) == ReachAll(a, input, rs, m) + StackReach(a, input, base)
    decreases |rs|
  {
    if rs == [] {
      assert base + Pending(rs, m) == base;
    } else {
      var pre := rs[..|rs| - 1];
      var c := Candidate(rs[|rs| - 1], m);
      PendingValid(a, input, base, pre, m);
      PushAllReach(a, input, base, pre, m);
      var below := base + Pending(pre, m);
      PushOne(a, input, below, c);
      assert Pending(rs, m) == Pending(pre, m) + [c];
      ConcatAssoc(base, Pending(pre, m), [c]);
      var top := Reach(a, input, c.b, m);
      var mid := ReachAll(a, input, pre, m);
      var rest := StackReach(a, input, base);
      assert ReachAll(a, input, rs, m) == top + mid;
      calc {
        StackReach(a, input, base + Pending(rs, m));
        StackReach(a, input, below + [c]);
        top + StackReach(a, input, below);
        top + (mid + rest);
        { ConcatAssoc(top, mid, rest); }
        ReachAll(a, input, rs, m) + rest;
      }
    }
  }

  /** Pushing the results adds the work of each of them. */
  lemma {:induction false} PushAllWork<H>(a: seq<Branch<H>>, input: seq<string>, base: seq<Candidate>, rs: seq<nat>, m: nat)
    requires WellFormed(a) && ValidStack(a, input, base) && m <= |input| && forall j | 0 <= j < |rs| :: rs[j] < |a|
    requires ValidStack(a, input, base + Pending(rs, m))
    ensures StackWork(a, input, base + Pending(rs, m)) == WorkAll(a, input, rs, m) + StackWork(a, input, base)
    decreases |rs|
  {
    if rs == [] {
      assert base + Pending(rs, m) == base;
    } else {
      var pre := rs[..|rs| - 1];
      var c := Candidate(rs[|rs| - 1], m);
      PendingValid(a, input, base, pre, m);
      PushAllWork(a, input, base, pre, m);
      var below := base + Pending(pre, m);
      PushOne(a, input, below, c);
      assert Pending(rs, m) == Pending(pre, m) + [c];
      ConcatAssoc(base, Pending(pre, m), [c]);
    }
  }

  /** Pushing results in order: the worklist stays valid, and gains their leaves and their work. */
  lemma PushAll<H>(a: seq<Branch<H>>, input: seq<string>, base: seq<Candidate>, rs: seq<nat>, m: nat)
    requires WellFormed(a) && ValidStack(a, input, base) && m <= |input| && forall j | 0 <= j < |rs| :: rs[j] < |a|
    ensures ValidStack(a, input, base + Pending(rs, m))
    ensures StackReach(a, input, base + Pending(rs, m)) == ReachAll(a, input, rs, m) + StackReach(a, input, base)
    ensures StackWork(a, input, base + Pending(rs, m)) == WorkAll(a, input, rs, m) + StackWork(a, input, base)
  {
    PendingValid(a, input, base, rs, m);
    PushAllReach(a, input, base, rs, m);
    PushAllWork(a, input, base, rs, m);
  }

  lemma ConcatAssoc<T>(x: seq<T>, y: seq<T>, z: seq<T>)
    ensures x + (y + z) == (x + y) + z
  {
  }

  /** The three cases of the worklist body, for the candidate (b, mp). */
  lemma ReachCases<H>(a: seq<Branch<H>>, input: seq<string>, b: nat, mp: nat)
    requires WellFormed(a) && b < |a| && mp <= |input|
    ensures var rs := MatchSpec(a, b, input[mp..]);
      && (rs == [] ==> Reach(a, input, b, mp) == [] && Work(a, input, b, mp) == 1)
      && (rs != [] && mp + 1 >= |input| ==> Reach(a, input, b, mp) == rs)
      && (rs != [] && mp + 1 < |input| ==>
            && Reach(a, input, b, mp) == ReachAll(a, input, rs, mp + 1)
            && Work(a, input, b, mp) == 1 + WorkAll(a, input, rs, mp + 1))
  {
  }

  /** Popping the top candidate: what it contributes, by the three cases of the loop body. */
  lemma PopCandidate<H>(a: seq<Branch<H>>, input: seq<string>, cs: seq<Candidate>)
    requires WellFormed(a) && ValidStack(a, input, cs) && cs != []
    ensures var c := cs[|cs| - 1];
      && ValidStack(a, input, cs[..|cs| - 1])
      && StackReach(a, input, cs) == Reach(a, input, c.b, c.matchedPieces) + StackReach(a, input, cs[..|cs| - 1])
      && StackWork(a, input, cs) == Work(a, input, c.b, c.matchedPieces) + StackWork(a, input, cs[..|cs| - 1])
  {
    var rest := cs[..|cs| - 1];
    assert ValidStack(a, input, rest) by {
      forall i | 0 <= i < |rest| ensures rest[i].b < |a| && rest[i].matchedPieces <= |input| {
        assert rest[i] == cs[i];
      }
    }
  }

  /** Loop body, first case: the popped candidate has no matching child. */
  lemma SearchDeadEnd<H>(a: seq<Branch<H>>, input: seq<string>, cs: seq<Candidate>, leafs: seq<nat>, all: seq<nat>)
    requires WellFormed(a) && ValidStack(a, input, cs) && cs != []
    requires leafs + StackReach(a, input, cs) == all
    requires MatchSpec(a, cs[|cs| - 1].b, input[cs[|cs| - 1].matchedPieces..]) == []
    ensures ValidStack(a, input, cs[..|cs| - 1])
    ensures leafs + StackReach(a, input, cs[..|cs| - 1]) == all
    ensures StackWork(a, input, cs[..|cs| - 1]) < StackWork(a, input, cs)
  {
    PopCandidate(a, input, cs);
    var c := cs[|cs| - 1];
    ReachCases(a, input, c.b, c.matchedPieces);
    var rest := StackReach(a, input, cs[..|cs| - 1]);
    assert StackReach(a, input, cs) == [] + rest;
    assert [] + rest == rest;
  }

  /** Loop body, second case: the matching children consume the last piece and are leaves. */
  lemma SearchLeaves<H>(a: seq<Branch<H>>, input: seq<string>, cs: seq<Candidate>, leafs: seq<nat>, all: seq<nat>, results: seq<nat>)
    requires WellFormed(a) && ValidStack(a, input, cs) && cs != []
    requires leafs + StackReach(a, input, cs) == all
    requires results == MatchSpec(a, cs[|cs| - 1].b, input[cs[|cs| - 1].matchedPieces..])
    requires results != [] && cs[|cs| - 1].matchedPieces + 1 >= |input|
    ensures ValidStack(a, input, cs[..|cs| - 1])
    ensures (leafs + results) + StackReach(a, input, cs[..|cs| - 1]) == all
    ensures StackWork(a, input, cs[..|cs| - 1]) < StackWork(a, input, cs)
  {
    PopCandidate(a, input, cs);
    var c := cs[|cs| - 1];
    ReachCases(a, input, c.b, c.matchedPieces);
    var rest := StackReach(a, input, cs[..|cs| - 1]);
    assert StackReach(a, input, cs) == results + rest;
    ConcatAssoc(leafs, results, rest);
  }

  /** Loop body, third case: the matching children are pushed with one more piece consumed. */
  lemma SearchPush<H>(a: seq<Branch<H>>, input: seq<string>, cs: seq<Candidate>, leafs: seq<nat>, all: seq<nat>, results: seq<nat>)
    requires WellFormed(a) && ValidStack(a, input, cs) && cs != []
    requires leafs + StackReach(a, input, cs) == all
    requires results == MatchSpec(a, cs[|cs| - 1].b, input[cs[|cs| - 1].matchedPieces..])
    requires results != [] && cs[|cs| - 1].matchedPieces + 1 < |input|
    ensures var next := cs[..|cs| - 1] + Pending(results, cs[|cs| - 1].matchedPieces + 1);
      && ValidStack(a, input, next)
      && leafs + StackReach(a, input, next) == all
      && StackWork(a, input, next) < StackWork(a, input, cs)
  {
    PopCandidate(a, input, cs);
    var c := cs[|cs| - 1];
    ReachCases(a, input, c.b, c.matchedPieces);
    PushAll(a, input, cs[..|cs| - 1], results, c.matchedPieces + 1);
  }

  /**
   * The search phase of trie.match: the worklist loop. It ends, because
   * every pushed candidate has consumed one more piece than the one popped
   * (StackWork falls), and it collects exactly the leaves of Reach.
   */
  method Search<H>(a: seq<Branch<H>>, input: seq<string>) returns (candidateLeafs: seq<nat>)
    requires WellFormed(a) && |a| > 0
    ensures candidateLeafs == Reach(a, input, 0, 0)
  {
    ghost var all := Reach(a, input, 0, 0);
    var candidates := [Candidate(0, 0)];
    candidateLeafs := [];
    assert candidates[..0] == [];
    while |candidates| > 0
      invariant ValidStack(a, input, candidates)
      invariant candidateLeafs + StackReach(a, input, candidates) == all
      decreases StackWork(a, input, candidates)
    {
      var candidate := candidates[|candidates| - 1];
      var results, matchedPieces := BranchMatch(a, candidate.b, input[candidate.matchedPieces..]);
      if |results| == 0 {
        SearchDeadEnd(a, input, candidates, candidateLeafs, all);
        candidates := candidates[..|candidates| - 1];
      } else if matchedPieces + candidate.matchedPieces < |input| {
        SearchPush(a, input, candidates, candidateLeafs, all, results);
        var m := candidate.matchedPieces + matchedPieces;
        candidates := PushResults(candidates[..|candidates| - 1], results, m);
      } else {
        SearchLeaves(a, input, candidates, candidateLeafs, all, results);
        candidates := candidates[..|candidates| - 1];
        candidateLeafs := candidateLeafs + results;
      }
    }
  }

  // ---------------------------------------------------------------------
  // What the search finds
  // ---------------------------------------------------------------------

  /**
   * The walk from the root to `x` is consistent with `input`: each branch
   * on it at depth d took one step on input[d-1].
   */
  ghost predicate Consistent<H>(a: seq<Branch<H>>, input: seq<string>, x: nat)
    requires WellFormed(a) && x < |a|
    decreases x
  {
    assert BranchOK(a, x);
    match a[x].parent
    case None => true
    case Some(p) =>
      && a[x].depth <= |input|
      && Step(a, p, x, input[a[x].depth - 1], a[x].depth == |input|)
      && Consistent(a, input, p)
  }

  /** `l` is a leaf for `input`: a walk consistent with all of it ends there. */
  ghost predicate Accepts<H>(a: seq<Branch<H>>, input: seq<string>, l: nat)
    requires WellFormed(a)
  {
    l < |a| && |input| >= 1 && a[l].depth == |input| && Consistent(a, input, l)
  }

  lemma {:induction false} ReachSound<H>(a: seq<Branch<H>>, input: seq<string>, b: nat, mp: nat, l: nat)
    requires WellFormed(a) && b < |a| && mp <= |input| && a[b].depth == mp && Consistent(a, input, b)
    requires l in Reach(a, input, b, mp)
    ensures Accepts(a, input, l)
    decreases |input| - mp, 1
  {
    var rs := MatchSpec(a, b, input[mp..]);
    forall j | 0 <= j < |rs|
      ensures a[rs[j]].depth == mp + 1 && Consistent(a, input, rs[j])
    {
      assert rs[j] in rs;
      MatchSpecMembers(a, b, input[mp..], rs[j]);
    }
    if mp + 1 >= |input| {
      assert l in rs;
    } else {
      ReachAllSound(a, input, rs, mp + 1, l);
    }
  }

  lemma {:induction false} ReachAllSound<H>(a: seq<Branch<H>>, input: seq<string>, rs: seq<nat>, m: nat, l: nat)
    requires WellFormed(a) && m <= |input|
    requires forall j | 0 <= j < |rs| :: rs[j] < |a| && a[rs[j]].depth == m && Consistent(a, input, rs[j])
    requires l in ReachAll(a, input, rs, m)
    ensures Accepts(a, input, l)
    decreases |input| - m + 1, 0, |rs|
  {
    var last := rs[|rs| - 1];
    var pre := rs[..|rs| - 1];
    if l in Reach(a, input, last, m) {
      ReachSound(a, input, last, m, l);
    } else {
      ReachAllSound(a, input, pre, m, l);
    }
  }

  /** Every result that is pushed contributes all of its leaves. */
  lemma {:induction false} ReachAllContains<H>(a: seq<Branch<H>>, input: seq<string>, rs: seq<nat>, m: nat, z: nat, l: nat)
    requires WellFormed(a) && m <= |input| && forall j | 0 <= j < |rs| :: rs[j] < |a|
    requires z in rs && l in Reach(a, input, z, m)
    ensures l in ReachAll(a, input, rs, m)
    decreases |rs|
  {
    if z != rs[|rs| - 1] {
      var pre := rs[..|rs| - 1];
      assert forall x | x in pre :: x in rs;
      assert z in pre;
      ReachAllContains(a, input, pre, m, z, l);
    }
  }

  /** One step up: a leaf the search finds from a child, it finds from the child's parent. */
  lemma ClimbStep<H>(a: seq<Branch<H>>, input: seq<string>, l: nat, y: nat, p: nat)
    requires WellFormed(a) && y < |a| && p < |a| && a[y].parent == Some(p)
    requires 1 <= a[y].depth < |input|
    requires Step(a, p, y, input[a[y].depth - 1], false)
    requires l in Reach(a, input, y, a[y].depth)
    ensures l in Reach(a, input, p, a[y].depth - 1)
  {
    var d := a[y].depth;
    var rest := input[d - 1..];
    assert rest[0] == input[d - 1] && |rest| != 1;
    var rs := MatchSpec(a, p, rest);
    MatchSpecMembers(a, p, rest, y);
    ReachAllContains(a, input, rs, d, y, l);
    ReachCases(a, input, p, d - 1);
  }

  /** Climbing the walk to `l`: if the search from z's parent finds `l`, so does the search from the root. */
  lemma {:induction false} Climb<H>(a: seq<Branch<H>>, input: seq<string>, l: nat, z: nat, y: nat)
    requires WellFormed(a) && |a| > 0 && z < |a| && y < |a| && a[z].parent == Some(y)
    requires 1 <= a[z].depth <= |input| && Consistent(a, input, z)
    requires l in Reach(a, input, y, a[z].depth - 1)
    ensures l in Reach(a, input, 0, 0)
    decreases z
  {
    assert BranchOK(a, z);
    assert BranchOK(a, y);
    if a[y].parent.Some? {
      var p := a[y].parent.value;
      assert Consistent(a, input, y);
      ClimbStep(a, input, l, y, p);
      Climb(a, input, l, y, p);
    }
  }

  lemma ReachComplete<H>(a: seq<Branch<H>>, input: seq<string>, l: nat)
    requires WellFormed(a) && |a| > 0 && Accepts(a, input, l)
    ensures l in Reach(a, input, 0, 0)
  {
    assert BranchOK(a, l);
    assert a[l].parent.Some?;
    var p := a[l].parent.value;
    var n := |input|;
    assert Step(a, p, l, input[n - 1], true);
    MatchSpecMembers(a, p, input[n - 1..], l);
    Climb(a, input, l, l, p);
  }

  /**
   * The search from the root collects exactly the branches that end a walk
   * consistent with the whole input; in particular each of them is at depth
   * len(input), and an empty input gives no leaf.
   */
  lemma SearchFindsExactlyLeaves<H>(a: seq<Branch<H>>, input: seq<string>, l: nat)
    requires WellFormed(a) && |a| > 0
    ensures l in Reach(a, input, 0, 0) <==> Accepts(a, input, l)
  {
    assert BranchOK(a, 0);
    if l in Reach(a, input, 0, 0) {
      ReachSound(a, input, 0, 0, l);
    }
    if Accepts(a, input, l) {
      ReachComplete(a, input, l);
    }
  }

  // ---------------------------------------------------------------------
  // trie.match, selection phase
  // ---------------------------------------------------------------------

  /** The leaf has a handler for the method, or a catch-all one. */
  predicate Serves<H>(b: Branch<H>, httpMethod: string) {
    httpMethod in b.methods || CatchAllMethod in b.methods
  }

  /** matchedLeafs: the leaves that serve the method, in order. */
  function ServingLeaves<H>(a: seq<Branch<H>>, leaves: seq<nat>, httpMethod: string): (r: seq<nat>)
    requires forall j | 0 <= j < |leaves| :: leaves[j] < |a|
    ensures forall j | 0 <= j < |r| :: r[j] < |a|
  {
    if leaves == [] then []
    else
      var last := leaves[|leaves| - 1];
      ServingLeaves(a, leaves[..|leaves| - 1], httpMethod) + (if Serves(a[last], httpMethod) then [last] else [])
  }

  /** Looking at one more leaf adds it when it serves the method. */
  lemma ServingLeavesStep<H>(a: seq<Branch<H>>, leaves: seq<nat>, httpMethod: string, i: nat)
    requires forall j | 0 <= j < |leaves| :: leaves[j] < |a|
    requires i < |leaves|
    ensures ServingLeaves(a, leaves[..i + 1], httpMethod)
      == ServingLeaves(a, leaves[..i], httpMethod) + (if Serves(a[leaves[i]], httpMethod) then [leaves[i]] else [])
  {
    assert leaves[..i + 1][..i] == leaves[..i];
  }

  /** A leaf is kept exactly when it serves the method. */
  lemma {:induction false} ServingLeavesMembers<H>(a: seq<Branch<H>>, leaves: seq<nat>, httpMethod: string, x: nat)
    requires forall j | 0 <= j < |leaves| :: leaves[j] < |a|
    requires x < |a|
    ensures x in ServingLeaves(a, leaves, httpMethod) <==> x in leaves && Serves(a[x], httpMethod)
  {
    if leaves != [] {
      var pre := leaves[..|leaves| - 1];
      ServingLeavesMembers(a, pre, httpMethod, x);
      assert leaves == pre + [leaves[|leaves| - 1]];
    }
  }

  /**
   * What selection returns: when some serving leaf has a priority above
   * zero, the first serving leaf of highest priority; otherwise the last
   * leaf (the 405 signal), or nil when there are no leaves.
   */
  ghost predicate Selected<H>(a: seq<Branch<H>>, leaves: seq<nat>, httpMethod: string, m: Option<nat>)
    requires forall j | 0 <= j < |leaves| :: leaves[j] < |a|
  {
    var s := ServingLeaves(a, leaves, httpMethod);
    if exists j | 0 <= j < |s| :: a[s[j]].priority > 0.0 then
      exists k | 0 <= k < |s| ::
        && m == Some(s[k])
        && (forall j | 0 <= j < |s| :: a[s[j]].priority <= a[s[k]].priority)
        && (forall j | 0 <= j < k :: a[s[j]].priority < a[s[k]].priority)
    else
      m == if leaves == [] then None else Some(leaves[|leaves| - 1])
  }

  /** The selection phase of trie.match. */
  method Select<H>(a: seq<Branch<H>>, candidateLeafs: seq<nat>, httpMethod: string) returns (match_: Option<nat>)
    requires forall j | 0 <= j < |candidateLeafs| :: candidateLeafs[j] < |a|
    ensures Selected(a, candidateLeafs, httpMethod, match_)
  {
    match_ := None;
    var matchedLeafs: seq<nat> := [];
    for i := 0 to |candidateLeafs|
      invariant match_ == if i == 0 then None else Some(candidateLeafs[i - 1])
      invariant matchedLeafs == ServingLeaves(a, candidateLeafs[..i], httpMethod)
    {
      var candidate := candidateLeafs[i];
      ServingLeavesStep(a, candidateLeafs, httpMethod, i);
      match_ := Some(candidate);
      if httpMethod in a[candidate].methods {
        matchedLeafs := matchedLeafs + [candidate];
      } else if CatchAllMethod in a[candidate].methods {
        matchedLeafs := matchedLeafs + [candidate];
      }
    }
    assert candidateLeafs[..|candidateLeafs|] == candidateLeafs;
    ghost var fallback := match_;
    var highScore: real := 0.0;
    ghost var best: int := -1;
    for i := 0 to |matchedLeafs|
      invariant -1 <= best < i
      invariant best == -1 ==> highScore == 0.0 && match_ == fallback
      invariant best == -1 ==> forall j | 0 <= j < i :: a[matchedLeafs[j]].priority <= 0.0
      invariant best >= 0 ==> match_ == Some(matchedLeafs[best]) && highScore == a[matchedLeafs[best]].priority > 0.0
      invariant best >= 0 ==> forall j | 0 <= j < i :: a[matchedLeafs[j]].priority <= highScore
      invariant best >= 0 ==> forall j | 0 <= j < best :: a[matchedLeafs[j]].priority < highScore
    {
      var result := matchedLeafs[i];
      if a[result].priority > highScore {
        highScore := a[result].priority;
        match_ := Some(result);
        best := i;
      }
    }
    SelectedAfterLoops(a, candidateLeafs, httpMethod, matchedLeafs, best, match_);
  }

  /** What the two loops of Select leave behind is the selection Selected describes. */
  lemma SelectedAfterLoops<H>(a: seq<Branch<H>>, leaves: seq<nat>, httpMethod: string, s: seq<nat>, best: int, m: Option<nat>)
    requires forall j | 0 <= j < |leaves| :: leaves[j] < |a|
    requires s == ServingLeaves(a, leaves, httpMethod)
    requires -1 <= best < |s|
    requires best == -1 ==> m == (if leaves == [] then None else Some(leaves[|leaves| - 1]))
    requires best == -1 ==> forall j | 0 <= j < |s| :: a[s[j]].priority <= 0.0
    requires best >= 0 ==> m == Some(s[best]) && a[s[best]].priority > 0.0
    requires best >= 0 ==> forall j | 0 <= j < |s| :: a[s[j]].priority <= a[s[best]].priority
    requires best >= 0 ==> forall j | 0 <= j < best :: a[s[j]].priority < a[s[best]].priority
    ensures Selected(a, leaves, httpMethod, m)
  {
    if best == -1 {
      assert !exists j | 0 <= j < |s| :: a[s[j]].priority > 0.0;
    }
  }

  // ---------------------------------------------------------------------
  // score: priorities
  // ---------------------------------------------------------------------

  /** Priorities are never negative and grow strictly from a parent to each child. */
  lemma {:induction false} PriorityIncreases<H>(a: seq<Branch<H>>, x: nat)
    requires WellFormed(a) && x < |a|
    ensures a[x].priority >= 0.0
    ensures a[x].parent.Some? ==> a[x].parent.value < x && a[x].priority > a[a[x].parent.value].priority
    ensures x != 0 ==> a[x].priority > 0.0
    decreases x
  {
    assert BranchOK(a, x);
    if x != 0 {
      var p := a[x].parent.value;
      PriorityIncreases(a, p);
      assert Weight(a[x]) / (a[x].depth + 1) as real > 0.0;
    }
  }

  /**
   * Selection over leaves that all have a positive priority: a serving leaf
   * of the highest priority when there is one, else the last leaf.
   */
  lemma SelectedPicksServing<H>(a: seq<Branch<H>>, leaves: seq<nat>, httpMethod: string, m: Option<nat>)
    requires forall j | 0 <= j < |leaves| :: leaves[j] < |a| && a[leaves[j]].priority > 0.0
    requires Selected(a, leaves, httpMethod, m)
    ensures (exists l | l in leaves :: Serves(a[l], httpMethod)) ==>
      && m.Some? && m.value in leaves && Serves(a[m.value], httpMethod)
      && forall l | l in leaves && Serves(a[l], httpMethod) :: a[l].priority <= a[m.value].priority
    ensures (forall l | l in leaves :: !Serves(a[l], httpMethod)) ==>
      m == if leaves == [] then None else Some(leaves[|leaves| - 1])
  {
    var s := ServingLeaves(a, leaves, httpMethod);
    if exists l | l in leaves :: Serves(a[l], httpMethod) {
      var l :| l in leaves && Serves(a[l], httpMethod);
      ServingLeavesMembers(a, leaves, httpMethod, l);
      var j :| 0 <= j < |s| && s[j] == l;
      assert a[s[j]].priority > 0.0;
      var k :| 0 <= k < |s| && m == Some(s[k])
        && (forall j | 0 <= j < |s| :: a[s[j]].priority <= a[s[k]].priority);
      ServingLeavesMembers(a, leaves, httpMethod, s[k]);
      forall l' | l' in leaves && Serves(a[l'], httpMethod)
        ensures a[l'].priority <= a[m.value].priority
      {
        ServingLeavesMembers(a, leaves, httpMethod, l');
        var j' :| 0 <= j' < |s| && s[j'] == l';
      }
    } else {
      assert s == [] by {
        if s != [] {
          ServingLeavesMembers(a, leaves, httpMethod, s[0]);
        }
      }
    }
  }

  /**
   * What trie.match returns for the leaves its search finds: a serving
   * leaf of the highest priority when there is one, else the last leaf.
   */
  lemma MatchPicksServingLeaf<H>(a: seq<Branch<H>>, input: seq<string>, httpMethod: string, m: Option<nat>)
    requires WellFormed(a) && |a| > 0
    requires Selected(a, Reach(a, input, 0, 0), httpMethod, m)
    ensures var leaves := Reach(a, input, 0, 0);
      (exists l | l in leaves :: Serves(a[l], httpMethod)) ==>
        && m.Some? && m.value in leaves && Serves(a[m.value], httpMethod)
        && forall l | l in leaves && Serves(a[l], httpMethod) :: a[l].priority <= a[m.value].priority
    ensures var leaves := Reach(a, input, 0, 0);
      (forall l | l in leaves :: !Serves(a[l], httpMethod)) ==>
        m == if leaves == [] then None else Some(leaves[|leaves| - 1])
  {
    var leaves := Reach(a, input, 0, 0);
    forall j | 0 <= j < |leaves| ensures a[leaves[j]].priority > 0.0 {
      var l := leaves[j];
      SearchFindsExactlyLeaves(a, input, l);
      assert BranchOK(a, l);
      PriorityIncreases(a, l);
    }
    SelectedPicksServing(a, leaves, httpMethod, m);
  }


  // ---------------------------------------------------------------------
  // vars
  // ---------------------------------------------------------------------

  function Lookup(m: map<string, seq<string>>, k: string): seq<string> {
    if k in m then m[k] else []
  }

  /**
   * branch.vars: the parameter values along the walk to `x`, each parameter
   * branch taking the last piece of the input it is given, its parent the
   * input without that piece.
   */
  function Vars<H>(a: seq<Branch<H>>, x: nat, input: seq<string>): map<string, seq<string>>
    requires WellFormed(a) && x < |a| && |input| >= a[x].depth
    decreases x
  {
    assert BranchOK(a, x);
    var inherited := match a[x].parent
      case None => map[]
      case Some(p) => Vars(a, p, input[..|input| - 1]);
    if a[x].isParam then
      inherited[a[x].key := Lookup(inherited, a[x].key) + [input[|input| - 1]]]
    else
      inherited
  }

  /**
   * The values a name is bound to: for each parameter branch with that key
   * on the walk to `x`, root first, the piece at its depth.
   */
  ghost function ParamValues<H>(a: seq<Branch<H>>, x: nat, input: seq<string>, name: string): seq<string>
    requires WellFormed(a) && x < |a| && |input| >= a[x].depth
    decreases x
  {
    assert BranchOK(a, x);
    var above := match a[x].parent
      case None => []
      case Some(p) => ParamValues(a, p, input, name);
    above + (if a[x].isParam && a[x].key == name then [input[a[x].depth - 1]] else [])
  }

  lemma {:induction false} ParamValuesPrefix<H>(a: seq<Branch<H>>, x: nat, s: seq<string>, t: seq<string>, name: string)
    requires WellFormed(a) && x < |a| && |s| >= a[x].depth && |t| >= a[x].depth
    requires s[..a[x].depth] == t[..a[x].depth]
    ensures ParamValues(a, x, s, name) == ParamValues(a, x, t, name)
    decreases x
  {
    assert BranchOK(a, x);
    if a[x].parent.Some? {
      var p := a[x].parent.value;
      assert s[..a[p].depth] == s[..a[x].depth][..a[p].depth];
      assert t[..a[p].depth] == t[..a[x].depth][..a[p].depth];
      ParamValuesPrefix(a, p, s, t, name);
    }
    if a[x].isParam {
      assert s[a[x].depth - 1] == s[..a[x].depth][a[x].depth - 1];
      assert t[a[x].depth - 1] == t[..a[x].depth][a[x].depth - 1];
    }
  }

  /**
   * For a leaf found for `input` (its depth is len(input)), vars binds each
   * parameter name to the pieces at its parameter branches, in template
   * order, and binds no other name.
   */
  lemma {:induction false} VarsAreParamValues<H>(a: seq<Branch<H>>, x: nat, input: seq<string>, name: string)
    requires WellFormed(a) && x < |a| && |input| == a[x].depth
    ensures name in Vars(a, x, input) <==> ParamValues(a, x, input, name) != []
    ensures Lookup(Vars(a, x, input), name) == ParamValues(a, x, input, name)
    decreases x
  {
    assert BranchOK(a, x);
    if a[x].parent.Some? {
      var p := a[x].parent.value;
      var shorter := input[..|input| - 1];
      VarsAreParamValues(a, p, shorter, name);
      assert shorter[..a[p].depth] == input[..a[p].depth];
      ParamValuesPrefix(a, p, shorter, input, name);
    }
  }

  /**
   * The template /posts/{id}/comments/{id}, as branches 1 to 4 under the
   * root: for /posts/foo/comments/bar, vars binds id to [foo, bar], the
   * values in template order.
   */
  lemma RepeatedParamExample<H>(a: seq<Branch<H>>)
    requires WellFormed(a) && |a| >= 5
    requires a[1].parent == Some(0) && !a[1].isParam && a[1].key == "posts"
    requires a[2].parent == Some(1) && a[2].isParam && a[2].key == "id"
    requires a[3].parent == Some(2) && !a[3].isParam && a[3].key == "comments"
    requires a[4].parent == Some(3) && a[4].isParam && a[4].key == "id"
    ensures a[4].depth == 4 && Vars(a, 4, ["posts", "foo", "comments", "bar"]) == map["id" := ["foo", "bar"]]
  {
    assert BranchOK(a, 0) && BranchOK(a, 1) && BranchOK(a, 2) && BranchOK(a, 3) && BranchOK(a, 4);
    var i4 := ["posts", "foo", "comments", "bar"];
    var i3 := ["posts", "foo", "comments"];
    var i2 := ["posts", "foo"];
    var i1 := ["posts"];
    assert i4[..3] == i3 && i3[..2] == i2 && i2[..1] == i1 && i1[..0] == [];
    var v0 := Vars(a, 0, []);
    assert v0 == map[];
    var v1 := Vars(a, 1, i1);
    assert v1 == v0;
    var v2 := Vars(a, 2, i2);
    assert v2 == v1["id" := Lookup(v1, "id") + ["foo"]];
    var v3 := Vars(a, 3, i3);
    assert v3 == v2;
    var v4 := Vars(a, 4, i4);
    assert v4 == v3["id" := Lookup(v3, "id") + ["bar"]];
    AppendIdTwice(v0, "foo", "bar");
  }

  /** Appending two values under "id" to the empty binding gives them in order. */
  lemma AppendIdTwice(v: map<string, seq<string>>, first: string, second: string)
    requires v == map[]
    ensures var once := v["id" := Lookup(v, "id") + [first]];
      once["id" := Lookup(once, "id") + [second]] == map["id" := [first, second]]
  {
    assert Lookup(v, "id") + [first] == [first];
    var once := v["id" := [first]];
    assert once == map["id" := [first]];
    assert Lookup(once, "id") + [second] == [first, second];
    assert once["id" := [first, second]] == map["id" := [first, second]];
  }

  // ---------------------------------------------------------------------
  // pathString
  // ---------------------------------------------------------------------

  /** The text of one branch in a path string: `{key}` for a parameter, `key` otherwise. */
  function Segment<H>(b: Branch<H>): string {
    if b.isParam then "{" + b.key + "}" else b.key
  }

  /** branch.pathString: "/" + segment for each branch from the root down to `x`. */
  function PathString<H>(a: seq<Branch<H>>, x: nat): string
    requires WellFormed(a) && x < |a|
    decreases x
  {
    assert BranchOK(a, x);
    var above := match a[x].parent
      case None => ""
      case Some(p) => PathString(a, p);
    above + "/" + Segment(a[x])
  }

  /** The segments of the branches from the root down to `x`. */
  ghost function Segments<H>(a: seq<Branch<H>>, x: nat): seq<string>
    requires WellFormed(a) && x < |a|
    decreases x
  {
    assert BranchOK(a, x);
    match a[x].parent
    case None => [Segment(a[x])]
    case Some(p) => Segments(a, p) + [Segment(a[x])]
  }

  ghost predicate SlashFreeKeys<H>(a: seq<Branch<H>>) {
    forall i | 0 <= i < |a| :: '/' !in a[i].key
  }

  /** The path string of `x` is a slash followed by the slash-joined segments of its depth+1 branches. */
  lemma {:induction false} PathStringJoins<H>(a: seq<Branch<H>>, x: nat)
    requires WellFormed(a) && x < |a|
    ensures |Segments(a, x)| == a[x].depth + 1
    ensures PathString(a, x) == "/" + Strings.Join(Segments(a, x), '/')
    decreases x
  {
    assert BranchOK(a, x);
    if a[x].parent.Some? {
      var p := a[x].parent.value;
      PathStringJoins(a, p);
      JoinSnoc(Segments(a, p), Segment(a[x]));
    }
  }

  /**
   * When no key holds a slash, splitting the path string of `x` after its
   * leading slash gives back the segments from the root down to `x`.
   */
  lemma PathStringSplits<H>(a: seq<Branch<H>>, x: nat)
    requires WellFormed(a) && x < |a| && SlashFreeKeys(a)
    ensures Strings.Split(PathString(a, x)[1..], '/') == Segments(a, x)
  {
    var segs := Segments(a, x);
    PathStringJoins(a, x);
    forall i | 0 <= i < |segs| ensures '/' !in segs[i] {
      SegmentsSlashFree(a, x, i);
    }
    assert PathString(a, x)[1..] == Strings.Join(segs, '/');
    Strings.SplitJoin(segs, '/');
  }

  /**
   * The root's empty key still contributes "/": a branch directly under
   * the root renders as "//" followed by its segment.
   */
  lemma TopLevelPathString<H>(a: seq<Branch<H>>, x: nat)
    requires WellFormed(a) && x < |a| && a[x].parent == Some(0)
    ensures PathString(a, x) == "//" + Segment(a[x])
  {
    assert BranchOK(a, x);
    assert BranchOK(a, 0);
    assert PathString(a, 0) == "/";
  }

  lemma {:induction false} SegmentsSlashFree<H>(a: seq<Branch<H>>, x: nat, i: nat)
    requires WellFormed(a) && x < |a| && SlashFreeKeys(a) && i < |Segments(a, x)|
    ensures '/' !in Segments(a, x)[i]
    decreases x
  {
    assert BranchOK(a, x);
    assert '/' !in a[x].key;
    if a[x].parent.Some? && i < |Segments(a, a[x].parent.value)| {
      SegmentsSlashFree(a, a[x].parent.value, i);
    }
  }

  lemma {:induction false} JoinSnoc(ps: seq<string>, s: string)
    requires |ps| >= 1
    ensures Strings.Join(ps + [s], '/') == Strings.Join(ps, '/') + "/" + s
    decreases |ps|
  {
    if |ps| > 1 {
      JoinSnoc(ps[1..], s);
      assert (ps + [s])[1..] == ps[1..] + [s];
    } else {
      assert (ps + [s])[1..] == [s];
    }
  }

  // ---------------------------------------------------------------------
  // The trie object: addChild, setHandler and match update it in place
  // ---------------------------------------------------------------------

  class Trie<H> {
    var branches: seq<Branch<H>>

    ghost predicate Valid()
      reads this
    {
      WellFormed(branches)
    }

    /** The zero trie: no root branch yet. */
    constructor ()
      ensures Valid() && branches == []
    {
      branches := [];
    }

    /**
     * addChild: appends a new branch under `b`, one deeper, with its
     * priority from score; a parameter child goes to the end of the
     * wildcard children, a static child into staticChildren[key], replacing
     * any branch stored there. Nothing else changes.
     */
    method AddChild(b: nat, key: string, param: bool) returns (child: nat)
      requires Valid() && b < |branches|
      modifies this
      ensures Valid()
      ensures child == |old(branches)| && |branches| == child + 1
      ensures branches[child].parent == Some(b) && branches[child].key == key && branches[child].isParam == param
      ensures branches[child].depth == old(branches[b].depth) + 1
      ensures branches[child].priority
              == (if param then 1.0 else 2.0) / (branches[child].depth + 1) as real + old(branches[b].priority)
      ensures branches[child].staticChildren == map[] && branches[child].wildcardChildren == []
      ensures branches[child].methods == map[]
      ensures branches[b] == if param
        then old(branches[b]).(wildcardChildren := old(branches[b].wildcardChildren) + [child])
        else old(branches[b]).(staticChildren := old(branches[b].staticChildren)[key := child])
      ensures forall i | 0 <= i < child && i != b :: branches[i] == old(branches[i])
    {
      child := |branches|;
      var parent := branches[b];
      var c := Branch(Some(b), map[], [], key, param, map[], parent.depth + 1, 0.0);
      c := c.(priority := Score(branches, c));
      var updated := if param
        then parent.(wildcardChildren := parent.wildcardChildren + [child])
        else parent.(staticChildren := parent.staticChildren[key := child]);
      ghost var a := branches;
      branches := branches[b := updated] + [c];
      AddChildKeepsWellFormed(a, b, c, updated, branches);
    }

    /** setHandler: methods[method] := handler on branch `b`; nothing else changes. */
    method SetHandler(b: nat, httpMethod: string, handler: H)
      requires Valid() && b < |branches|
      modifies this
      ensures Valid()
      ensures branches == old(branches)[b := old(branches[b]).(methods := old(branches[b].methods)[httpMethod := handler])]
    {
      ghost var a := branches;
      branches := branches[b := branches[b].(methods := branches[b].methods[httpMethod := handler])];
      forall i | 0 <= i < |branches| ensures BranchOK(branches, i) {
        assert BranchOK(a, i);
      }
    }

    /**
     * trie.match: creates the root if there is none, then searches for the
     * leaves of `input` and selects one of them for `method`.
     */
    method Match(input: seq<string>, httpMethod: string) returns (match_: Option<nat>)
      requires Valid()
      modifies this
      ensures Valid()
      ensures branches == if old(branches) == [] then [RootBranch()] else old(branches)
      ensures Selected(branches, Reach(branches, input, 0, 0), httpMethod, match_)
    {
      if branches == [] {
        branches := [RootBranch()];
        assert BranchOK(branches, 0);
      }
      var candidateLeafs := Search(branches, input);
      match_ := Select(branches, candidateLeafs, httpMethod);
    }
  }

  lemma AddChildKeepsWellFormed<H>(a: seq<Branch<H>>, b: nat, c: Branch<H>, updated: Branch<H>, a': seq<Branch<H>>)
    requires WellFormed(a) && b < |a|
    requires c.parent == Some(b) && c.depth == a[b].depth + 1 && c.priority == Score(a, c)
    requires c.staticChildren == map[] && c.wildcardChildren == []
    requires updated == if c.isParam
      then a[b].(wildcardChildren := a[b].wildcardChildren + [|a|])
      else a[b].(staticChildren := a[b].staticChildren[c.key := |a|])
    requires a' == a[b := updated] + [c]
    ensures WellFormed(a')
  {
    forall i | 0 <= i < |a'| ensures BranchOK(a', i) {
      if i < |a| {
        AddChildKeepsBranch(a, b, c, updated, a', i);
      } else {
        assert a'[i] == c;
        assert BranchOK(a, b);
      }
    }
  }

  /** addChild keeps every branch that was already there well formed. */
  lemma AddChildKeepsBranch<H>(a: seq<Branch<H>>, b: nat, c: Branch<H>, updated: Branch<H>, a': seq<Branch<H>>, i: nat)
    requires WellFormed(a) && b < |a| && i < |a|
    requires c.parent == Some(b) && c.depth == a[b].depth + 1
    requires updated == if c.isParam
      then a[b].(wildcardChildren := a[b].wildcardChildren + [|a|])
      else a[b].(staticChildren := a[b].staticChildren[c.key := |a|])
    requires a' == a[b := updated] + [c]
    ensures BranchOK(a', i)
  {
    assert BranchOK(a, i);
    if i != 0 {
      assert a'[a[i].parent.value].priority == a[a[i].parent.value].priority;
      assert a'[a[i].parent.value].depth == a[a[i].parent.value].depth;
    }
    forall k | k in a'[i].staticChildren ensures ChildOf(a', i, a'[i].staticChildren[k], false) {
      if !(i == b && !c.isParam && k == c.key) {
        assert ChildOf(a, i, a[i].staticChildren[k], false);
      }
    }
    forall j | 0 <= j < |a'[i].wildcardChildren| ensures ChildOf(a', i, a'[i].wildcardChildren[j], true) {
      if j < |a[i].wildcardChildren| {
        assert ChildOf(a, i, a[i].wildcardChildren[j], true);
      }
    }
  }
}
