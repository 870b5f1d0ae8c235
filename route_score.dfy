/**
 * Scoring in route.go: scoreNode gives a node matched by a request a
 * decimal score, one digit per node on its parent chain, the root the
 * most significant; pickNode keeps the best-scoring candidate, and a
 * candidate whose endpoint lacks the request method loses a penalty larger
 * than any score.
 *
 * The trie of nodes is an arena: a node refers to its parent and to its
 * terminator (the node that holds the endpoint's method table) by index.
 * Go's float64 powers of ten are exact integers here.
 */
module RouteScore {
  import opened Common
  import opened RouteKeys

  /** A node of the route trie: its parent, its key, the node ending its endpoint, its handlers. */
  datatype Node<H> = Node(parent: Option<nat>, value: Key, terminator: Option<nat>, methods: map<string, H>)

  /** Parents come before their children; terminators are nodes of the arena. */
  ghost predicate NodesWellFormed<H>(a: seq<Node<H>>) {
    forall i | 0 <= i < |a| ::
      && (a[i].parent.Some? ==> a[i].parent.value < i)
      && (a[i].terminator.Some? ==> a[i].terminator.value < |a|)
  }

  /** The number of nodes above `x`. */
  function Ancestors<H>(a: seq<Node<H>>, x: nat): nat
    requires NodesWellFormed(a) && x < |a|
    decreases x
  {
    match a[x].parent
    case None => 0
    case Some(p) => 1 + Ancestors(a, p)
  }

  /** math.Pow10 on a non-negative exponent, exactly. */
  function Pow10(n: nat): (p: nat)
    ensures p >= 1
  {
    if n == 0 then 1 else 10 * Pow10(n - 1)
  }

  /**
   * scoreNode: the parent's score one power up (on one fewer piece), plus
   * 10^power times 2 for a static key or 1 for a dynamic or prefix key; a
   * nul key adds nothing. It is only defined when there are at least as
   * many pieces as ancestors, since each step up drops a piece.
   */
  function ScoreNode<H>(a: seq<Node<H>>, x: nat, pieces: seq<string>, power: nat): nat
    requires NodesWellFormed(a) && x < |a| && |pieces| >= Ancestors(a, x)
    decreases x
  {
    var score := match a[x].parent
      case None => 0
      case Some(p) => ScoreNode(a, p, pieces[..|pieces| - 1], power + 1);
    if a[x].value.nul then score
    else
      var myScore := if !a[x].value.dynamic && !a[x].value.prefix then 2 else 1;
      score + Pow10(power) * myScore
  }

  // ---------------------------------------------------------------------
  // The score as a decimal number
  // ---------------------------------------------------------------------

  /** What one key is worth as a digit of the score. */
  function KeyWeight(k: Key): (w: nat)
    ensures w <= 2
    ensures w == 0 <==> k.nul
    ensures w == 2 <==> !k.nul && !k.dynamic && !k.prefix
  {
    if k.nul then 0 else if !k.dynamic && !k.prefix then 2 else 1
  }

  /** The digits of the parent chain of `x`, root first. */
  ghost function Weights<H>(a: seq<Node<H>>, x: nat): (ws: seq<nat>)
    requires NodesWellFormed(a) && x < |a|
    ensures |ws| == Ancestors(a, x) + 1
    ensures forall i | 0 <= i < |ws| :: ws[i] <= 2
    decreases x
  {
    match a[x].parent
    case None => [KeyWeight(a[x].value)]
    case Some(p) => Weights(a, p) + [KeyWeight(a[x].value)]
  }

  /** The number whose decimal digits are `ws`, most significant first. */
  function Digits(ws: seq<nat>): nat {
    if ws == [] then 0 else 10 * Digits(ws[..|ws| - 1]) + ws[|ws| - 1]
  }

  /** One step of scoreNode: the parent's score one power up, plus this key's weight at `power`. */
  lemma ScoreNodeStep<H>(a: seq<Node<H>>, x: nat, pieces: seq<string>, power: nat)
    requires NodesWellFormed(a) && x < |a| && |pieces| >= Ancestors(a, x)
    ensures ScoreNode(a, x, pieces, power) ==
      (match a[x].parent
       case None => 0
       case Some(p) => ScoreNode(a, p, pieces[..|pieces| - 1], power + 1))
      + Pow10(power) * KeyWeight(a[x].value)
  {
    if a[x].value.nul {
      assert Pow10(power) * KeyWeight(a[x].value) == 0;
    }
  }

  /** scoreNode at `power` is the chain's digits shifted left by `power` places. */
  lemma {:induction false} ScoreIsDigits<H>(a: seq<Node<H>>, x: nat, pieces: seq<string>, power: nat)
    requires NodesWellFormed(a) && x < |a| && |pieces| >= Ancestors(a, x)
    ensures ScoreNode(a, x, pieces, power) == Pow10(power) * Digits(Weights(a, x))
    decreases x
  {
    var ws := Weights(a, x);
    var w := KeyWeight(a[x].value);
    ScoreNodeStep(a, x, pieces, power);
    match a[x].parent
    case None =>
      assert ws == [w] && ws[..0] == [];
      assert Digits(ws) == w;
    case Some(p) =>
      var shorter := pieces[..|pieces| - 1];
      ScoreIsDigits(a, p, shorter, power + 1);
      var d := Digits(Weights(a, p));
      assert ws[..|ws| - 1] == Weights(a, p);
      assert Digits(ws) == 10 * d + w;
      ShiftDigit(Pow10(power), d, w);
  }

  /** Shifting a number one place left and appending a digit, scaled. */
  lemma ShiftDigit(p: nat, d: nat, w: nat)
    ensures (10 * p) * d + p * w == p * (10 * d + w)
  {
  }

  /** A number of n digits, none above 2, is below 10^n. */
  lemma {:induction false} DigitsBound(ws: seq<nat>)
    requires forall i | 0 <= i < |ws| :: ws[i] <= 2
    ensures Digits(ws) < Pow10(|ws|)
    decreases |ws|
  {
    if ws != [] {
      DigitsBound(ws[..|ws| - 1]);
    }
  }

  lemma {:induction false} Pow10Monotone(m: nat, n: nat)
    requires m <= n
    ensures Pow10(m) <= Pow10(n)
    decreases n
  {
    if m < n {
      Pow10Monotone(m, n - 1);
    }
  }

  /**
   * Earlier nodes are worth more than later ones: of two chains of the same
   * length that agree above position i, the one with the larger digit at i
   * has the larger number, whatever follows.
   */
  lemma {:induction false} EarlierDigitDominates(u: seq<nat>, v: seq<nat>, i: nat)
    requires |u| == |v| && i < |u|
    requires forall j | 0 <= j < |u| :: u[j] <= 2 && v[j] <= 2
    requires u[..i] == v[..i] && u[i] > v[i]
    ensures Digits(u) > Digits(v)
    decreases |u|
  {
    var n := |u|;
    if i == n - 1 {
      assert u[..n - 1] == u[..i] && v[..n - 1] == v[..i];
    } else {
      assert u[..n - 1][..i] == u[..i] && v[..n - 1][..i] == v[..i];
      EarlierDigitDominates(u[..n - 1], v[..n - 1], i);
    }
  }

  /**
   * The score of a node whose ancestors fit in the pieces is below
   * 10^(len(pieces)+1), the penalty pickNode subtracts.
   */
  lemma ScoreBelowPenalty<H>(a: seq<Node<H>>, x: nat, pieces: seq<string>)
    requires NodesWellFormed(a) && x < |a| && |pieces| >= Ancestors(a, x)
    ensures ScoreNode(a, x, pieces, 0) < Pow10(|pieces| + 1)
  {
    var ws := Weights(a, x);
    ScoreIsDigits(a, x, pieces, 0);
    DigitsBound(ws);
    Pow10Monotone(|ws|, |pieces| + 1);
    assert Pow10(0) == 1;
    calc {
      ScoreNode(a, x, pieces, 0);
      Pow10(0) * Digits(ws);
      Digits(ws);
    <
      Pow10(|ws|);
    <=
      Pow10(|pieces| + 1);
    }
  }

  /**
   * Of two matched nodes at the same depth whose chains carry the same
   * digits down to position i, the one with the heavier key at i (static
   * over dynamic or prefix, anything over nul) scores higher.
   */
  lemma EarlierSegmentsDominate<H>(a: seq<Node<H>>, x: nat, y: nat, pieces: seq<string>, i: nat)
    requires NodesWellFormed(a) && x < |a| && y < |a|
    requires Ancestors(a, x) == Ancestors(a, y) <= |pieces| && i <= Ancestors(a, x)
    requires Weights(a, x)[..i] == Weights(a, y)[..i] && Weights(a, x)[i] > Weights(a, y)[i]
    ensures ScoreNode(a, x, pieces, 0) > ScoreNode(a, y, pieces, 0)
  {
    ScoreIsDigits(a, x, pieces, 0);
    ScoreIsDigits(a, y, pieces, 0);
    assert Pow10(0) == 1;
    EarlierDigitDominates(Weights(a, x), Weights(a, y), i);
  }

  /** A number of n digits whose leading digit is at least 1 is at least 10^(n-1). */
  lemma {:induction false} DigitsAtLeast(ws: seq<nat>)
    requires |ws| >= 1 && ws[0] >= 1
    ensures Digits(ws) >= Pow10(|ws| - 1)
    decreases |ws|
  {
    if |ws| > 1 {
      var pre := ws[..|ws| - 1];
      assert pre[0] == ws[0];
      DigitsAtLeast(pre);
    } else {
      assert ws[..0] == [];
    }
  }

  /**
   * A match with more nodes scores higher: a node with more ancestors beats
   * one with fewer, whatever the keys of either, as long as the root key of
   * the longer chain is not nul (the route trie's root is the zero key,
   * weight 2).
   */
  lemma LongerChainScoresHigher<H>(a: seq<Node<H>>, x: nat, y: nat, pieces: seq<string>)
    requires NodesWellFormed(a) && x < |a| && y < |a|
    requires Ancestors(a, y) < Ancestors(a, x) <= |pieces|
    requires Weights(a, x)[0] >= 1
    ensures ScoreNode(a, x, pieces, 0) > ScoreNode(a, y, pieces, 0)
  {
    var u := Weights(a, x);
    var v := Weights(a, y);
    ScoreIsDigits(a, x, pieces, 0);
    ScoreIsDigits(a, y, pieces, 0);
    assert Pow10(0) == 1;
    DigitsBound(v);
    DigitsAtLeast(u);
    Pow10Monotone(|v|, |u| - 1);
    assert Digits(v) < Digits(u);
  }

  /**
   * A dynamic key does not score lower than a static one when both are
   * prefix keys: `Prefix("/prefix/static")` and `Prefix("/prefix/{id}")`
   * tie on every request both match.
   */
  lemma StaticPrefixTiesDynamicPrefix<H>(a: seq<Node<H>>, x: nat, y: nat, pieces: seq<string>)
    requires NodesWellFormed(a) && x < |a| && y < |a| && a[x].parent == a[y].parent
    requires |pieces| >= Ancestors(a, x)
    requires a[x].value.prefix && !a[x].value.dynamic && !a[x].value.nul
    requires a[y].value.prefix && a[y].value.dynamic && !a[y].value.nul
    ensures Ancestors(a, y) == Ancestors(a, x)
    ensures ScoreNode(a, x, pieces, 0) == ScoreNode(a, y, pieces, 0)
  {
  }

  /**
   * At the same depth a prefix key does not score lower than a dynamic one:
   * `Prefix("/a")` and `Endpoint("/{id}")` tie on GET /a.
   */
  lemma PrefixTiesDynamic<H>(a: seq<Node<H>>, x: nat, y: nat, pieces: seq<string>)
    requires NodesWellFormed(a) && x < |a| && y < |a| && a[x].parent == a[y].parent
    requires |pieces| >= Ancestors(a, x)
    requires a[x].value.prefix && !a[x].value.dynamic && !a[x].value.nul
    requires !a[y].value.prefix && a[y].value.dynamic && !a[y].value.nul
    ensures Ancestors(a, y) == Ancestors(a, x)
    ensures ScoreNode(a, x, pieces, 0) == ScoreNode(a, y, pieces, 0)
  {
  }

  // ---------------------------------------------------------------------
  // pickNode
  // ---------------------------------------------------------------------

  /** A candidate pickNode considers: a non-nil node that has a terminator. */
  predicate Eligible<H>(a: seq<Node<H>>, n: Option<nat>) {
    n.Some? && n.value < |a| && a[n.value].terminator.Some?
  }

  /** What findNodes hands to pickNode: nodes of the arena whose ancestors fit in the pieces. */
  ghost predicate Candidates<H>(a: seq<Node<H>>, nodes: seq<Option<nat>>, pieces: seq<string>) {
    && NodesWellFormed(a)
    && forall j | 0 <= j < |nodes| :: nodes[j].Some? ==> nodes[j].value < |a| && Ancestors(a, nodes[j].value) <= |pieces|
  }

  /**
   * When pickNode penalises a candidate. As written (route.go:160) it tests
   * the exact method only; the rule the comment at route.go:114-116 asks
   * for also spares an endpoint with a "*" handler, which `route` serves.
   */
  datatype PenaltyRule = ExactMethodOnly | MethodOrCatchAll

  /** The endpoint's method table escapes the penalty under `rule`. */
  predicate Unpenalised<H>(methods: map<string, H>, httpMethod: string, rule: PenaltyRule) {
    httpMethod in methods || (rule == MethodOrCatchAll && "*" in methods)
  }

  /** The score pickNode compares: scoreNode, less the penalty when the endpoint does not escape it. */
  function CandidateScore<H>(a: seq<Node<H>>, x: nat, pieces: seq<string>, httpMethod: string, rule: PenaltyRule): int
    requires NodesWellFormed(a) && x < |a| && a[x].terminator.Some? && |pieces| >= Ancestors(a, x)
  {
    var score := ScoreNode(a, x, pieces, 0);
    if Unpenalised(a[a[x].terminator.value].methods, httpMethod, rule) then score else score - Pow10(|pieces| + 1)
  }

  /** The candidate at `k` is eligible, scores highest, and no eligible candidate before it scores as high. */
  ghost predicate BestAt<H>(a: seq<Node<H>>, nodes: seq<Option<nat>>, pieces: seq<string>, httpMethod: string, rule: PenaltyRule, k: nat)
    requires Candidates(a, nodes, pieces) && k < |nodes|
  {
    && Eligible(a, nodes[k])
    && (forall j | 0 <= j < |nodes| && Eligible(a, nodes[j]) ::
          CandidateScore(a, nodes[j].value, pieces, httpMethod, rule) <= CandidateScore(a, nodes[k].value, pieces, httpMethod, rule))
    && (forall j | 0 <= j < k && Eligible(a, nodes[j]) ::
          CandidateScore(a, nodes[j].value, pieces, httpMethod, rule) < CandidateScore(a, nodes[k].value, pieces, httpMethod, rule))
  }

  /**
   * What pickNode returns: nil when no candidate is eligible; otherwise the
   * terminator of the first eligible candidate of the highest score.
   */
  ghost predicate Picked<H>(a: seq<Node<H>>, nodes: seq<Option<nat>>, pieces: seq<string>, httpMethod: string, rule: PenaltyRule, r: Option<nat>)
    requires Candidates(a, nodes, pieces)
  {
    if exists j | 0 <= j < |nodes| :: Eligible(a, nodes[j]) then
      exists k | 0 <= k < |nodes| :: BestAt(a, nodes, pieces, httpMethod, rule, k) && r == a[nodes[k].value].terminator
    else
      r == None
  }

  /** pickNode: the loop that keeps the best candidate seen so far, replacing it only on a strictly higher score. */
  method PickNode<H>(a: seq<Node<H>>, nodes: seq<Option<nat>>, pieces: seq<string>, httpMethod: string, rule: PenaltyRule) returns (picked: Option<nat>)
    requires Candidates(a, nodes, pieces)
    ensures Picked(a, nodes, pieces, httpMethod, rule, picked)
    ensures picked.None? <==> forall j | 0 <= j < |nodes| :: !Eligible(a, nodes[j])
  {
    var maxScore: int := 0;
    var bestNode: Option<nat> := None;
    ghost var best: int := -1;
    for i := 0 to |nodes|
      invariant -1 <= best < i
      invariant best == -1 <==> bestNode.None?
      invariant best == -1 ==> forall j | 0 <= j < i :: !Eligible(a, nodes[j])
      invariant best >= 0 ==> Eligible(a, nodes[best]) && bestNode == nodes[best]
      invariant best >= 0 ==> maxScore == CandidateScore(a, nodes[best].value, pieces, httpMethod, rule)
      invariant best >= 0 ==> forall j | 0 <= j < i && Eligible(a, nodes[j]) ::
        CandidateScore(a, nodes[j].value, pieces, httpMethod, rule) <= maxScore
      invariant best >= 0 ==> forall j | 0 <= j < best && Eligible(a, nodes[j]) ::
        CandidateScore(a, nodes[j].value, pieces, httpMethod, rule) < maxScore
    {
      if nodes[i].None? {
        continue;
      }
      var node := nodes[i].value;
      if a[node].terminator.None? {
        continue;
      }
      var score: int := ScoreNode(a, node, pieces, 0);
      if !Unpenalised(a[a[node].terminator.value].methods, httpMethod, rule) {
        score := score - Pow10(|pieces| + 1);
      }
      if bestNode.None? || score > maxScore {
        maxScore := score;
        bestNode := Some(node);
        best := i;
      }
    }
    if bestNode.None? {
      return None;
    }
    picked := a[bestNode.value].terminator;
  }

  /**
   * A candidate that escapes the penalty always beats one that does not:
   * when any eligible candidate escapes it, so does the picked endpoint.
   * Under ExactMethodOnly that is the exact method; under MethodOrCatchAll
   * the method or "*", that is, an endpoint `route` can serve.
   */
  lemma UnpenalisedWins<H>(a: seq<Node<H>>, nodes: seq<Option<nat>>, pieces: seq<string>, httpMethod: string,
                           rule: PenaltyRule, r: Option<nat>, j: nat)
    requires Candidates(a, nodes, pieces) && Picked(a, nodes, pieces, httpMethod, rule, r)
    requires j < |nodes| && Eligible(a, nodes[j]) && Unpenalised(a[a[nodes[j].value].terminator.value].methods, httpMethod, rule)
    ensures r.Some? && r.value < |a| && Unpenalised(a[r.value].methods, httpMethod, rule)
  {
    var k :| 0 <= k < |nodes| && BestAt(a, nodes, pieces, httpMethod, rule, k) && r == a[nodes[k].value].terminator;
    var x := nodes[k].value;
    assert CandidateScore(a, nodes[j].value, pieces, httpMethod, rule) <= CandidateScore(a, x, pieces, httpMethod, rule);
    ScoreBelowPenalty(a, x, pieces);
  }

  /** Of two eligible candidates, pickNode takes the second only when it scores strictly higher. */
  lemma PickOfTwo<H>(a: seq<Node<H>>, x: nat, y: nat, pieces: seq<string>, httpMethod: string, rule: PenaltyRule, r: Option<nat>)
    requires Candidates(a, [Some(x), Some(y)], pieces)
    requires Eligible(a, Some(x)) && Eligible(a, Some(y))
    requires Ancestors(a, x) <= |pieces| && Ancestors(a, y) <= |pieces|
    requires Picked(a, [Some(x), Some(y)], pieces, httpMethod, rule, r)
    ensures r == if CandidateScore(a, y, pieces, httpMethod, rule) > CandidateScore(a, x, pieces, httpMethod, rule)
      then a[y].terminator else a[x].terminator
  {
    var nodes := [Some(x), Some(y)];
    assert Eligible(a, nodes[0]) && Eligible(a, nodes[1]);
    var k :| 0 <= k < |nodes| && BestAt(a, nodes, pieces, httpMethod, rule, k) && r == a[nodes[k].value].terminator;
    var first := CandidateScore(a, x, pieces, httpMethod, rule);
    var second := CandidateScore(a, y, pieces, httpMethod, rule);
    if k == 0 {
      assert second <= first;
    } else {
      assert first < second;
    }
  }

  /**
   * When two tied candidates both escape the penalty, pickNode returns the
   * one findNodes lists first: for the prefixes `/prefix/static` and
   * `/prefix/{id}`, which one serves GET /prefix/static depends on that
   * order alone.
   */
  lemma TieGoesToFirst<H>(a: seq<Node<H>>, x: nat, y: nat, pieces: seq<string>, httpMethod: string,
                          rule: PenaltyRule, r: Option<nat>)
    requires Candidates(a, [Some(x), Some(y)], pieces)
    requires Eligible(a, Some(x)) && Eligible(a, Some(y))
    requires Ancestors(a, x) <= |pieces| && Ancestors(a, y) <= |pieces|
    requires ScoreNode(a, x, pieces, 0) == ScoreNode(a, y, pieces, 0)
    requires Unpenalised(a[a[x].terminator.value].methods, httpMethod, rule)
    requires Unpenalised(a[a[y].terminator.value].methods, httpMethod, rule)
    requires Picked(a, [Some(x), Some(y)], pieces, httpMethod, rule, r)
    ensures r == a[x].terminator
  {
    assert CandidateScore(a, x, pieces, httpMethod, rule) == CandidateScore(a, y, pieces, httpMethod, rule);
    PickOfTwo(a, x, y, pieces, httpMethod, rule, r);
  }

  // ---------------------------------------------------------------------
  // Two endpoints under the root: a static `v1` and a dynamic `{id}`
  // ---------------------------------------------------------------------

  /** The root (the zero key), the static endpoint `v1` and the dynamic endpoint `{id}`, with their tables. */
  function TwoEndpoints<H>(staticTable: map<string, H>, dynamicTable: map<string, H>): seq<Node<H>> {
    [ Node(None, Key("", false, false, false), None, map[]),
      Node(Some(0), Key("v1", false, false, false), Some(1), staticTable),
      Node(Some(0), Key("id", true, false, false), Some(2), dynamicTable) ]
  }

  /** The scores of the two endpoints for "/v1": 22 for `v1`, 21 for `{id}`. */
  lemma TwoEndpointScores<H>(staticTable: map<string, H>, dynamicTable: map<string, H>)
    ensures var a := TwoEndpoints(staticTable, dynamicTable);
      && ScoreNode(a, 1, ["v1"], 0) == 22
      && ScoreNode(a, 2, ["v1"], 0) == 21
      && Pow10(2) == 100
  {
    var a := TwoEndpoints(staticTable, dynamicTable);
    assert Pow10(1) == 10 && Pow10(2) == 100;
    assert ScoreNode(a, 0, [], 1) == 20;
  }

  /**
   * `/v1` with GET and `/{id}` with GET and POST: GET /v1 picks the static
   * endpoint (score 22 over 21); POST /v1 picks the dynamic one, the static
   * endpoint lacking POST (22 - 100 against 21).
   */
  lemma V1Example<H>(getStatic: H, getDynamic: H, postDynamic: H, get: Option<nat>, post: Option<nat>)
    requires var a := TwoEndpoints(map["GET" := getStatic], map["GET" := getDynamic, "POST" := postDynamic]);
      && Candidates(a, [Some(2), Some(1)], ["v1"])
      && Picked(a, [Some(2), Some(1)], ["v1"], "GET", ExactMethodOnly, get)
      && Picked(a, [Some(2), Some(1)], ["v1"], "POST", ExactMethodOnly, post)
    ensures get == Some(1)
    ensures post == Some(2)
  {
    var staticTable := map["GET" := getStatic];
    var dynamicTable := map["GET" := getDynamic, "POST" := postDynamic];
    var a := TwoEndpoints(staticTable, dynamicTable);
    var pieces := ["v1"];
    TwoEndpointScores(staticTable, dynamicTable);
    PickOfTwo(a, 2, 1, pieces, "GET", ExactMethodOnly, get);
    PickOfTwo(a, 2, 1, pieces, "POST", ExactMethodOnly, post);
    assert CandidateScore(a, 1, pieces, "GET", ExactMethodOnly) == 22;
    assert CandidateScore(a, 2, pieces, "GET", ExactMethodOnly) == 21;
    assert CandidateScore(a, 1, pieces, "POST", ExactMethodOnly) == -78;
    assert CandidateScore(a, 2, pieces, "POST", ExactMethodOnly) == 21;
  }

  /**
   * `/v1` with POST only and `/{id}` with a "*" handler only. For GET /v1,
   * pickNode as written picks `/v1` (22 - 100 against 21 - 100), whose
   * table has neither GET nor "*", although `/{id}` serves every method.
   */
  lemma CatchAllLoses<H>(postStatic: H, any: H, r: Option<nat>)
    requires var a := TwoEndpoints(map["POST" := postStatic], map["*" := any]);
      && Candidates(a, [Some(1), Some(2)], ["v1"])
      && Picked(a, [Some(1), Some(2)], ["v1"], "GET", ExactMethodOnly, r)
    ensures r == Some(1)
    ensures var a := TwoEndpoints(map["POST" := postStatic], map["*" := any]);
      && "GET" !in a[1].methods && "*" !in a[1].methods && "*" in a[2].methods
  {
    var staticTable := map["POST" := postStatic];
    var dynamicTable := map["*" := any];
    var a := TwoEndpoints(staticTable, dynamicTable);
    var pieces := ["v1"];
    TwoEndpointScores(staticTable, dynamicTable);
    PickOfTwo(a, 1, 2, pieces, "GET", ExactMethodOnly, r);
    assert CandidateScore(a, 1, pieces, "GET", ExactMethodOnly) == -78;
    assert CandidateScore(a, 2, pieces, "GET", ExactMethodOnly) == -79;
  }

  /** The same request under the intended penalty picks `/{id}`, which serves GET through "*". */
  lemma CatchAllWinsIntended<H>(postStatic: H, any: H, r: Option<nat>)
    requires var a := TwoEndpoints(map["POST" := postStatic], map["*" := any]);
      && Candidates(a, [Some(1), Some(2)], ["v1"])
      && Picked(a, [Some(1), Some(2)], ["v1"], "GET", MethodOrCatchAll, r)
    ensures r == Some(2)
  {
    var staticTable := map["POST" := postStatic];
    var dynamicTable := map["*" := any];
    var a := TwoEndpoints(staticTable, dynamicTable);
    var pieces := ["v1"];
    TwoEndpointScores(staticTable, dynamicTable);
    PickOfTwo(a, 1, 2, pieces, "GET", MethodOrCatchAll, r);
    assert CandidateScore(a, 1, pieces, "GET", MethodOrCatchAll) == -78;
    assert CandidateScore(a, 2, pieces, "GET", MethodOrCatchAll) == 21;
  }
}
