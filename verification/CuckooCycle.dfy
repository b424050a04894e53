/** The Cuckoo Cycle verifier of src/cuckoo_verify.rs.

    A proof lists edges of a bipartite graph.  Edge x has a U end at index
    2 * x and a V end at index 2 * x + 1 of the array of ends; two ends of the
    same side with equal values meet in one node.  The verifier walks from end
    0: find the one other end of the same node, cross its edge, repeat. */
module CuckooCycle {
  import opened Bitwise
  import opened Counting
  import opened Sequences

  const PROOF_SIZE: nat := 42
  const EDGE_MASK: nat := 0x1fff_ffff

  datatype VerifyError =
    | WrongProofSize(len: nat)
    | EdgeTooBig
    | EdgesNotAscending
    | NonMatchingEndpoints
    | Branch
    | DeadEnd
    | ShortCycle

  datatype Verdict = Accepted | Rejected(error: VerifyError)

  // ---- the graph ----

  /** Two different ends that meet in one node. */
  predicate Meet(ends: seq<nat>, i: nat, k: nat) {
    i < |ends| && k < |ends| && i != k && i % 2 == k % 2 && ends[i] == ends[k]
  }

  ghost predicate Lonely(ends: seq<nat>, i: nat) {
    i < |ends| && forall l: nat :: !Meet(ends, i, l)
  }

  ghost predicate Branches(ends: seq<nat>, i: nat) {
    exists k: nat, l: nat :: k != l && Meet(ends, i, k) && Meet(ends, i, l)
  }

  ghost predicate OnlyMate(ends: seq<nat>, i: nat, k: nat) {
    Meet(ends, i, k) && forall l :: Meet(ends, i, l) ==> l == k
  }

  /** The other end of the edge that end i belongs to. */
  function Across(i: nat): (r: nat)
    ensures r / 2 == i / 2 && r != i && r % 2 != i % 2
  {
    if i % 2 == 0 then i + 1 else i - 1
  }

  /** The node of end i has exactly two edge ends. */
  ghost predicate HasOnlyMate(ends: seq<nat>, i: nat) {
    exists k: nat :: OnlyMate(ends, i, k)
  }

  /** Every touched node has exactly two edge ends. */
  ghost predicate TwoRegular(ends: seq<nat>) {
    forall i: nat :: i < |ends| ==> HasOnlyMate(ends, i)
  }

  /** A set of edges that contains every edge sharing a node with one of its edges. */
  ghost predicate Closed(ends: seq<nat>, s: set<nat>) {
    forall i: nat, k: nat :: Meet(ends, i, k) && i / 2 in s ==> k / 2 in s
  }

  ghost predicate Connected(ends: seq<nat>) {
    forall s: set<nat> :: Closed(ends, s) && s != {} && s <= Below(|ends| / 2) ==> s == Below(|ends| / 2)
  }

  /** The edges form one simple cycle: a connected graph in which every node has degree two. */
  ghost predicate SingleCycle(ends: seq<nat>) {
    TwoRegular(ends) && Connected(ends)
  }

  // ---- walks ----

  ghost predicate IsWalk(ends: seq<nat>, w: seq<nat>) {
    && |w| > 0 && w[0] == 0
    && (forall t :: 0 <= t < |w| ==> w[t] < |ends|)
    && (forall t :: 0 < t < |w| ==> OnlyMate(ends, w[t - 1], Across(w[t])))
  }

  ghost predicate NoReturn(w: seq<nat>) {
    forall t :: 0 < t < |w| ==> w[t] != 0
  }

  lemma OnlyMateSymmetric(ends: seq<nat>, i: nat, k: nat)
    requires OnlyMate(ends, i, k)
    ensures OnlyMate(ends, k, i)
  {
    forall l | Meet(ends, k, l) ensures l == i {
      if l != i { assert Meet(ends, i, l); }
    }
  }

  lemma {:induction false} WalkAlternates(ends: seq<nat>, w: seq<nat>, t: nat)
    requires IsWalk(ends, w) && t < |w|
    ensures w[t] % 2 == t % 2
  {
    if t > 0 {
      WalkAlternates(ends, w, t - 1);
      assert OnlyMate(ends, w[t - 1], Across(w[t]));
    }
  }

  /** A walk that never comes back to end 0 never repeats an end. */
  lemma {:induction false} WalkNoRepeat(ends: seq<nat>, w: seq<nat>, a: nat, b: nat)
    requires IsWalk(ends, w) && NoReturn(w) && a < b < |w|
    ensures w[a] != w[b]
  {
    if a > 0 && w[a] == w[b] {
      assert OnlyMate(ends, w[a - 1], Across(w[a])) && OnlyMate(ends, w[b - 1], Across(w[b]));
      OnlyMateSymmetric(ends, w[a - 1], Across(w[a]));
      assert Meet(ends, Across(w[a]), w[b - 1]);
      WalkNoRepeat(ends, w, a - 1, b - 1);
    }
  }

  /** A walk never meets both ends of an edge: the stretch between them would fold onto itself. */
  lemma {:induction false} WalkNoFold(ends: seq<nat>, w: seq<nat>, a: nat, b: nat)
    requires IsWalk(ends, w) && a < b < |w|
    ensures w[b] != Across(w[a])
    decreases b - a
  {
    WalkAlternates(ends, w, a);
    WalkAlternates(ends, w, b);
    assert OnlyMate(ends, w[a], Across(w[a + 1]));
    assert OnlyMate(ends, w[b - 1], Across(w[b]));
    if w[b] == Across(w[a]) && a + 1 < b {
      OnlyMateSymmetric(ends, w[b - 1], w[a]);
      WalkNoFold(ends, w, a + 1, b - 1);
    }
  }

  lemma WalkDistinctEdges(ends: seq<nat>, w: seq<nat>, a: nat, b: nat)
    requires IsWalk(ends, w) && NoReturn(w) && a < b < |w|
    ensures w[a] / 2 != w[b] / 2
  {
    WalkNoRepeat(ends, w, a, b);
    WalkNoFold(ends, w, a, b);
  }

  ghost function EdgesOf(w: seq<nat>): set<nat> {
    set t | 0 <= t < |w| :: w[t] / 2
  }

  lemma {:induction false} EdgesOfSize(ends: seq<nat>, w: seq<nat>, n: nat)
    requires IsWalk(ends, w) && NoReturn(w) && n <= |w|
    ensures |EdgesOf(w[..n])| == n
  {
    if n == 0 {
      assert EdgesOf(w[..n]) == {};
    } else {
      EdgesOfSize(ends, w, n - 1);
      NewEdge(ends, w, n - 1);
      EdgesGrow(w, n - 1);
    }
  }

  lemma EdgesGrow(w: seq<nat>, n: nat)
    requires n < |w| && w[n] / 2 !in EdgesOf(w[..n])
    ensures |EdgesOf(w[..n + 1])| == |EdgesOf(w[..n])| + 1
  {
    EdgesOfAppend(w[..n], w[n]);
    assert w[..n + 1] == w[..n] + [w[n]];
  }

  /** Each step of a walk that has not come back visits an edge it has not visited. */
  lemma NewEdge(ends: seq<nat>, w: seq<nat>, n: nat)
    requires IsWalk(ends, w) && NoReturn(w) && n < |w|
    ensures w[n] / 2 !in EdgesOf(w[..n])
  {
    if w[n] / 2 in EdgesOf(w[..n]) {
      var t: nat :| t < n && w[..n][t] / 2 == w[n] / 2;
      WalkDistinctEdges(ends, w, t, n);
    }
  }

  lemma EdgesOfAppend(w: seq<nat>, i: nat)
    ensures EdgesOf(w + [i]) == EdgesOf(w) + {i / 2}
  {
    var more := w + [i];
    assert more[|w|] == i;
    forall x | x in EdgesOf(w) ensures x in EdgesOf(more) {
      var t :| 0 <= t < |w| && w[t] / 2 == x;
      assert more[t] / 2 == x;
    }
  }

  /** A walk that has not come back has visited at most as many edges as there are. */
  lemma WalkBounded(ends: seq<nat>, w: seq<nat>)
    requires IsWalk(ends, w) && NoReturn(w) && |ends| % 2 == 0
    ensures |w| <= |ends| / 2
    ensures EdgesOf(w) <= Below(|ends| / 2) && |EdgesOf(w)| == |w|
  {
    EdgesOfSize(ends, w, |w|);
    assert w[..|w|] == w;
    SubsetSize(EdgesOf(w), Below(|ends| / 2));
  }

  // ---- closed walks ----

  /** A walk of n steps that comes back to end 0 for the first time at its end. */
  ghost predicate IsLoop(ends: seq<nat>, w: seq<nat>, n: nat) {
    n > 0 && |w| == n + 1 && IsWalk(ends, w) && NoReturn(w[..n]) && w[n] == 0
  }

  lemma LoopPrefix(ends: seq<nat>, w: seq<nat>, n: nat)
    requires IsLoop(ends, w, n)
    ensures IsWalk(ends, w[..n])
  {
    forall t | 0 < t < n ensures OnlyMate(ends, w[..n][t - 1], Across(w[..n][t])) {
      assert OnlyMate(ends, w[t - 1], Across(w[t]));
    }
  }

  /** Both ends of an edge on a loop have an only mate, and it lies on the loop. */
  lemma LoopMates(ends: seq<nat>, w: seq<nat>, n: nat, t: nat, i: nat) returns (k: nat)
    requires IsLoop(ends, w, n) && t < n && i / 2 == w[t] / 2
    ensures OnlyMate(ends, i, k) && k / 2 in EdgesOf(w[..n])
  {
    if i == w[t] {
      k := Across(w[t + 1]);
      assert OnlyMate(ends, w[t], k);
      assert w[t + 1] / 2 == w[..n][if t + 1 == n then 0 else t + 1] / 2;
    } else {
      var before := if t == 0 then n - 1 else t - 1;
      k := w[before];
      assert OnlyMate(ends, w[before], Across(w[before + 1]));
      OnlyMateSymmetric(ends, w[before], i);
      assert k / 2 == w[..n][before] / 2;
    }
  }

  lemma LoopIsClosed(ends: seq<nat>, w: seq<nat>, n: nat)
    requires IsLoop(ends, w, n)
    ensures Closed(ends, EdgesOf(w[..n]))
  {
    forall i: nat, k: nat | Meet(ends, i, k) && i / 2 in EdgesOf(w[..n]) ensures k / 2 in EdgesOf(w[..n]) {
      var t :| 0 <= t < n && w[..n][t] / 2 == i / 2;
      var l := LoopMates(ends, w, n, t, i);
    }
  }

  /** A closed set that contains some edge of a loop contains the later ones. */
  lemma {:induction false} LoopSpreads(ends: seq<nat>, w: seq<nat>, n: nat, s: set<nat>, t: nat, u: nat)
    requires IsLoop(ends, w, n) && Closed(ends, s) && t <= u <= n && w[t] / 2 in s
    ensures w[u] / 2 in s
  {
    if t < u {
      LoopSpreads(ends, w, n, s, t, u - 1);
      assert OnlyMate(ends, w[u - 1], Across(w[u]));
      assert Meet(ends, w[u - 1], Across(w[u]));
    }
  }

  /** The edges form a single cycle exactly when the first loop from end 0 uses all of them. */
  lemma LoopDecides(ends: seq<nat>, w: seq<nat>, n: nat)
    requires IsLoop(ends, w, n) && |ends| % 2 == 0
    ensures n <= |ends| / 2
    ensures SingleCycle(ends) <==> n == |ends| / 2
  {
    var m := |ends| / 2;
    LoopPrefix(ends, w, n);
    WalkBounded(ends, w[..n]);
    LoopIsClosed(ends, w, n);
    assert w[..n][0] / 2 in EdgesOf(w[..n]);
    SubsetSize(EdgesOf(w[..n]), Below(m));
    if n == m {
      forall i: nat | i < |ends| ensures HasOnlyMate(ends, i) {
        assert i / 2 in EdgesOf(w[..n]);
        var t :| 0 <= t < n && w[..n][t] / 2 == i / 2;
        var k := LoopMates(ends, w, n, t, i);
      }
      forall s: set<nat> | Closed(ends, s) && s != {} && s <= Below(m) ensures s == Below(m) {
        LoopCovers(ends, w, n, s);
      }
    }
  }

  lemma LoopCovers(ends: seq<nat>, w: seq<nat>, n: nat, s: set<nat>)
    requires IsLoop(ends, w, n) && EdgesOf(w[..n]) == Below(n)
    requires Closed(ends, s) && s != {} && s <= Below(n)
    ensures s == Below(n)
  {
    var x :| x in s;
    assert x in EdgesOf(w[..n]);
    var t :| 0 <= t < n && w[..n][t] / 2 == x;
    LoopSpreads(ends, w, n, s, t, n);
    forall y | y in Below(n) ensures y in s {
      assert y in EdgesOf(w[..n]);
      var u :| 0 <= u < n && w[..n][u] / 2 == y;
      LoopSpreads(ends, w, n, s, 0, u);
    }
  }

  // ---- the verifier ----

  function NextSamePartitionIndex(index: nat, len: nat): (r: nat)
    requires index < len && len % 2 == 0
    ensures r < len && r % 2 == index % 2
    ensures r == index + 2 || (r < 2 && index + 2 >= len)
  {
    if index + 2 < len then index + 2 else index % 2
  }

  /** l lies on the way from i (excluded) to k (included), stepping right and wrapping round. */
  predicate Passed(i: nat, k: nat, l: nat) {
    if i < k then i < l <= k else k < i && (i < l || l <= k)
  }

  /** Scans the partition of end i once round.  j is its only mate, or i itself when it has none;
      branch says that two mates were seen. */
  method ScanPartition(uvs: seq<nat>, i: nat) returns (j: nat, branch: bool)
    requires |uvs| % 2 == 0 && i < |uvs|
    ensures j < |uvs|
    ensures branch ==> Branches(uvs, i)
    ensures !branch && j == i ==> Lonely(uvs, i)
    ensures !branch && j != i ==> OnlyMate(uvs, i, j)
  {
    j, branch := i, false;
    var k: nat := i;
    while true
      invariant j < |uvs| && k < |uvs| && k % 2 == i % 2
      invariant forall l: nat :: Meet(uvs, i, l) && Passed(i, k, l) ==> l == j
      invariant j != i ==> Meet(uvs, i, j) && Passed(i, k, j)
      decreases if k < i then i - k else i - k + |uvs|
    {
      ghost var last: nat := k;
      k := NextSamePartitionIndex(k, |uvs|);
      if k == i {
        assert forall l: nat :: Meet(uvs, i, l) ==> Passed(i, last, l);
        return;
      }
      assert forall l: nat :: l % 2 == i % 2 && Passed(i, k, l) && l < |uvs| ==> Passed(i, last, l) || l == k;
      if uvs[k] == uvs[i] {
        if j != i {
          assert Meet(uvs, i, k) && Meet(uvs, i, j) && k != j;
          return j, true;
        }
        j := k;
      }
    }
  }

  method VerifyCycleUvs(uvs: seq<nat>) returns (r: Verdict)
    requires |uvs| == 2 * PROOF_SIZE
    ensures r.Accepted? <==> SingleCycle(uvs)
    ensures r.Accepted? ==> exists w :: IsLoop(uvs, w, PROOF_SIZE)
    ensures r.Rejected? ==> r.error in {Branch, DeadEnd, ShortCycle}
    ensures r == Rejected(Branch) ==> exists i: nat :: Branches(uvs, i)
    ensures r == Rejected(DeadEnd) ==> exists i: nat :: Lonely(uvs, i)
    ensures r == Rejected(ShortCycle) ==> exists w, n: nat :: n < PROOF_SIZE && IsLoop(uvs, w, n)
  {
    var n, i := 0, 0;
    ghost var w: seq<nat> := [0];
    while true
      invariant i < |uvs| && |w| == n + 1 && w[n] == i
      invariant IsWalk(uvs, w) && NoReturn(w)
      invariant n < PROOF_SIZE
      decreases PROOF_SIZE - n
    {
      var j, branch := ScanPartition(uvs, i);
      if branch {
        Refutes(uvs, i);
        return Rejected(Branch);
      }
      if j == i {
        Refutes(uvs, i);
        return Rejected(DeadEnd);
      }
      i := Across(j);
      n := n + 1;
      WalkStep(uvs, w, i);
      w := w + [i];
      if n > PROOF_SIZE || i == 0 {
        break;
      }
    }
    r := if n == PROOF_SIZE then Accepted else Rejected(ShortCycle);
  }

  lemma Refutes(ends: seq<nat>, i: nat)
    requires Branches(ends, i) || Lonely(ends, i)
    ensures !SingleCycle(ends)
  {
    assert !HasOnlyMate(ends, i);
  }

  /** One more step of the walk: back at end 0 the number of steps decides; elsewhere there is room
      for another step, so the step count never passes the proof size. */
  lemma WalkStep(ends: seq<nat>, w: seq<nat>, i: nat)
    requires IsWalk(ends, w) && NoReturn(w) && |ends| % 2 == 0
    requires OnlyMate(ends, w[|w| - 1], Across(i)) && i < |ends|
    ensures IsWalk(ends, w + [i])
    ensures i == 0 ==> IsLoop(ends, w + [i], |w|) && |w| <= |ends| / 2 &&
                       (SingleCycle(ends) <==> |w| == |ends| / 2)
    ensures i != 0 ==> NoReturn(w + [i]) && |w| < |ends| / 2
  {
    ExtendWalk(ends, w, i);
    assert (w + [i])[..|w|] == w;
    if i == 0 {
      LoopDecides(ends, w + [i], |w|);
    } else {
      WalkBounded(ends, w + [i]);
    }
  }

  lemma ExtendWalk(ends: seq<nat>, w: seq<nat>, i: nat)
    requires IsWalk(ends, w) && OnlyMate(ends, w[|w| - 1], Across(i)) && i < |ends|
    ensures IsWalk(ends, w + [i])
  {
    var v := w + [i];
    forall t | 0 < t < |v| ensures OnlyMate(ends, v[t - 1], Across(v[t])) {
      if t < |w| { assert OnlyMate(ends, w[t - 1], Across(w[t])); }
    }
  }

  // ---- the endpoint precheck ----

  function XorAll(s: seq<nat>): nat {
    if s == [] then 0 else Xor(XorAll(s[..|s| - 1]), s[|s| - 1])
  }

  lemma XorAppend(s: seq<nat>, x: nat)
    ensures XorAll(s + [x]) == Xor(XorAll(s), x)
  {
    assert (s + [x])[..|s|] == s;
  }

  lemma {:induction false} XorRemove(s: seq<nat>, k: nat)
    requires k < |s|
    ensures XorAll(s) == Xor(XorAll(Without(s, k)), s[k])
  {
    var last := |s| - 1;
    if k == last {
      assert Without(s, k) == s[..last];
    } else {
      XorRemove(s[..last], k);
      WithoutFront(s, k);
      XorAppend(Without(s[..last], k), s[last]);
      XorSwap(XorAll(Without(s[..last], k)), s[k], s[last]);
    }
  }

  ghost predicate AllTwice(s: seq<nat>) {
    forall x :: x in multiset(s) ==> multiset(s)[x] == 2
  }

  lemma {:induction false} AllTwiceXor(s: seq<nat>)
    requires AllTwice(s)
    ensures XorAll(s) == 0
    decreases |s|
  {
    if s != [] {
      var last := |s| - 1;
      var x, front := s[last], s[..last];
      WithoutMultiset(s, last);
      assert Without(s, last) == front;
      assert x in multiset(s) && multiset(front)[x] == 1;
      var k :| 0 <= k < |front| && front[k] == x;
      XorRemove(front, k);
      WithoutMultiset(front, k);
      var rest := Without(front, k);
      forall y | y in multiset(rest) ensures multiset(rest)[y] == 2 {
        assert y in multiset(s);
        assert multiset(s)[y] == multiset(rest)[y] + if y == x then 2 else 0;
      }
      AllTwiceXor(rest);
      XorTwice(0, x);
    }
  }

  /** The ends of one side, in edge order. */
  function Side(ends: seq<nat>, side: nat): (r: seq<nat>)
    requires |ends| % 2 == 0 && side < 2
    ensures |r| == |ends| / 2
  {
    seq(|ends| / 2, x requires 0 <= x < |ends| / 2 => ends[2 * x + side])
  }

  lemma ExactlyTwice(s: seq<nat>, i: nat, k: nat)
    requires i < k < |s| && s[i] == s[k]
    requires forall l :: 0 <= l < |s| && s[l] == s[i] ==> l == i || l == k
    ensures multiset(s)[s[i]] == 2
  {
    WithoutMultiset(s, k);
    var rest := Without(s, k);
    WithoutMultiset(rest, i);
    assert s[i] !in Without(rest, i);
  }

  /** A two-regular graph passes the precheck on both sides. */
  lemma TwoRegularXor(ends: seq<nat>, side: nat)
    requires TwoRegular(ends) && |ends| % 2 == 0 && side < 2
    ensures XorAll(Side(ends, side)) == 0
  {
    var s := Side(ends, side);
    forall x | x in multiset(s) ensures multiset(s)[x] == 2 {
      var i :| 0 <= i < |s| && s[i] == x;
      assert HasOnlyMate(ends, 2 * i + side);
      var k: nat :| OnlyMate(ends, 2 * i + side, k);
      forall l | 0 <= l < |s| && s[l] == x ensures l == i || l == k / 2 {
        if l != i { assert Meet(ends, 2 * i + side, 2 * l + side); }
      }
      assert s[k / 2] == x;
      if i < k / 2 { ExactlyTwice(s, i, k / 2); } else { ExactlyTwice(s, k / 2, i); }
    }
    AllTwiceXor(s);
  }

  // ---- whole solutions ----

  ghost predicate Shaped(edges: seq<nat>) {
    |edges| == PROOF_SIZE && (forall x :: x in edges ==> x <= EDGE_MASK) && Ascending(edges)
  }

  method ValidateSolutionShape(edges: seq<nat>) returns (r: Verdict)
    ensures r.Accepted? <==> Shaped(edges)
    ensures r.Rejected? ==> r.error in {WrongProofSize(|edges|), EdgeTooBig, EdgesNotAscending}
    ensures r == Rejected(WrongProofSize(|edges|)) <==> |edges| != PROOF_SIZE
    ensures r == Rejected(EdgeTooBig) ==> exists x :: x in edges && x > EDGE_MASK
    ensures r == Rejected(EdgesNotAscending) ==> !Ascending(edges)
  {
    if |edges| != PROOF_SIZE {
      return Rejected(WrongProofSize(|edges|));
    }
    for i := 0 to |edges|
      invariant forall k :: 0 <= k < i ==> edges[k] <= EDGE_MASK
      invariant forall j, k :: 0 <= j < k < i ==> edges[j] < edges[k]
    {
      if edges[i] > EDGE_MASK {
        assert edges[i] in edges;
        return Rejected(EdgeTooBig);
      }
      if i > 0 && edges[i] <= edges[i - 1] {
        return Rejected(EdgesNotAscending);
      }
    }
    return Accepted;
  }

  /** The ends of the given edges, where node(x, side) is the node of edge x on that side. */
  function Ends(edges: seq<nat>, node: (nat, nat) -> nat): (r: seq<nat>)
    ensures |r| == 2 * |edges|
  {
    seq(2 * |edges|, i requires 0 <= i < 2 * |edges| => node(edges[i / 2], i % 2))
  }

  lemma XorStep(s: seq<nat>, n: nat)
    requires n < |s|
    ensures XorAll(s[..n + 1]) == Xor(XorAll(s[..n]), s[n])
  {
    assert s[..n + 1][..n] == s[..n];
  }

  lemma EndsStep(edges: seq<nat>, node: (nat, nat) -> nat, x: nat)
    requires x < |edges|
    ensures var ends, u, v := Ends(edges, node), node(edges[x], 0), node(edges[x], 1);
      && ends[..2 * x + 2] == ends[..2 * x] + [u, v]
      && Side(ends, 0)[x] == u && Side(ends, 1)[x] == v
  {
    var ends := Ends(edges, node);
    assert ends[2 * x] == node(edges[x], 0) && ends[2 * x + 1] == node(edges[x], 1);
  }

  method BuildEnds(edges: seq<nat>, node: (nat, nat) -> nat) returns (uvs: seq<nat>, xor0: nat, xor1: nat)
    ensures uvs == Ends(edges, node)
    ensures xor0 == XorAll(Side(uvs, 0)) && xor1 == XorAll(Side(uvs, 1))
  {
    ghost var ends := Ends(edges, node);
    ghost var us, vs := Side(ends, 0), Side(ends, 1);
    uvs, xor0, xor1 := [], 0, 0;
    for x := 0 to |edges|
      invariant uvs == ends[..2 * x]
      invariant xor0 == XorAll(us[..x]) && xor1 == XorAll(vs[..x])
    {
      var u, v := node(edges[x], 0), node(edges[x], 1);
      XorStep(us, x);
      XorStep(vs, x);
      EndsStep(edges, node, x);
      uvs := uvs + [u, v];
      xor0, xor1 := Xor(xor0, u), Xor(xor1, v);
    }
    assert uvs == ends && us[..|edges|] == us && vs[..|edges|] == vs;
  }

  /** Accepts exactly the well-shaped solutions whose edges form a single cycle. */
  method VerifyEdges(edges: seq<nat>, node: (nat, nat) -> nat) returns (r: Verdict)
    ensures r.Accepted? <==> Shaped(edges) && SingleCycle(Ends(edges, node))
    ensures r == Rejected(NonMatchingEndpoints) <==>
              Shaped(edges) && (XorAll(Side(Ends(edges, node), 0)) != 0 || XorAll(Side(Ends(edges, node), 1)) != 0)
  {
    r := ValidateSolutionShape(edges);
    if r.Rejected? {
      return;
    }
    var uvs, xor0, xor1 := BuildEnds(edges, node);
    if TwoRegular(uvs) {
      TwoRegularXor(uvs, 0);
      TwoRegularXor(uvs, 1);
    }
    if xor0 != 0 || xor1 != 0 {
      return Rejected(NonMatchingEndpoints);
    }
    r := VerifyCycleUvs(uvs);
  }
}
