/** The skeleton node array of a model asset: the checker's local tests, and what
    they certify together. The array is claimed to be a tree in topological order
    whose child lists are contiguous blocks. */
module Skeleton {
  import opened Options

  type Byte = n: int | 0 <= n < 256

  const NO_PARENT: Byte := 255
  const MAX_NODES := 1024

  // One 64-byte node record, reduced to its four index bytes.
  datatype Node = Node(parent: Byte, own: Byte, firstChild: Byte, childCount: Byte)

  // What one asset contributes to the checker's tallies.
  datatype Verdict = Verdict(rootSentinel: bool, selfIndexed: bool, topological: bool, childSum: bool,
                             blocksInRange: bool, blockParents: bool, links: nat)

  // ---- the local tests, as statements about the array -------------------------

  ghost predicate SelfIndexed(s: seq<Node>) {
    forall k :: 0 <= k < |s| ==> s[k].own == k % 256
  }

  ghost predicate Topological(s: seq<Node>) {
    forall k :: 0 < k < |s| ==> s[k].parent < k
  }

  function ChildTotal(s: seq<Node>, n: nat): nat
    requires n <= |s|
  {
    if n == 0 then 0 else ChildTotal(s, n - 1) + s[n - 1].childCount
  }

  ghost predicate BlockFits(s: seq<Node>, k: nat)
    requires k < |s|
  {
    s[k].childCount == 0 || k + s[k].firstChild + s[k].childCount <= |s|
  }

  // j lies in the child block node k points at.
  predicate InBlock(s: seq<Node>, k: nat, j: int)
    requires k < |s|
  {
    k + s[k].firstChild <= j < k + s[k].firstChild + s[k].childCount
  }

  ghost predicate BlocksInRange(s: seq<Node>) {
    forall k :: 0 <= k < |s| ==> BlockFits(s, k)
  }

  // Every node of k's block names k, cast to a byte, as its parent.
  ghost predicate PointsBack(s: seq<Node>, k: nat)
    requires k < |s|
  {
    forall j :: 0 <= j < |s| && InBlock(s, k, j) ==> s[j].parent == k % 256
  }

  // Only blocks that fit are compared.
  ghost predicate BlockParents(s: seq<Node>) {
    forall k :: 0 <= k < |s| && BlockFits(s, k) ==> PointsBack(s, k)
  }

  function FittingLinks(s: seq<Node>, n: nat): nat
    requires n <= |s|
  {
    if n == 0 then 0
    else if n - 1 + s[n - 1].firstChild + s[n - 1].childCount > |s| then FittingLinks(s, n - 1)
    else FittingLinks(s, n - 1) + s[n - 1].childCount
  }

  // All five tests of the certificate pass.
  ghost predicate Certified(s: seq<Node>) {
    && 0 < |s|
    && s[0].parent == NO_PARENT
    && Topological(s)
    && ChildTotal(s, |s|) + 1 == |s|
    && BlocksInRange(s)
    && BlockParents(s)
  }

  /** The checker's two passes over one asset's records. */
  method CheckNodes(s: seq<Node>) returns (v: Verdict)
    requires 0 < |s| <= MAX_NODES
    ensures v.rootSentinel <==> s[0].parent == NO_PARENT
    ensures v.selfIndexed <==> SelfIndexed(s)
    ensures v.topological <==> Topological(s)
    ensures v.childSum <==> ChildTotal(s, |s|) + 1 == |s|
    ensures v.blocksInRange <==> BlocksInRange(s)
    ensures v.blockParents <==> BlockParents(s)
    ensures v.links == FittingLinks(s, |s|)
    ensures Certified(s) <==> v.rootSentinel && v.topological && v.childSum && v.blocksInRange && v.blockParents
  {
    var indexOk, topoOk, children := true, true, 0;
    for k := 0 to |s|
      invariant indexOk <==> forall i :: 0 <= i < k ==> s[i].own == i % 256
      invariant topoOk <==> forall i :: 0 < i < k ==> s[i].parent < i
      invariant children == ChildTotal(s, k)
    {
      if s[k].own != k % 256 {
        indexOk := false;
      }
      if k > 0 && s[k].parent >= k {
        topoOk := false;
      }
      children := children + s[k].childCount;
    }
    var rangeOk, parentsOk, links := true, true, 0;
    for k := 0 to |s|
      invariant rangeOk <==> forall i :: 0 <= i < k ==> BlockFits(s, i)
      invariant parentsOk <==> forall i :: 0 <= i < k && BlockFits(s, i) ==> PointsBack(s, i)
      invariant links == FittingLinks(s, k)
    {
      var count := s[k].childCount;
      if count == 0 {
        assert BlockFits(s, k) && PointsBack(s, k);
        continue;
      }
      var start := k + s[k].firstChild;
      if start + count > |s| {
        assert !BlockFits(s, k);
        rangeOk := false;
        continue;
      }
      ghost var before := parentsOk;
      for j := 0 to count
        invariant links == FittingLinks(s, k) + j
        invariant parentsOk <==> before && forall i :: start <= i < start + j ==> s[i].parent == k % 256
      {
        links := links + 1;
        if s[start + j].parent != k % 256 {
          parentsOk := false;
        }
      }
      assert BlockFits(s, k);
      assert PointsBack(s, k) <==> forall i :: start <= i < start + count ==> s[i].parent == k % 256;
    }
    v := Verdict(s[0].parent == NO_PARENT, indexOk, topoOk, children + 1 == |s|, rangeOk, parentsOk, links);
  }

  // ---- what the certificate means ------------------------------------------------

  /** The array is a tree: every non-root node lies in the block of its recorded
      parent and in no other, and no block holds the root. */
  ghost predicate IsTree(s: seq<Node>) {
    && 0 < |s|
    && (forall j :: 0 < j < |s| ==> s[j].parent < j)
    && (forall k, j :: 0 <= k < |s| && 0 <= j < |s| ==> (InBlock(s, k, j) <==> j > 0 && s[j].parent == k))
    && (forall k, j :: 0 <= k < |s| && InBlock(s, k, j) ==> j < |s|)
  }

  // The indices claimed as children by the first m nodes.
  ghost function Claimed(s: seq<Node>, m: nat): set<int>
    requires m <= |s|
  {
    if m == 0 then {} else Claimed(s, m - 1) + Block(s, m - 1)
  }

  ghost function Block(s: seq<Node>, k: nat): (b: set<int>)
    requires k < |s|
    ensures |b| == s[k].childCount && forall j :: j in b <==> InBlock(s, k, j)
  {
    Interval(k + s[k].firstChild, s[k].childCount)
  }

  ghost function Interval(lo: int, n: nat): (b: set<int>)
    ensures |b| == n
    ensures forall j :: j in b <==> lo <= j < lo + n
  {
    if n == 0 then {} else Interval(lo, n - 1) + {lo + n - 1}
  }

  // In a small certified array a child's recorded parent is the claiming node itself.
  lemma ClaimIsParent(s: seq<Node>, k: nat, j: int)
    requires Certified(s) && |s| <= 256
    requires k < |s| && InBlock(s, k, j)
    ensures 0 < j < |s| && s[j].parent == k
  {
    assert BlockFits(s, k);
    assert s[j].parent == k % 256;
  }

  // Blocks are pairwise disjoint, so their sizes add up.
  lemma {:induction false} ClaimedSize(s: seq<Node>, m: nat)
    requires Certified(s) && |s| <= 256 && m <= |s|
    ensures |Claimed(s, m)| == ChildTotal(s, m)
    ensures forall j :: j in Claimed(s, m) ==> 0 < j < |s| && s[j].parent < m
  {
    if m > 0 {
      ClaimedSize(s, m - 1);
      var b := Block(s, m - 1);
      forall j | j in b
        ensures 0 < j < |s| && s[j].parent == m - 1
      {
        ClaimIsParent(s, m - 1, j);
      }
      assert Claimed(s, m - 1) !! b;
    }
  }

  lemma SubsetOfEqualSize(a: set<int>, b: set<int>)
    requires a <= b && |a| == |b|
    ensures a == b
  {
    assert b == a + (b - a);
  }

  lemma {:induction false} ClaimedHasClaimant(s: seq<Node>, m: nat, j: int) returns (k: nat)
    requires m <= |s| && j in Claimed(s, m)
    ensures k < m && InBlock(s, k, j)
  {
    if j in Block(s, m - 1) {
      k := m - 1;
    } else {
      k := ClaimedHasClaimant(s, m - 1, j);
    }
  }

  /** Up to 256 nodes the five local tests certify a tree: the disjoint blocks have
      |s| - 1 members in all, so they cover every non-root node. */
  lemma CertifiedIsTree(s: seq<Node>)
    requires Certified(s) && |s| <= 256
    ensures IsTree(s)
  {
    var n := |s|;
    var nonRoot := Interval(1, n - 1);
    ClaimedSize(s, n);
    SubsetOfEqualSize(Claimed(s, n), nonRoot);
    forall k: nat, j | k < n && InBlock(s, k, j)
      ensures 0 < j < n && s[j].parent == k
    {
      ClaimIsParent(s, k, j);
    }
    forall j: nat | 0 < j < n
      ensures InBlock(s, s[j].parent, j)
    {
      assert j in nonRoot;
      var k := ClaimedHasClaimant(s, n, j);
    }
  }

  // ---- the bound is exact ------------------------------------------------------

  /** An array every test accepts although node 256 is its own child: the byte cast
      of 256 is 0, the parent it records. */
  function Impostor(n: nat): (s: seq<Node>)
    requires n > 256
    ensures |s| == n
  {
    seq(n, k requires 0 <= k < n =>
      if k == 0 then Node(255, 0, 1, 255)
      else if k == 2 && n > 257 then Node(0, 2, 255, 1)
      else if k < 256 then Node(0, k, 0, 0)
      else if k == 256 then Node(0, 0, 0, 1)
      else Node(if k == 257 then 2 else (k - 1) % 256, k % 256, 1, if k < n - 1 then 1 else 0))
  }

  lemma {:induction false} ImpostorTotal(n: nat, m: nat)
    requires n > 256 && m <= n
    ensures ChildTotal(Impostor(n), m)
         == (if m == 0 then 0 else 255) + (if m > 2 && n > 257 then 1 else 0) + (if m > 256 then 1 else 0)
          + (if m <= 257 then 0 else if m < n then m - 257 else n - 258)
  {
    if m > 0 {
      ImpostorTotal(n, m - 1);
    }
  }

  lemma ImpostorPasses(n: nat)
    requires n > 256
    ensures Certified(Impostor(n)) && SelfIndexed(Impostor(n)) && !IsTree(Impostor(n))
  {
    var s := Impostor(n);
    ImpostorTotal(n, n);
    assert InBlock(s, 256, 256) && s[256].parent == 0;
    assert forall k, j :: 0 <= k < n && 0 <= j < n && InBlock(s, k, j) ==> s[j].parent == k % 256;
  }

  /** Passing the tests certifies a tree at exactly the sizes up to 256, although the
      checker examines assets of up to 1024 nodes. */
  lemma CertificateBound(n: nat)
    requires 0 < n <= MAX_NODES
    ensures (forall s: seq<Node> :: |s| == n && Certified(s) ==> IsTree(s)) <==> n <= 256
  {
    if n <= 256 {
      forall s: seq<Node> | |s| == n && Certified(s)
        ensures IsTree(s)
      {
        CertifiedIsTree(s);
      }
    } else {
      ImpostorPasses(n);
      assert |Impostor(n)| == n;
    }
  }

  /** In a tree each stored child count is the true number of nodes naming k as parent. */
  lemma ChildCountIsTrue(s: seq<Node>, k: nat)
    requires IsTree(s) && k < |s|
    ensures |set j | 0 < j < |s| && s[j].parent == k| == s[k].childCount
  {
    assert Block(s, k) == set j | 0 < j < |s| && s[j].parent == k;
  }

  // ---- parent chains -----------------------------------------------------------

  /** The nodes from k up to the root, by recorded parents. */
  function Chain(s: seq<Node>, k: nat): (path: seq<nat>)
    requires k < |s| && forall j :: 0 < j < |s| ==> s[j].parent < j
    ensures 0 < |path| <= k + 1 && path[0] == k && path[|path| - 1] == 0
    decreases k
  {
    if k == 0 then [0] else [k] + Chain(s, s[k].parent)
  }

  /** The walk from a node to the root: it stops at the 255 sentinel, and gives up on
      a parent that is not an earlier node or when the buffer has no room left. */
  function Climb(s: seq<Node>, cur: nat, room: nat): Option<seq<nat>>
    requires cur < |s|
  {
    if room == 0 then None
    else if s[cur].parent == NO_PARENT then Some([cur])
    else if s[cur].parent >= |s| || s[cur].parent >= cur then None
    else Prepend([cur], Climb(s, s[cur].parent, room - 1))
  }

  function Prepend(head: seq<nat>, tail: Option<seq<nat>>): Option<seq<nat>> {
    if tail.None? then None else Some(head + tail.value)
  }

  method PathToRoot(s: seq<Node>, index: nat) returns (r: Option<seq<nat>>)
    requires |s| <= MAX_NODES
    ensures r == if index < |s| then Climb(s, index, |s|) else None
  {
    if index >= |s| {
      return None;
    }
    var path: seq<nat>, cur: nat := [], index;
    ghost var whole := Climb(s, index, |s|);
    assert whole.Some? ==> path + whole.value == whole.value;
    while |path| < |s|
      invariant cur < |s| && |path| <= |s|
      invariant Climb(s, index, |s|) == Prepend(path, Climb(s, cur, |s| - |path|))
      decreases |s| - |path|
    {
      ghost var tail := Climb(s, cur, |s| - |path|);
      var parent := s[cur].parent;
      if parent == NO_PARENT {
        return Some(path + [cur]);
      }
      if parent >= |s| || parent >= cur {
        return None;
      }
      ghost var rest := Climb(s, parent, |s| - |path| - 1);
      assert rest.Some? ==> path + ([cur] + rest.value) == (path + [cur]) + rest.value;
      path, cur := path + [cur], parent;
    }
    return None;
  }

  /** On any data a path the walk returns starts at the node, follows recorded parents
      strictly downwards and ends at a sentinel. */
  lemma {:induction false} ClimbIsSound(s: seq<Node>, cur: nat, room: nat)
    requires cur < |s| && Climb(s, cur, room).Some?
    ensures var path := Climb(s, cur, room).value;
            && 0 < |path| <= room && path[0] == cur
            && (forall i :: 0 <= i < |path| ==> path[i] < |s|)
            && (forall i :: 0 <= i < |path| - 1 ==> path[i + 1] < path[i] && path[i + 1] == s[path[i]].parent)
            && s[path[|path| - 1]].parent == NO_PARENT
  {
    if s[cur].parent != NO_PARENT {
      ClimbIsSound(s, s[cur].parent, room - 1);
    }
  }

  /** In a certified array of up to 256 nodes the walk always succeeds, and its path is
      the parent chain down to node 0. */
  lemma {:induction false} ClimbReachesRoot(s: seq<Node>, cur: nat, room: nat)
    requires Certified(s) && |s| <= 256 && cur < |s| && cur < room
    ensures Climb(s, cur, room) == Some(Chain(s, cur))
  {
    if cur > 0 {
      assert s[cur].parent < cur;
      ClimbReachesRoot(s, s[cur].parent, room - 1);
    }
  }

  // ---- accumulated transforms ----------------------------------------------------

  /** A node's accumulated transform, by recursion up its parent chain. */
  function World<T>(s: seq<Node>, local: seq<T>, compose: (T, T) -> T, k: nat): T
    requires |local| == |s| && k < |s| && forall j :: 0 < j < |s| ==> s[j].parent < j
    decreases k
  {
    if k == 0 then local[0] else compose(World(s, local, compose, s[k].parent), local[k])
  }

  /** Topological order makes one forward pass compute every accumulated transform. */
  method ForwardPass<T>(s: seq<Node>, local: seq<T>, compose: (T, T) -> T) returns (world: seq<T>)
    requires 0 < |s| == |local| && Topological(s)
    ensures |world| == |s| && forall k :: 0 <= k < |s| ==> world[k] == World(s, local, compose, k)
  {
    world := [local[0]];
    for k := 1 to |s|
      invariant |world| == k
      invariant forall i :: 0 <= i < k ==> world[i] == World(s, local, compose, i)
    {
      world := world + [compose(world[s[k].parent], local[k])];
    }
  }

  /** The recursive descent through child blocks from node k carrying its transform. */
  function Descend<T>(s: seq<Node>, local: seq<T>, compose: (T, T) -> T, k: nat, acc: T): map<nat, T>
    requires IsTree(s) && |local| == |s| && k < |s|
    decreases |s| - k, 0
  {
    map[k := acc] + DescendBlock(s, local, compose, k, acc, s[k].childCount)
  }

  // The first c children of k.
  function DescendBlock<T>(s: seq<Node>, local: seq<T>, compose: (T, T) -> T, k: nat, acc: T, c: nat): map<nat, T>
    requires IsTree(s) && |local| == |s| && k < |s| && c <= s[k].childCount
    decreases |s| - k - 1, c
  {
    if c == 0 then map[]
    else
      var child := k + s[k].firstChild + c - 1;
      assert InBlock(s, k, child);
      DescendBlock(s, local, compose, k, acc, c - 1) + Descend(s, local, compose, child, compose(acc, local[child]))
  }

  // Some one of k's first c children is an ancestor-or-self of j.
  ghost predicate UnderBlock(s: seq<Node>, k: nat, c: nat, j: nat)
    requires IsTree(s) && k < |s| && j < |s|
  {
    exists i: nat :: k + s[k].firstChild <= i < k + s[k].firstChild + c && i in Chain(s, j)
  }

  // An ancestor of j other than j itself is reached through one of its children.
  lemma {:induction false} ThroughChild(s: seq<Node>, k: nat, j: nat)
    requires IsTree(s) && k < |s| && j < |s|
    ensures k in Chain(s, j) <==> j == k || UnderBlock(s, k, s[k].childCount, j)
    decreases j
  {
    if j > 0 {
      var p := s[j].parent;
      ThroughChild(s, k, p);
      if p == k {
        assert InBlock(s, k, j) && j in Chain(s, j);
      } else {
        assert !InBlock(s, k, j);
        assert forall i: nat :: i != j ==> (i in Chain(s, j) <==> i in Chain(s, p));
      }
    } else {
      assert !InBlock(s, k, 0);
    }
  }

  lemma UnderOneMore(s: seq<Node>, k: nat, c: nat, j: nat)
    requires IsTree(s) && k < |s| && j < |s| && c > 0
    ensures UnderBlock(s, k, c, j) <==> UnderBlock(s, k, c - 1, j) || k + s[k].firstChild + c - 1 in Chain(s, j)
  {
  }

  lemma {:induction false} DescendBlockVisits<T>(s: seq<Node>, local: seq<T>, compose: (T, T) -> T, k: nat, acc: T, c: nat, j: nat)
    requires IsTree(s) && |local| == |s| && k < |s| && c <= s[k].childCount
    ensures j in DescendBlock(s, local, compose, k, acc, c) <==> j < |s| && UnderBlock(s, k, c, j)
    decreases |s| - k - 1, c
  {
    if c > 0 {
      var child := k + s[k].firstChild + c - 1;
      assert InBlock(s, k, child);
      DescendBlockVisits(s, local, compose, k, acc, c - 1, j);
      DescendVisits(s, local, compose, child, compose(acc, local[child]), j);
      if j < |s| {
        UnderOneMore(s, k, c, j);
      }
    }
  }

  lemma {:induction false} DescendVisits<T>(s: seq<Node>, local: seq<T>, compose: (T, T) -> T, k: nat, acc: T, j: nat)
    requires IsTree(s) && |local| == |s| && k < |s|
    ensures j in Descend(s, local, compose, k, acc) <==> j < |s| && k in Chain(s, j)
    decreases |s| - k, 0
  {
    DescendBlockVisits(s, local, compose, k, acc, s[k].childCount, j);
    if j < |s| {
      ThroughChild(s, k, j);
    }
  }

  lemma {:induction false} DescendBlockValue<T>(s: seq<Node>, local: seq<T>, compose: (T, T) -> T, k: nat, c: nat, j: nat)
    requires IsTree(s) && |local| == |s| && k < |s| && c <= s[k].childCount && j < |s|
    requires j in DescendBlock(s, local, compose, k, World(s, local, compose, k), c)
    ensures DescendBlock(s, local, compose, k, World(s, local, compose, k), c)[j] == World(s, local, compose, j)
    decreases |s| - k - 1, c
  {
    var acc, child := World(s, local, compose, k), k + s[k].firstChild + c - 1;
    assert InBlock(s, k, child);
    assert World(s, local, compose, child) == compose(acc, local[child]);
    if j in Descend(s, local, compose, child, compose(acc, local[child])) {
      DescendValue(s, local, compose, child, j);
    } else {
      DescendBlockValue(s, local, compose, k, c - 1, j);
    }
  }

  lemma {:induction false} DescendValue<T>(s: seq<Node>, local: seq<T>, compose: (T, T) -> T, k: nat, j: nat)
    requires IsTree(s) && |local| == |s| && k < |s| && j < |s|
    requires j in Descend(s, local, compose, k, World(s, local, compose, k))
    ensures Descend(s, local, compose, k, World(s, local, compose, k))[j] == World(s, local, compose, j)
    decreases |s| - k, 0
  {
    if j in DescendBlock(s, local, compose, k, World(s, local, compose, k), s[k].childCount) {
      DescendBlockValue(s, local, compose, k, s[k].childCount, j);
    }
  }

  /** The recursive descent from k visits exactly the nodes below k, and gives each the
      transform its parent chain gives it. */
  lemma DescendIsWorld<T>(s: seq<Node>, local: seq<T>, compose: (T, T) -> T, k: nat)
    requires IsTree(s) && |local| == |s| && k < |s|
    ensures var m := Descend(s, local, compose, k, World(s, local, compose, k));
            && (forall j: nat :: j in m <==> j < |s| && k in Chain(s, j))
            && (forall j: nat :: j in m ==> m[j] == World(s, local, compose, j))
  {
    var m := Descend(s, local, compose, k, World(s, local, compose, k));
    forall j: nat
      ensures j in m <==> j < |s| && k in Chain(s, j)
    {
      DescendVisits(s, local, compose, k, World(s, local, compose, k), j);
    }
    forall j: nat | j in m
      ensures m[j] == World(s, local, compose, j)
    {
      DescendValue(s, local, compose, k, j);
    }
  }

  /** Descending the child blocks from the root reaches every node of a certified array,
      with the very transforms the forward pass stores. */
  lemma DescentAgreesWithForwardPass<T>(s: seq<Node>, local: seq<T>, compose: (T, T) -> T, world: seq<T>)
    requires Certified(s) && |s| <= 256 && |local| == |s| == |world|
    requires forall k :: 0 <= k < |s| ==> world[k] == World(s, local, compose, k)
    ensures IsTree(s)
    ensures var m := Descend(s, local, compose, 0, local[0]);
            && (forall j: nat :: j in m <==> j < |s|)
            && (forall j: nat :: j < |s| ==> m[j] == world[j])
  {
    CertifiedIsTree(s);
    DescendIsWorld(s, local, compose, 0);
    forall j: nat | j < |s|
      ensures 0 in Chain(s, j)
    {
      var path := Chain(s, j);
      assert path[|path| - 1] == 0;
    }
  }
}
