/** The three walks over one bucket of the intrusive object lists: counting,
    in-place iteration and snapshotting. The memory may be corrupt, cyclic or
    unreadable anywhere; an object is identified with the address of its link. */
module Walks {
  import opened Options

  type Addr = nat

  // The fields a walk reads of one list node. None is a read that faults.
  datatype Cell = Cell(next: Option<Addr>, kind: Option<nat>, body: Option<Body>)

  // The plain fields a snapshot copies.
  datatype Body = Body(vtable: nat, handle: nat, position: seq<real>, rotation: seq<real>)

  datatype Snapshot = Snapshot(address: Addr, kind: nat, body: Body)

  type Heap = map<Addr, Cell>

  function NextOf(h: Heap, a: Addr): Option<Addr> {
    if a in h then h[a].next else None
  }

  function KindOf(h: Heap, a: Addr): Option<nat> {
    if a in h then h[a].kind else None
  }

  function BodyOf(h: Heap, a: Addr): Option<Body> {
    if a in h then h[a].body else None
  }

  // ---- what a clean bucket is ----------------------------------------------------

  // From cur, the links pass through exactly these well-typed nodes and come back to head.
  ghost predicate Path(h: Heap, head: Addr, cur: Addr, kind: nat, nodes: seq<Addr>)
    decreases |nodes|
  {
    if nodes == [] then cur == head
    else
      && cur == nodes[0] && cur != head
      && KindOf(h, cur) == Some(kind)
      && NextOf(h, cur).Some?
      && Path(h, head, NextOf(h, cur).value, kind, nodes[1..])
  }

  /** The bucket is a ring: head, then nodes in order, then head again. */
  ghost predicate Ring(h: Heap, head: Addr, kind: nat, nodes: seq<Addr>) {
    NextOf(h, head).Some? && Path(h, head, NextOf(h, head).value, kind, nodes)
  }

  // ---- the walk all three perform ----------------------------------------------------

  // The nodes seen from cur on, or None: a fault, a mistyped node, or more than room nodes.
  function WalkFrom(h: Heap, head: Addr, cur: Addr, kind: nat, room: nat): Option<seq<Addr>>
    decreases room
  {
    if cur == head then Some([])
    else if room == 0 || KindOf(h, cur) != Some(kind) || NextOf(h, cur).None? then None
    else Prepend([cur], WalkFrom(h, head, NextOf(h, cur).value, kind, room - 1))
  }

  function Walk(h: Heap, head: Addr, kind: nat, cap: nat): Option<seq<Addr>> {
    if NextOf(h, head).None? then None else WalkFrom(h, head, NextOf(h, head).value, kind, cap)
  }

  function Prepend<T>(front: seq<T>, rest: Option<seq<T>>): Option<seq<T>> {
    if rest.None? then None else Some(front + rest.value)
  }

  lemma {:induction false} WalkFromExact(h: Heap, head: Addr, cur: Addr, kind: nat, room: nat, nodes: seq<Addr>)
    ensures WalkFrom(h, head, cur, kind, room) == Some(nodes) <==> Path(h, head, cur, kind, nodes) && |nodes| <= room
    decreases room
  {
    if cur == head {
    } else if room > 0 && NextOf(h, cur).Some? && KindOf(h, cur) == Some(kind) {
      var next := NextOf(h, cur).value;
      var rest := WalkFrom(h, head, next, kind, room - 1);
      if nodes != [] {
        WalkFromExact(h, head, next, kind, room - 1, nodes[1..]);
        assert nodes == [nodes[0]] + nodes[1..];
        assert rest.Some? ==> ([cur] + rest.value)[1..] == rest.value;
      }
    }
  }

  // Two equal nodes would make the remaining path both end and not end at the same step.
  lemma {:induction false} PathSuffix(h: Heap, head: Addr, cur: Addr, kind: nat, nodes: seq<Addr>, i: nat)
    requires Path(h, head, cur, kind, nodes) && i < |nodes|
    ensures Path(h, head, nodes[i], kind, nodes[i..])
    decreases i
  {
    if i > 0 {
      PathSuffix(h, head, NextOf(h, cur).value, kind, nodes[1..], i - 1);
      assert nodes[1..][i - 1..] == nodes[i..];
    } else {
      assert nodes[0..] == nodes;
    }
  }

  lemma {:induction false} PathUnique(h: Heap, head: Addr, cur: Addr, kind: nat, p: seq<Addr>, q: seq<Addr>)
    requires Path(h, head, cur, kind, p) && Path(h, head, cur, kind, q)
    ensures p == q
    decreases |p|
  {
    if p != [] && q != [] {
      PathUnique(h, head, NextOf(h, cur).value, kind, p[1..], q[1..]);
      assert p == [p[0]] + p[1..] && q == [q[0]] + q[1..];
    }
  }

  lemma PathDistinct(h: Heap, head: Addr, cur: Addr, kind: nat, nodes: seq<Addr>)
    requires Path(h, head, cur, kind, nodes)
    ensures forall i, j :: 0 <= i < j < |nodes| ==> nodes[i] != nodes[j]
    ensures head !in nodes
  {
    forall i, j | 0 <= i < j < |nodes|
      ensures nodes[i] != nodes[j]
    {
      PathSuffix(h, head, cur, kind, nodes, i);
      PathSuffix(h, head, cur, kind, nodes, j);
      if nodes[i] == nodes[j] {
        PathUnique(h, head, nodes[i], kind, nodes[i..], nodes[j..]);
        assert false;
      }
    }
    forall i | 0 <= i < |nodes|
      ensures nodes[i] != head
    {
      PathSuffix(h, head, cur, kind, nodes, i);
    }
  }

  /** A walk succeeds with these nodes exactly when the bucket is a ring of them and they
      are at most cap; the ring is then the only one and its nodes are pairwise distinct.
      Lassos, faults, mistyped nodes and longer lists all fail. */
  lemma WalkExact(h: Heap, head: Addr, kind: nat, cap: nat, nodes: seq<Addr>)
    ensures Walk(h, head, kind, cap) == Some(nodes) <==> Ring(h, head, kind, nodes) && |nodes| <= cap
    ensures Ring(h, head, kind, nodes) ==> head !in nodes && forall i, j :: 0 <= i < j < |nodes| ==> nodes[i] != nodes[j]
    ensures Ring(h, head, kind, nodes) ==> forall other :: Ring(h, head, kind, other) ==> other == nodes
  {
    if NextOf(h, head).Some? {
      var first := NextOf(h, head).value;
      WalkFromExact(h, head, first, kind, cap, nodes);
      if Ring(h, head, kind, nodes) {
        PathDistinct(h, head, first, kind, nodes);
        forall other | Ring(h, head, kind, other)
          ensures other == nodes
        {
          PathUnique(h, head, first, kind, nodes, other);
        }
      }
    }
  }

  // ---- counting --------------------------------------------------------------------

  method CountObjects(h: Heap, heads: seq<Addr>, bucket: nat, cap: nat) returns (r: Option<nat>)
    ensures r == if bucket >= |heads| then None else Size(Walk(h, heads[bucket], bucket, cap))
  {
    if bucket >= |heads| {
      return None;
    }
    var head := heads[bucket];
    var first := NextOf(h, head);
    if first.None? {
      return None;
    }
    var cur, n := first.value, 0;
    while cur != head && n < cap
      invariant n <= cap
      invariant Size(Walk(h, head, bucket, cap)) == Plus(n, Size(WalkFrom(h, head, cur, bucket, cap - n)))
      decreases cap - n
    {
      var kind := KindOf(h, cur);
      if kind.None? || kind.value != bucket {
        return None;
      }
      n := n + 1;
      var next := NextOf(h, cur);
      if next.None? {
        return None;
      }
      cur := next.value;
    }
    r := if cur == head then Some(n) else None;
  }

  function Size<T>(s: Option<seq<T>>): Option<nat> {
    if s.None? then None else Some(|s.value|)
  }

  function Plus(n: nat, m: Option<nat>): Option<nat> {
    if m.None? then None else Some(n + m.value)
  }

  // ---- in-place iteration ------------------------------------------------------------

  datatype ObjectStep = ObjectStep(node: Option<Addr>, index: nat, ok: bool)

  function StepFrom(h: Heap, heads: seq<Addr>, bucket: nat, cur: Addr, index: nat, cap: nat): ObjectStep {
    if bucket >= |heads| then ObjectStep(None, index, false)
    else
      var next := NextOf(h, cur);
      if next.None? then ObjectStep(None, index, false)
      else if next.value == heads[bucket] then ObjectStep(None, index, true)
      else if KindOf(h, next.value).None? then ObjectStep(None, index, false)
      else if index >= cap then ObjectStep(None, index, false)
      else if KindOf(h, next.value).value != bucket then ObjectStep(None, index, false)
      else ObjectStep(next, index + 1, true)
  }

  function FirstObject(h: Heap, heads: seq<Addr>, bucket: nat, cap: nat): ObjectStep {
    if bucket >= |heads| then ObjectStep(None, 0, false) else StepFrom(h, heads, bucket, heads[bucket], 0, cap)
  }

  function NextObject(h: Heap, heads: seq<Addr>, bucket: nat, cur: ObjectStep, cap: nat): ObjectStep {
    if cur.node.None? then ObjectStep(None, cur.index, false)
    else StepFrom(h, heads, bucket, cur.node.value, cur.index, cap)
  }

  // The nodes a walk comes to after node prev, whether or not it then fails.
  function Reached(h: Heap, head: Addr, prev: Addr, kind: nat, room: nat): seq<Addr>
    decreases room
  {
    var next := NextOf(h, prev);
    if next.None? || next.value == head || room == 0 || KindOf(h, next.value) != Some(kind) then []
    else [next.value] + Reached(h, head, next.value, kind, room - 1)
  }

  /** What is reached starts at the head's successor and follows the links through well-typed nodes,
      never the head, and no further than the cap. It stops only where the walk ends or fails;
      and a walk that succeeds has reached its nodes. */
  lemma {:induction false} ReachedFollows(h: Heap, head: Addr, prev: Addr, kind: nat, room: nat)
    ensures var ns := Reached(h, head, prev, kind, room);
            && |ns| <= room
            && (forall i :: 0 <= i < |ns| ==>
                 ns[i] != head && KindOf(h, ns[i]) == Some(kind) && NextOf(h, if i == 0 then prev else ns[i - 1]) == Some(ns[i]))
            && (Rest(h, head, prev, kind, room).Some? ==> Rest(h, head, prev, kind, room) == Some(ns))
            && (Rest(h, head, prev, kind, room).None? ==>
                 var last := NextOf(h, if ns == [] then prev else ns[|ns| - 1]);
                 last.None? || (last.value != head && (|ns| == room || KindOf(h, last.value) != Some(kind))))
    decreases room
  {
    var ns := Reached(h, head, prev, kind, room);
    if ns != [] {
      ReachedFollows(h, head, ns[0], kind, room - 1);
      assert ns[1..] == Reached(h, head, ns[0], kind, room - 1);
    }
  }

  // Up to and including the first node on which the callback answers false.
  function UpTo(nodes: seq<Addr>, goOn: Addr -> bool): seq<Addr> {
    if nodes == [] || !goOn(nodes[0]) then nodes[..if nodes == [] then 0 else 1]
    else [nodes[0]] + UpTo(nodes[1..], goOn)
  }

  lemma {:induction false} UpToExact(nodes: seq<Addr>, goOn: Addr -> bool)
    ensures var r := UpTo(nodes, goOn);
            && r <= nodes
            && (forall i :: 0 <= i < |r| - 1 ==> goOn(r[i]))
            && (r != nodes ==> r != [] && !goOn(r[|r| - 1]))
  {
    if nodes != [] && goOn(nodes[0]) {
      UpToExact(nodes[1..], goOn);
      assert nodes == [nodes[0]] + nodes[1..];
    }
  }

  lemma {:induction false} UpToAll(nodes: seq<Addr>, goOn: Addr -> bool)
    requires forall i :: 0 <= i < |nodes| ==> goOn(nodes[i])
    ensures UpTo(nodes, goOn) == nodes
  {
    if nodes != [] {
      UpToAll(nodes[1..], goOn);
    }
  }

  lemma {:induction false} UpToStop(front: seq<Addr>, node: Addr, rest: seq<Addr>, goOn: Addr -> bool)
    requires (forall i :: 0 <= i < |front| ==> goOn(front[i])) && !goOn(node)
    ensures UpTo(front + [node] + rest, goOn) == front + [node]
  {
    var all := front + [node] + rest;
    if front != [] {
      UpToStop(front[1..], node, rest, goOn);
      assert all[1..] == front[1..] + [node] + rest;
    }
  }

  // Where the iteration stands: visited is what it has come to so far, and prev the last of it.
  ghost predicate Going(h: Heap, head: Addr, kind: nat, cap: nat, prev: Addr, visited: seq<Addr>) {
    && |visited| <= cap
    && Walk(h, head, kind, cap) == Prepend(visited, Rest(h, head, prev, kind, cap - |visited|))
    && Reached(h, head, head, kind, cap) == visited + Reached(h, head, prev, kind, cap - |visited|)
  }

  lemma GoingStart(h: Heap, head: Addr, kind: nat, cap: nat)
    ensures Going(h, head, kind, cap, head, [])
  {
    var w, ns := Walk(h, head, kind, cap), Reached(h, head, head, kind, cap);
    assert w.Some? ==> [] + w.value == w.value;
    assert [] + ns == ns;
  }

  // The walk's next node.
  ghost predicate Follows(h: Heap, head: Addr, kind: nat, prev: Addr, node: Addr) {
    NextOf(h, prev) == Some(node) && node != head && KindOf(h, node) == Some(kind)
  }

  lemma GoingOn(h: Heap, head: Addr, kind: nat, cap: nat, prev: Addr, visited: seq<Addr>, node: Addr)
    requires Going(h, head, kind, cap, prev, visited) && |visited| < cap && Follows(h, head, kind, prev, node)
    ensures Going(h, head, kind, cap, node, visited + [node])
  {
    var room := cap - |visited| - 1;
    var tail, onward := Rest(h, head, node, kind, room), Reached(h, head, node, kind, room);
    assert Rest(h, head, prev, kind, room + 1) == Prepend([node], tail);
    assert tail.Some? ==> visited + ([node] + tail.value) == (visited + [node]) + tail.value;
    assert visited + ([node] + onward) == (visited + [node]) + onward;
  }

  lemma GoingStops(h: Heap, head: Addr, kind: nat, cap: nat, visited: seq<Addr>, node: Addr, goOn: Addr -> bool)
    requires Going(h, head, kind, cap, node, visited + [node])
    requires (forall i :: 0 <= i < |visited| ==> goOn(visited[i])) && !goOn(node)
    ensures UpTo(Reached(h, head, head, kind, cap), goOn) == visited + [node]
  {
    UpToStop(visited, node, Reached(h, head, node, kind, cap - |visited| - 1), goOn);
  }

  lemma GoingEnds(h: Heap, head: Addr, kind: nat, cap: nat, prev: Addr, visited: seq<Addr>, goOn: Addr -> bool)
    requires Going(h, head, kind, cap, prev, visited) && forall i :: 0 <= i < |visited| ==> goOn(visited[i])
    requires NextOf(h, prev).Some? && NextOf(h, prev).value != head ==> |visited| == cap || KindOf(h, NextOf(h, prev).value) != Some(kind)
    ensures UpTo(Reached(h, head, head, kind, cap), goOn) == visited
    ensures Walk(h, head, kind, cap) == if NextOf(h, prev) == Some(head) then Some(visited) else None
  {
    assert visited + [] == visited;
    UpToAll(visited, goOn);
  }

  /** Iteration with a callback that answers whether to go on. The objects handed to the
      callback are returned as well: those the walk comes to, up to and including the first that is
      answered with a stop. The result is their number, unless nothing stopped it and the walk fails. */
  method ForEachObject(h: Heap, heads: seq<Addr>, bucket: nat, cap: nat, goOn: Addr -> bool)
    returns (r: Option<nat>, visited: seq<Addr>)
    ensures bucket >= |heads| ==> r.None? && visited == []
    ensures r.Some? ==> r.value == |visited|
    ensures forall i :: 0 <= i < |visited| - 1 ==> goOn(visited[i])
    ensures bucket < |heads| && (forall a :: a in visited ==> goOn(a)) ==>
              (if r.Some? then Walk(h, heads[bucket], bucket, cap) == Some(visited)
               else Walk(h, heads[bucket], bucket, cap) == None)
    ensures visited != [] && !goOn(visited[|visited| - 1]) ==> r.Some?
    ensures bucket < |heads| ==> visited == UpTo(Reached(h, heads[bucket], heads[bucket], bucket, cap), goOn)
  {
    visited := [];
    var s := FirstObject(h, heads, bucket, cap);
    ghost var head := if bucket < |heads| then heads[bucket] else 0;
    ghost var prev := head;
    GoingStart(h, head, bucket, cap);
    while true
      invariant |visited| <= cap
      invariant if bucket < |heads| then head == heads[bucket] && s == StepFrom(h, heads, bucket, prev, |visited|, cap)
                else visited == [] && !s.ok
      invariant forall i :: 0 <= i < |visited| ==> goOn(visited[i])
      invariant Going(h, head, bucket, cap, prev, visited)
      decreases cap - |visited|
    {
      if !s.ok || s.node.None? {
        if bucket < |heads| {
          GoingEnds(h, head, bucket, cap, prev, visited, goOn);
        }
        return if s.ok then Some(|visited|) else None, visited;
      }
      var node := s.node.value;
      GoingOn(h, head, bucket, cap, prev, visited, node);
      if !goOn(node) {
        GoingStops(h, head, bucket, cap, visited, node, goOn);
        return Some(|visited| + 1), visited + [node];
      }
      visited := visited + [node];
      prev := node;
      s := NextObject(h, heads, bucket, s, cap);
    }
  }

  // The walk that continues after node prev.
  function Rest(h: Heap, head: Addr, prev: Addr, kind: nat, room: nat): Option<seq<Addr>> {
    if NextOf(h, prev).None? then None else WalkFrom(h, head, NextOf(h, prev).value, kind, room)
  }

  // ---- snapshotting ----------------------------------------------------------------

  // Copying the first max bodies in the same pass: the count written, or None.
  function SnapshotFrom(h: Heap, head: Addr, cur: Addr, kind: nat, max: nat, room: nat): Option<seq<Snapshot>>
    decreases room
  {
    if cur == head then Some([])
    else if room == 0 || KindOf(h, cur) != Some(kind) then None
    else if max > 0 && BodyOf(h, cur).None? then None
    else if NextOf(h, cur).None? then None
    else
      var rest := SnapshotFrom(h, head, NextOf(h, cur).value, kind, if max > 0 then max - 1 else 0, room - 1);
      if max == 0 then rest else Prepend([Snapshot(cur, kind, BodyOf(h, cur).value)], rest)
  }

  /** Copies up to out.Length objects into the caller's buffer. The buffer may have been
      written to even when the result is a failure; beyond out.Length it has no cells. */
  method SnapshotObjects(h: Heap, heads: seq<Addr>, bucket: nat, cap: nat, out: array<Snapshot>) returns (r: Option<nat>)
    modifies out
    ensures var s := if bucket < |heads| && NextOf(h, heads[bucket]).Some?
                     then SnapshotFrom(h, heads[bucket], NextOf(h, heads[bucket]).value, bucket, out.Length, cap) else None;
            && r == Size(s)
            && (s.Some? ==> |s.value| <= out.Length && out[..|s.value|] == s.value)
  {
    if bucket >= |heads| {
      return None;
    }
    var head := heads[bucket];
    var first := NextOf(h, head);
    if first.None? {
      return None;
    }
    ghost var whole := SnapshotFrom(h, head, first.value, bucket, out.Length, cap);
    var cur, n, written := first.value, 0, 0;
    assert whole.Some? ==> out[..0] + whole.value == whole.value;
    while cur != head && n < cap
      invariant n <= cap && written <= out.Length
      invariant whole == Prepend(out[..written], SnapshotFrom(h, head, cur, bucket, out.Length - written, cap - n))
      decreases cap - n
    {
      var kind := KindOf(h, cur);
      if kind.None? || kind.value != bucket {
        return None;
      }
      ghost var done, rest := out[..written], SnapshotFrom(h, head, cur, bucket, out.Length - written, cap - n);
      if written < out.Length {
        var body := BodyOf(h, cur);
        if body.None? {
          return None;
        }
        out[written] := Snapshot(cur, kind.value, body.value);
        written := written + 1;
        assert out[..written] == done + [Snapshot(cur, bucket, body.value)];
      }
      n := n + 1;
      var next := NextOf(h, cur);
      if next.None? {
        return None;
      }
      cur := next.value;
      ghost var tail := SnapshotFrom(h, head, cur, bucket, out.Length - written, cap - n);
      assert tail.Some? ==> rest.Some? && done + rest.value == out[..written] + tail.value;
    }
    if cur != head {
      return None;
    }
    assert out[..written] + [] == out[..written];
    r := Some(written);
  }

  // The first m of these nodes can have their bodies copied.
  ghost predicate BodiesReadable(h: Heap, nodes: seq<Addr>, m: nat) {
    forall i :: 0 <= i < m && i < |nodes| ==> nodes[i] in h && h[nodes[i]].body.Some?
  }

  function Min(a: nat, b: nat): nat {
    if a < b then a else b
  }

  lemma {:induction false} SnapshotFromExact(h: Heap, head: Addr, cur: Addr, kind: nat, max: nat, room: nat)
    ensures var walk := WalkFrom(h, head, cur, kind, room);
            var snap := SnapshotFrom(h, head, cur, kind, max, room);
            && (snap.Some? <==> walk.Some? && BodiesReadable(h, walk.value, max))
            && (snap.Some? ==> |snap.value| == Min(|walk.value|, max))
            && (snap.Some? ==> forall i :: 0 <= i < |snap.value| ==>
                  && walk.value[i] in h && h[walk.value[i]].body.Some?
                  && snap.value[i] == Snapshot(walk.value[i], kind, h[walk.value[i]].body.value))
    decreases room
  {
    if cur != head && room > 0 && KindOf(h, cur) == Some(kind) && NextOf(h, cur).Some? {
      var next := NextOf(h, cur).value;
      var less := if max > 0 then max - 1 else 0;
      SnapshotFromExact(h, head, next, kind, less, room - 1);
      var rest := WalkFrom(h, head, next, kind, room - 1);
      if rest.Some? {
        BodiesOfCons(h, cur, rest.value, max);
      }
    }
  }

  lemma BodiesOfCons(h: Heap, cur: Addr, rest: seq<Addr>, max: nat)
    ensures BodiesReadable(h, [cur] + rest, max) <==> max == 0 || (BodyOf(h, cur).Some? && BodiesReadable(h, rest, max - 1))
  {
    var nodes := [cur] + rest;
    assert nodes[0] == cur && forall i :: 0 <= i < |rest| ==> nodes[i + 1] == rest[i];
    if max > 0 && BodiesReadable(h, nodes, max) {
      forall i | 0 <= i < max - 1 && i < |rest|
        ensures rest[i] in h && h[rest[i]].body.Some?
      {
        assert nodes[i + 1] in h && h[nodes[i + 1]].body.Some?;
      }
    }
  }

  /** The three walks side by side, on every heap. Counting gives n exactly when a full
      iteration gives n. Snapshotting agrees, giving min(n, max), exactly when the first max
      bodies are readable as well: a node whose type and link can be read but whose body
      faults is counted and iterated, and fails the snapshot. */
  method CompareWalks(h: Heap, heads: seq<Addr>, bucket: nat, cap: nat, max: nat)
    returns (count: Option<nat>, visited: Option<nat>, copied: Option<nat>)
    ensures count == visited
    ensures count.Some? <==> bucket < |heads| && exists nodes :: Ring(h, heads[bucket], bucket, nodes) && |nodes| <= cap
    ensures count.Some? ==> forall nodes :: Ring(h, heads[bucket], bucket, nodes) ==>
              && count.value == |nodes|
              && copied == if BodiesReadable(h, nodes, max) then Some(Min(|nodes|, max)) else None
    ensures count.None? ==> copied.None?
  {
    count := CountObjects(h, heads, bucket, cap);
    var seen: seq<Addr>;
    visited, seen := ForEachObject(h, heads, bucket, cap, _ => true);
    var out := new Snapshot[max](_ => Snapshot(0, 0, Body(0, 0, [], [])));
    copied := SnapshotObjects(h, heads, bucket, cap, out);
    if bucket < |heads| && NextOf(h, heads[bucket]).Some? {
      SnapshotFromExact(h, heads[bucket], NextOf(h, heads[bucket]).value, bucket, max, cap);
    }
    if bucket < |heads| {
      forall nodes
        ensures Walk(h, heads[bucket], bucket, cap) == Some(nodes) <==> Ring(h, heads[bucket], bucket, nodes) && |nodes| <= cap
        ensures Ring(h, heads[bucket], bucket, nodes) ==> forall other :: Ring(h, heads[bucket], bucket, other) ==> other == nodes
      {
        WalkExact(h, heads[bucket], bucket, cap, nodes);
      }
    }
  }

  // A list of one well-typed node whose body cannot be read.
  function BodyFault(kind: nat): Heap {
    map[0 := Cell(Some(1), None, None), 1 := Cell(Some(0), Some(kind), None)]
  }

  /** Where the walks part: that list is counted and iterated, and no snapshot that is to hold
      anything can be taken of it. */
  lemma BodyFaultParts(kind: nat, cap: nat, max: nat)
    requires cap > 0 && max > 0
    ensures Walk(BodyFault(kind), 0, kind, cap) == Some([1])
    ensures NextOf(BodyFault(kind), 0) == Some(1) && SnapshotFrom(BodyFault(kind), 0, 1, kind, max, cap).None?
  {
    var h := BodyFault(kind);
    assert NextOf(h, 0) == Some(1) && NextOf(h, 1) == Some(0) && KindOf(h, 1) == Some(kind) && BodyOf(h, 1) == None;
    var rest := WalkFrom(h, 0, 0, kind, cap - 1);
    assert rest == Some([]);
    assert WalkFrom(h, 0, 1, kind, cap) == Prepend([1], rest);
    assert [1] + rest.value == [1];
  }
}
