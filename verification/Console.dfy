/** The console command registry: an intrusive list in memory that may be corrupt, listed
    by one walk and counted by another. Both stop after cap nodes (4096 in the program). */
module Console {
  import opened Options
  import opened Grouping

  // A dword of memory. Addresses are reduced to 32 bits where they are read through.
  type Word = int

  const WORDS := 0x1_0000_0000

  // What the walks can read: dwords by address, the text a name pointer leads to when it
  // reads as a name, and the executable's address range.
  datatype Memory = Memory(dwords: map<Word, Word>, names: map<Word, string>, exeBase: Word, exeSize: Word)

  // A guarded read, in 32-bit addresses. Address 0 is never read.
  function Read(m: Memory, at: int): Option<Word> {
    var a := at % WORDS;
    if a != 0 && a in m.dwords then Some(m.dwords[a]) else None
  }

  function ReadName(m: Memory, at: Word): Option<string> {
    if at in m.names then Some(m.names[at]) else None
  }

  datatype Command = Command(object_: Word, link: Word, name: string, handler: Word, flags: Word, fromExe: bool) {
    predicate RegisteredAtRuntime() {
      flags % 2 != 0
    }
  }

  predicate AddressInExe(m: Memory, address: Word) {
    m.exeBase != 0 && m.exeSize != 0 && address != 0 && m.exeBase <= address < m.exeBase + m.exeSize
  }

  // The owner word names the object itself, and both link words are readable and not null.
  predicate NodeIsConsistent(m: Memory, obj: Word) {
    && obj != 0
    && Read(m, obj + 0x10) == Some(obj)
    && Read(m, obj + 0x08).Some? && Read(m, obj + 0x0C).Some?
    && Read(m, obj + 0x08).value != 0 && Read(m, obj + 0x0C).value != 0
  }

  function OrZero(w: Option<Word>): Word {
    if w.None? then 0 else w.value
  }

  function ReadObject(m: Memory, obj: Word): Option<Command> {
    if !NodeIsConsistent(m, obj) then None
    else
      var namePtr := Read(m, obj);
      if namePtr.None? || ReadName(m, namePtr.value).None? then None
      else
        var handler := OrZero(Read(m, obj + 0x04));
        Some(Command(obj, (obj + 0x08) % WORDS, ReadName(m, namePtr.value).value, handler,
                     OrZero(Read(m, obj + 0x14)), AddressInExe(m, handler)))
  }

  // ---- the walk ---------------------------------------------------------------------

  // The object a list node lies in begins two dwords before it.
  function ObjectOf(node: Word): Word {
    (node - 8) % WORDS
  }

  // The nodes walked from here: up to room of them, until null, the head, or a fault.
  function Walked(m: Memory, head: Word, node: Word, room: nat): seq<Word>
    decreases room
  {
    if node == 0 || node == head || room == 0 then []
    else [node] + if Read(m, node + 4).None? then [] else Walked(m, head, Read(m, node + 4).value, room - 1)
  }

  // There is a further node when the room is used up.
  predicate Overruns(m: Memory, head: Word, node: Word, room: nat) {
    |Walked(m, head, node, room + 1)| > room
  }

  lemma {:induction false} WalkedFurther(m: Memory, head: Word, node: Word, room: nat)
    ensures var more := Walked(m, head, node, room + 1);
            Walked(m, head, node, room) == if |more| > room then more[..room] else more
    decreases room
  {
    if node != 0 && node != head && room > 0 && Read(m, node + 4).Some? {
      WalkedFurther(m, head, Read(m, node + 4).value, room - 1);
    }
  }

  function Nodes(m: Memory, head: Word, cap: nat): seq<Word> {
    if head == 0 || Read(m, head + 4).None? then [] else Walked(m, head, Read(m, head + 4).value, cap)
  }

  function Commands(m: Memory, nodes: seq<Word>): seq<Command> {
    if nodes == [] then []
    else
      var n := |nodes| - 1;
      var cmd := ReadObject(m, ObjectOf(nodes[n]));
      if cmd.None? then Commands(m, nodes[..n]) else Commands(m, nodes[..n]) + [cmd.value]
  }

  // The nodes among these that do not check out, and those that do but have no name.
  function Inconsistent(m: Memory, nodes: seq<Word>): nat {
    if nodes == [] then 0
    else Inconsistent(m, nodes[..|nodes| - 1]) + if NodeIsConsistent(m, ObjectOf(nodes[|nodes| - 1])) then 0 else 1
  }

  function Unreadable(m: Memory, nodes: seq<Word>): nat {
    if nodes == [] then 0
    else
      var obj := ObjectOf(nodes[|nodes| - 1]);
      Unreadable(m, nodes[..|nodes| - 1]) + if NodeIsConsistent(m, obj) && ReadObject(m, obj).None? then 1 else 0
  }

  function Trues(bits: seq<bool>): nat {
    if bits == [] then 0 else Trues(bits[..|bits| - 1]) + if bits[|bits| - 1] then 1 else 0
  }

  function ExeBits(cmds: seq<Command>): (bits: seq<bool>)
    ensures |bits| == |cmds|
  {
    seq(|cmds|, i requires 0 <= i < |cmds| => cmds[i].fromExe)
  }

  function RuntimeBits(cmds: seq<Command>): (bits: seq<bool>)
    ensures |bits| == |cmds|
  {
    seq(|cmds|, i requires 0 <= i < |cmds| => cmds[i].RegisteredAtRuntime())
  }

  lemma Extend(m: Memory, nodes: seq<Word>, node: Word)
    ensures var (obj, after) := (ObjectOf(node), nodes + [node]);
            && Commands(m, after) == (if ReadObject(m, obj).Some? then Commands(m, nodes) + [ReadObject(m, obj).value] else Commands(m, nodes))
            && Inconsistent(m, after) == Inconsistent(m, nodes) + (if NodeIsConsistent(m, obj) then 0 else 1)
            && Unreadable(m, after) == Unreadable(m, nodes) + (if NodeIsConsistent(m, obj) && ReadObject(m, obj).None? then 1 else 0)
  {
    var after := nodes + [node];
    assert after[..|after| - 1] == nodes;
  }

  lemma ExtendBits(cmds: seq<Command>, c: Command)
    ensures Trues(ExeBits(cmds + [c])) == Trues(ExeBits(cmds)) + if c.fromExe then 1 else 0
    ensures Trues(RuntimeBits(cmds + [c])) == Trues(RuntimeBits(cmds)) + if c.RegisteredAtRuntime() then 1 else 0
    ensures NamesOf(cmds + [c]) == NamesOf(cmds) + [c.name]
  {
    var after := cmds + [c];
    assert ExeBits(after)[..|cmds|] == ExeBits(cmds);
    assert RuntimeBits(after)[..|cmds|] == RuntimeBits(cmds);
  }

  // all is the whole walk: the nodes done, then what is walked from node on.
  ghost predicate Onward(m: Memory, head: Word, all: seq<Word>, done: seq<Word>, node: Word, room: nat) {
    all == done + Walked(m, head, node, room)
  }

  // One node further along the walk.
  lemma StepOn(m: Memory, head: Word, all: seq<Word>, done: seq<Word>, node: Word, room: nat)
    requires Onward(m, head, all, done, node, room) && node != 0 && node != head && room > 0
    ensures done + [node] <= all
    ensures Read(m, node + 4).None? ==> all == done + [node]
    ensures Read(m, node + 4).Some? ==> Onward(m, head, all, done + [node], Read(m, node + 4).value, room - 1)
  {
    if Read(m, node + 4).Some? {
      var rest := Walked(m, head, Read(m, node + 4).value, room - 1);
      assert done + ([node] + rest) == (done + [node]) + rest;
    }
  }

  // The end of the walk: back at the head, at null, or out of room.
  lemma WalkEnds(m: Memory, head: Word, all: seq<Word>, done: seq<Word>, node: Word, room: nat)
    requires Onward(m, head, all, done, node, room) && (node == 0 || node == head || room == 0)
    ensures all == done
  {
  }

  // One node of the listing: it is appended if it reads as a command.
  method ListNode(m: Memory, node: Word, out: seq<Command>, ghost done: seq<Word>) returns (more: seq<Command>)
    requires out == Commands(m, done)
    ensures more == Commands(m, done + [node]) && (more == out || |more| == |out| + 1)
  {
    Extend(m, done, node);
    var cmd := ReadObject(m, ObjectOf(node));
    more := if cmd.Some? then out + [cmd.value] else out;
  }

  /** Lists the registry, stopping early at a non-zero limit. */
  method All(m: Memory, head: Word, cap: nat, limit: nat) returns (out: seq<Command>)
    ensures out == Limited(Commands(m, Nodes(m, head, cap)), limit)
  {
    out := [];
    if head == 0 {
      return;
    }
    var first := Read(m, head + 4);
    if first.None? {
      return;
    }
    ghost var all := Nodes(m, head, cap);
    var node, walked := first.value, 0;
    ghost var done: seq<Word> := [];
    assert Onward(m, head, all, done, node, cap);
    while node != 0 && node != head && walked < cap
      invariant walked <= cap
      invariant out == Commands(m, done) && Onward(m, head, all, done, node, cap - walked)
      invariant limit != 0 ==> |out| < limit
      decreases cap - walked
    {
      StepOn(m, head, all, done, node, cap - walked);
      walked := walked + 1;
      out := ListNode(m, node, out, done);
      done := done + [node];
      if limit != 0 && |out| >= limit {
        LimitReached(m, done, all, limit);
        return;
      }
      var next := Read(m, node + 4);
      if next.None? {
        return;
      }
      node := next.value;
    }
    WalkEnds(m, head, all, done, node, cap - walked);
  }

  lemma LimitReached(m: Memory, done: seq<Word>, all: seq<Word>, limit: nat)
    requires done <= all && |Commands(m, done)| == limit > 0
    ensures Limited(Commands(m, all), limit) == Commands(m, done)
  {
    CommandsPrefix(m, done, all);
  }

  // Everything, or the first limit of it.
  function Limited(cmds: seq<Command>, limit: nat): seq<Command> {
    if limit == 0 || |cmds| < limit then cmds else cmds[..limit]
  }

  lemma {:induction false} CommandsPrefix(m: Memory, done: seq<Word>, nodes: seq<Word>)
    requires done <= nodes
    ensures Commands(m, done) <= Commands(m, nodes)
    decreases |nodes|
  {
    if done != nodes {
      CommandsPrefix(m, done, nodes[..|nodes| - 1]);
    }
  }

  // ---- counting ------------------------------------------------------------------------

  datatype Stats = Stats(total: nat, fromExe: nat, fromModules: nat, distinctNames: nat, unreadableNames: nat,
                         inconsistentNodes: nat, nodesWalked: nat, builtin: nat, runtime: nat, hitCap: bool)

  function NamesOf(cmds: seq<Command>): (names: seq<string>)
    ensures |names| == |cmds|
  {
    seq(|cmds|, i requires 0 <= i < |cmds| => cmds[i].name)
  }

  // What the counters hold after these nodes.
  ghost predicate Tallied(s: Stats, names: seq<string>, m: Memory, done: seq<Word>) {
    var cmds := Commands(m, done);
    && s.nodesWalked == |done| && s.total == |cmds| && names == NamesOf(cmds)
    && s.inconsistentNodes == Inconsistent(m, done) && s.unreadableNames == Unreadable(m, done)
    && s.fromExe == Trues(ExeBits(cmds)) && s.fromModules == |cmds| - s.fromExe
    && s.runtime == Trues(RuntimeBits(cmds)) && s.builtin == |cmds| - s.runtime
  }

  // The counters and the names collected so far.
  datatype Counters = Counters(s: Stats, names: seq<string>)

  const ZERO := Counters(Stats(0, 0, 0, 0, 0, 0, 0, 0, 0, false), [])

  // One node's contribution to the counters.
  method CountNode(m: Memory, node: Word, c: Counters) returns (d: Counters)
    ensures d == AfterNode(m, node, c)
  {
    var s := c.s;
    var t, more := s.(nodesWalked := s.nodesWalked + 1), c.names;
    var obj := ObjectOf(node);
    if !NodeIsConsistent(m, obj) {
      t := t.(inconsistentNodes := s.inconsistentNodes + 1);
    } else {
      var cmd := ReadObject(m, obj);
      if cmd.Some? {
        t := t.(total := s.total + 1);
        if cmd.value.fromExe {
          t := t.(fromExe := s.fromExe + 1);
        } else {
          t := t.(fromModules := s.fromModules + 1);
        }
        if cmd.value.RegisteredAtRuntime() {
          t := t.(runtime := s.runtime + 1);
        } else {
          t := t.(builtin := s.builtin + 1);
        }
        more := more + [cmd.value.name];
      } else {
        t := t.(unreadableNames := s.unreadableNames + 1);
      }
    }
    d := Counters(t, more);
  }

  function AfterNode(m: Memory, node: Word, c: Counters): Counters {
    var obj := ObjectOf(node);
    var cmd := ReadObject(m, obj);
    var t := c.s.(nodesWalked := c.s.nodesWalked + 1);
    if !NodeIsConsistent(m, obj) then Counters(t.(inconsistentNodes := t.inconsistentNodes + 1), c.names)
    else if cmd.None? then Counters(t.(unreadableNames := t.unreadableNames + 1), c.names)
    else Counters(AfterCommand(t, cmd.value), c.names + [cmd.value.name])
  }

  function AfterCommand(t: Stats, cmd: Command): Stats {
    var (e, r) := (if cmd.fromExe then 1 else 0, if cmd.RegisteredAtRuntime() then 1 else 0);
    t.(total := t.total + 1, fromExe := t.fromExe + e, fromModules := t.fromModules + 1 - e,
       runtime := t.runtime + r, builtin := t.builtin + 1 - r)
  }

  function AfterNodes(m: Memory, nodes: seq<Word>): Counters {
    if nodes == [] then ZERO else AfterNode(m, nodes[|nodes| - 1], AfterNodes(m, nodes[..|nodes| - 1]))
  }

  lemma AfterOneMore(m: Memory, nodes: seq<Word>, node: Word)
    ensures AfterNodes(m, nodes + [node]) == AfterNode(m, node, AfterNodes(m, nodes))
  {
    var after := nodes + [node];
    assert after[..|after| - 1] == nodes;
  }

  lemma {:induction false} CountersMean(m: Memory, nodes: seq<Word>)
    ensures var c := AfterNodes(m, nodes); Tallied(c.s, c.names, m, nodes) && !c.s.hitCap
  {
    if nodes == [] {
      assert NamesOf([]) == [];
    } else {
      var n := |nodes| - 1;
      var front, obj := nodes[..n], ObjectOf(nodes[n]);
      assert nodes == front + [nodes[n]];
      CountersMean(m, front);
      Extend(m, front, nodes[n]);
      if ReadObject(m, obj).Some? {
        ExtendBits(Commands(m, front), ReadObject(m, obj).value);
      }
    }
  }

  // The counting walk, before names are sorted; and whether it ran out of room.
  method CountNodes(m: Memory, head: Word, cap: nat, first: Word) returns (c: Counters, hitCap: bool)
    ensures c == AfterNodes(m, Walked(m, head, first, cap))
    ensures hitCap <==> Overruns(m, head, first, cap)
  {
    var node, walked := first, 0;
    c, hitCap := ZERO, false;
    ghost var all, done: seq<Word> := Walked(m, head, first, cap + 1), [];
    WalkedFurther(m, head, first, cap);
    assert Onward(m, head, all, done, node, cap + 1);
    while node != 0 && node != head
      invariant walked == |done| <= cap && !hitCap
      invariant c == AfterNodes(m, done) && Onward(m, head, all, done, node, cap + 1 - walked)
      decreases cap - walked
    {
      StepOn(m, head, all, done, node, cap + 1 - walked);
      if walked >= cap {
        assert done == all[..cap];
        hitCap := true;
        return;
      }
      walked := walked + 1;
      AfterOneMore(m, done, node);
      c := CountNode(m, node, c);
      done := done + [node];
      var next := Read(m, node + 4);
      if next.None? {
        return;
      }
      node := next.value;
    }
    WalkEnds(m, head, all, done, node, cap + 1 - walked);
  }

  /** Counts the registry. None only when the list's head cannot be read. */
  method GetStats(m: Memory, head: Word, cap: nat) returns (r: Option<Stats>)
    ensures r.None? <==> head == 0 || Read(m, head + 4).None?
    ensures r.Some? ==> Tallied(r.value, NamesOf(Commands(m, Nodes(m, head, cap))), m, Nodes(m, head, cap))
    ensures r.Some? ==> (r.value.hitCap <==> Overruns(m, head, Read(m, head + 4).value, cap))
    ensures r.Some? ==> r.value.distinctNames == |Elements(NamesOf(Commands(m, Nodes(m, head, cap))))|
  {
    if head == 0 {
      return None;
    }
    var first := Read(m, head + 4);
    if first.None? {
      return None;
    }
    var c, hitCap := CountNodes(m, head, cap, first.value);
    CountersMean(m, Nodes(m, head, cap));
    var distinct := CountDistinct(c.names);
    r := Some(c.s.(distinctNames := distinct, hitCap := hitCap));
  }

  // Sorts the names and drops repeated neighbours.
  method CountDistinct(names: seq<string>) returns (distinct: nat)
    ensures distinct == |Elements(names)|
  {
    var sorted := Sort(names);
    var unique := Unique(sorted);
    assert Elements(sorted) == Elements(names) by {
      forall x
        ensures x in sorted <==> x in names
      {
        assert x in sorted <==> x in multiset(sorted);
      }
    }
    distinct := |unique|;
  }

  // ---- sort, then drop repeated neighbours -------------------------------------------------

  predicate Before(a: string, b: string) {
    a == [] || (b != [] && (a[0] < b[0] || (a[0] == b[0] && Before(a[1..], b[1..]))))
  }

  lemma {:induction false} BeforeOrder(a: string, b: string, c: string)
    ensures Before(a, b) || Before(b, a)
    ensures Before(a, b) && Before(b, a) ==> a == b
    ensures Before(a, b) && Before(b, c) ==> Before(a, c)
    decreases |a|
  {
    if a != [] && b != [] {
      if c != [] {
        BeforeOrder(a[1..], b[1..], c[1..]);
      } else {
        BeforeOrder(a[1..], b[1..], []);
      }
      assert a == [a[0]] + a[1..] && b == [b[0]] + b[1..];
    }
  }

  ghost predicate Sorted(s: seq<string>) {
    forall i, j :: 0 <= i < j < |s| ==> Before(s[i], s[j])
  }

  // The library's sort: some ordering of the same names.
  method Sort(names: seq<string>) returns (r: seq<string>)
    ensures Sorted(r) && multiset(r) == multiset(names)
  {
    r := [];
    for i := 0 to |names|
      invariant Sorted(r) && multiset(r) == multiset(names[..i])
    {
      assert names[..i + 1] == names[..i] + [names[i]];
      r := Insert(r, names[i]);
    }
    assert names[..|names|] == names;
  }

  method Insert(s: seq<string>, x: string) returns (r: seq<string>)
    requires Sorted(s)
    ensures Sorted(r) && multiset(r) == multiset(s) + multiset{x}
  {
    var k := 0;
    while k < |s| && Before(s[k], x)
      invariant k <= |s| && forall i :: 0 <= i < k ==> Before(s[i], x)
    {
      k := k + 1;
    }
    r := s[..k] + [x] + s[k..];
    InsertKeeps(s, k, x);
    InsertSorted(s, k, x);
  }

  lemma InsertKeeps(s: seq<string>, k: nat, x: string)
    requires k <= |s|
    ensures multiset(s[..k] + [x] + s[k..]) == multiset(s) + multiset{x}
  {
    assert s == s[..k] + s[k..];
  }

  lemma InsertSorted(s: seq<string>, k: nat, x: string)
    requires Sorted(s) && k <= |s| && (forall i :: 0 <= i < k ==> Before(s[i], x))
    requires k < |s| ==> !Before(s[k], x)
    ensures Sorted(s[..k] + [x] + s[k..])
  {
    var r := s[..k] + [x] + s[k..];
    forall j | k <= j < |s|
      ensures Before(x, s[j])
    {
      BeforeOrder(s[k], x, x);
      BeforeOrder(x, s[k], s[j]);
    }
    assert forall i :: 0 <= i < |r| ==> r[i] == if i < k then s[i] else if i == k then x else s[i - 1];
  }

  method Unique(s: seq<string>) returns (r: seq<string>)
    requires Sorted(s)
    ensures |r| == |Elements(s)|
  {
    r := [];
    for i := 0 to |s|
      invariant |r| == Transitions(s[..i])
      invariant i > 0 ==> r != [] && r[|r| - 1] == s[i - 1]
    {
      TransitionsNext(s, i);
      if i == 0 || s[i] != r[|r| - 1] {
        r := r + [s[i]];
      }
    }
    assert s[..|s|] == s;
    forall i, j, k | 0 <= i < j < k < |s| && s[i] == s[k]
      ensures s[i] == s[j]
    {
      BeforeOrder(s[i], s[j], s[k]);
    }
    TransitionsExact(s);
  }

  // ---- a registry laid out in memory -------------------------------------------------------------

  // A registered command as the registrar stores it. The handler and the flags may be unreadable.
  datatype Entry = Entry(at: Word, namePtr: Word, name: string, handler: Option<Word>, flags: Option<Word>)

  // The dword here is this one; at None it cannot be read.
  predicate Holds(m: Memory, at: Word, w: Option<Word>) {
    if w.Some? then at in m.dwords && m.dwords[at] == w.value else at !in m.dwords
  }

  // Six dwords: name, handler, previous and next link, the object itself, and flags.
  predicate StoredAt(m: Memory, e: Entry, prev: Word, next: Word) {
    && 0 < e.at && e.at + 0x18 <= 0x1_0000_0000 && prev != 0 && next != 0
    && Holds(m, e.at, Some(e.namePtr)) && e.namePtr in m.names && m.names[e.namePtr] == e.name
    && Holds(m, e.at + 4, e.handler)
    && Holds(m, e.at + 8, Some(prev)) && Holds(m, e.at + 12, Some(next))
    && Holds(m, e.at + 16, Some(e.at)) && Holds(m, e.at + 20, e.flags)
  }

  // What is to be listed for it.
  predicate Lists(m: Memory, e: Entry, c: Command) {
    && c.object_ == e.at && c.link == e.at + 8 && c.name == e.name
    && c.handler == (if e.handler.Some? then e.handler.value else 0)
    && c.flags == (if e.flags.Some? then e.flags.value else 0)
    && (c.RegisteredAtRuntime() <==> e.flags.Some? && e.flags.value % 2 == 1)
    && (c.fromExe <==>
         m.exeBase != 0 && m.exeSize != 0 && e.handler.Some? && e.handler.value != 0 && 0 <= e.handler.value - m.exeBase < m.exeSize)
  }

  lemma EntryRead(m: Memory, e: Entry, prev: Word, next: Word)
    requires StoredAt(m, e, prev, next)
    ensures ReadObject(m, e.at).Some? && Lists(m, e, ReadObject(m, e.at).value)
    ensures ObjectOf(e.at + 8) == e.at && Read(m, e.at + 8 + 4) == Some(next)
  {
    FieldRead(m, e.at, e.at, Some(e.namePtr));
    FieldRead(m, e.at, e.at + 4, e.handler);
    FieldRead(m, e.at, e.at + 8, Some(prev));
    FieldRead(m, e.at, e.at + 12, Some(next));
    FieldRead(m, e.at, e.at + 16, Some(e.at));
    FieldRead(m, e.at, e.at + 20, e.flags);
  }

  lemma FieldRead(m: Memory, base: Word, at: Word, w: Option<Word>)
    requires 0 < base <= at < 0x1_0000_0000 && Holds(m, at, w)
    ensures Read(m, at) == w
  {
    assert at % WORDS == at;
  }

  // The list node of the first entry, or the head.
  function FirstNode(es: seq<Entry>, head: Word): Word {
    if es == [] then head else es[0].at + 8
  }

  // The entries are linked in this order, after node prev and back to the head.
  predicate Linked(m: Memory, head: Word, prev: Word, es: seq<Entry>)
    decreases |es|
  {
    || es == []
    || (es[0].at + 8 != head && StoredAt(m, es[0], prev, FirstNode(es[1..], head)) && Linked(m, head, es[0].at + 8, es[1..]))
  }

  // The whole registry: the head's next link leads to the first entry.
  predicate Registered(m: Memory, head: Word, es: seq<Entry>) {
    0 < head && head + 8 <= 0x1_0000_0000 && Holds(m, head + 4, Some(FirstNode(es, head))) && Linked(m, head, head, es)
  }

  function LinksOf(es: seq<Entry>): (ns: seq<Word>)
    ensures |ns| == |es| && forall i :: 0 <= i < |ns| ==> ns[i] == es[i].at + 8
  {
    seq(|es|, i requires 0 <= i < |es| => es[i].at + 8)
  }

  lemma {:induction false} LinkedWalk(m: Memory, head: Word, prev: Word, es: seq<Entry>, room: nat)
    requires head != 0 && Linked(m, head, prev, es) && |es| <= room
    ensures Walked(m, head, FirstNode(es, head), room) == LinksOf(es)
    decreases room
  {
    if es != [] {
      EntryRead(m, es[0], prev, FirstNode(es[1..], head));
      LinkedWalk(m, head, es[0].at + 8, es[1..], room - 1);
      assert LinksOf(es) == [es[0].at + 8] + LinksOf(es[1..]);
    }
  }

  lemma {:induction false} LinkedListed(m: Memory, head: Word, prev: Word, es: seq<Entry>)
    requires Linked(m, head, prev, es)
    ensures forall i :: 0 <= i < |es| ==> EntryListed(m, es[i])
    decreases |es|
  {
    if es != [] {
      EntryRead(m, es[0], prev, FirstNode(es[1..], head));
      LinkedListed(m, head, es[0].at + 8, es[1..]);
      assert forall i :: 0 < i < |es| ==> es[i] == es[1..][i - 1];
    }
  }

  predicate EntryListed(m: Memory, e: Entry) {
    ObjectOf(e.at + 8) == e.at && ReadObject(m, e.at).Some? && Lists(m, e, ReadObject(m, e.at).value)
  }

  lemma {:induction false} ListedCommands(m: Memory, es: seq<Entry>)
    requires forall i :: 0 <= i < |es| ==> EntryListed(m, es[i])
    ensures var cmds := Commands(m, LinksOf(es)); |cmds| == |es| && forall i :: 0 <= i < |es| ==> Lists(m, es[i], cmds[i])
    ensures Inconsistent(m, LinksOf(es)) == 0 && Unreadable(m, LinksOf(es)) == 0
  {
    if es != [] {
      var n := |es| - 1;
      assert LinksOf(es)[..n] == LinksOf(es[..n]);
      assert EntryListed(m, es[n]);
      ListedCommands(m, es[..n]);
    }
  }

  /** A registry of at most cap commands is listed exactly: every command as it is stored, in order
      of its links, and nothing else. An unreadable handler or unreadable flags read as zero. */
  lemma RegistryReadBack(m: Memory, head: Word, es: seq<Entry>, cap: nat)
    requires Registered(m, head, es) && |es| <= cap
    ensures Nodes(m, head, cap) == LinksOf(es)
    ensures var cmds := Commands(m, Nodes(m, head, cap)); |cmds| == |es| && forall i :: 0 <= i < |es| ==> Lists(m, es[i], cmds[i])
    ensures Inconsistent(m, Nodes(m, head, cap)) == 0 && Unreadable(m, Nodes(m, head, cap)) == 0
  {
    FieldRead(m, head, head + 4, Some(FirstNode(es, head)));
    LinkedWalk(m, head, head, es, cap);
    LinkedListed(m, head, head, es);
    ListedCommands(m, es);
  }

  // The dword here can be read, and is not null.
  predicate Present(m: Memory, at: int) {
    var a := at % 0x1_0000_0000;
    a != 0 && a in m.dwords && m.dwords[a] != 0
  }

  // The dword here can be read, and is this one.
  predicate Names(m: Memory, at: int, w: Word) {
    var a := at % 0x1_0000_0000;
    a != 0 && a in m.dwords && m.dwords[a] == w
  }

  /** Nothing else is listed: an object counts as consistent exactly if it is not null, its fifth dword
      names it, and neither of its links is null; it is listed exactly if its name can be read too. */
  lemma ObjectListedExactly(m: Memory, obj: Word)
    ensures NodeIsConsistent(m, obj) <==> obj != 0 && Names(m, obj + 16, obj) && Present(m, obj + 8) && Present(m, obj + 12)
    ensures ReadObject(m, obj).Some? <==>
              NodeIsConsistent(m, obj) && exists p :: p in m.names && Names(m, obj, p)
  {
    NamesRead(m, obj + 16, obj);
    if ReadObject(m, obj).Some? {
      assert Names(m, obj, Read(m, obj).value);
    }
  }

  lemma NamesRead(m: Memory, at: int, w: Word)
    ensures Names(m, at, w) <==> Read(m, at) == Some(w)
  {
  }

  // ---- the census ---------------------------------------------------------------------------

  lemma {:induction false} WalkSplits(m: Memory, nodes: seq<Word>)
    ensures |nodes| == |Commands(m, nodes)| + Inconsistent(m, nodes) + Unreadable(m, nodes)
  {
    if nodes != [] {
      WalkSplits(m, nodes[..|nodes| - 1]);
    }
  }

  /** Both walks over one memory: the list has exactly as many commands as were counted, every
      node walked is a command, inconsistent or unreadable, and the counts split the total
      exactly, both by module and by origin. */
  method Census(m: Memory, head: Word, cap: nat) returns (cmds: seq<Command>, r: Option<Stats>)
    ensures r.None? ==> cmds == []
    ensures r.Some? ==> var s := r.value;
              && s.total == |cmds| && s.nodesWalked == s.total + s.inconsistentNodes + s.unreadableNames
              && s.fromExe + s.fromModules == s.total && s.builtin + s.runtime == s.total
              && s.fromExe == |set i | 0 <= i < |cmds| && cmds[i].fromExe|
              && s.distinctNames == |Elements(NamesOf(cmds))| <= s.total
              && (s.distinctNames == s.total <==> PairwiseDifferent(NamesOf(cmds)))
  {
    cmds := All(m, head, cap, 0);
    r := GetStats(m, head, cap);
    if r.Some? {
      WalkSplits(m, Nodes(m, head, cap));
      ElementsAsMany(NamesOf(cmds));
      ExeCount(cmds);
    }
  }

  lemma ExeCount(cmds: seq<Command>)
    ensures Trues(ExeBits(cmds)) == |set i | 0 <= i < |cmds| && cmds[i].fromExe|
  {
    TruesIsSize(ExeBits(cmds));
    assert (set i | 0 <= i < |cmds| && ExeBits(cmds)[i]) == set i | 0 <= i < |cmds| && cmds[i].fromExe;
  }

  lemma {:induction false} TruesIsSize(bits: seq<bool>)
    ensures Trues(bits) == |set i | 0 <= i < |bits| && bits[i]|
  {
    var whole := set i | 0 <= i < |bits| && bits[i];
    if bits == [] {
      assert whole == {};
    } else {
      var n := |bits| - 1;
      var front := bits[..n];
      TruesIsSize(front);
      var less := set i | 0 <= i < |front| && front[i];
      assert whole == less + if bits[n] then {n} else {};
    }
  }
}
