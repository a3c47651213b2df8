/** The registry that owns every hook: sealing, installing, and retiring fail-closed.
    Whether the system lets a disable succeed is a parameter of each operation. */
module HookRegistry {
  import opened Options
  import opened CodeMemory
  import opened Restoration

  datatype Entry = Entry(name: string, hook: Hook)

  datatype Target = Target(name: string, address: int)

  // The registry's fields together with the code memory the hooks patch.
  datatype Registry = Registry(isSealed: bool, hooks: seq<Entry>, targets: seq<Target>, mids: seq<Entry>,
                               retired: nat, retireStarted: bool, code: Memory)

  function Start(code: Memory): Registry {
    Registry(false, [], [], [], 0, false, code)
  }

  // ---- the operations ----------------------------------------------------------------

  // The name recorded first for this address, or the empty string.
  function OwnerOf(targets: seq<Target>, address: int): string {
    if targets == [] then ""
    else if targets[0].address == address then targets[0].name
    else OwnerOf(targets[1..], address)
  }

  // A hook handed over during or after retirement is disabled first, as far as it lets itself be.
  function Handover(r: Registry, h: Hook, ok: bool): (Hook, Memory) {
    if r.retireStarted then Disable(r.code, h, ok) else (h, r.code)
  }

  function Adopt(r: Registry, name: string, h: Hook, ok: bool): Registry {
    var (g, m) := Handover(r, h, ok);
    r.(hooks := r.hooks + [Entry(name, g)], code := m)
  }

  function AdoptMid(r: Registry, name: string, h: Hook, ok: bool): Registry {
    var (g, m) := Handover(r, h, ok);
    r.(mids := r.mids + [Entry(name, g)], code := m)
  }

  function Install(r: Registry, name: string, target: int, jump: seq<int>, ok: bool): (Registry, bool) {
    var made := Create(r.code, target, jump);
    if r.isSealed || OwnerOf(r.targets, target) != "" || made.None? then (r, false)
    else
      (Adopt(r.(code := made.value.1, targets := r.targets + [Target(name, target)]), name, made.value.0, ok), true)
  }

  function InstallMid(r: Registry, name: string, target: int, jump: seq<int>, ok: bool): (Registry, bool) {
    var made := Create(r.code, target, jump);
    if r.isSealed || made.None? then (r, false)
    else (AdoptMid(r.(code := made.value.1), name, made.value.0, ok), true)
  }

  // The first entry with this name, or the number of entries.
  function IndexOf(es: seq<Entry>, name: string): (i: nat)
    ensures i <= |es| && (i < |es| ==> es[i].name == name)
  {
    if es == [] || es[0].name == name then 0 else 1 + IndexOf(es[1..], name)
  }

  function RetireOne(r: Registry, name: string, ok: bool): (Registry, bool) {
    var i, j := IndexOf(r.hooks, name), IndexOf(r.mids, name);
    if i < |r.hooks| then
      if !r.hooks[i].hook.Active() || !ok then (r, false)
      else
        var (g, m) := Disable(r.code, r.hooks[i].hook, true);
        (r.(hooks := r.hooks[i := Entry(name, g)], code := m, retired := r.retired + 1), true)
    else if j < |r.mids| then
      if !r.mids[j].hook.Active() || !ok then (r, false)
      else
        var (g, m) := Disable(r.code, r.mids[j].hook, true);
        (r.(mids := r.mids[j := Entry(name, g)], code := m, retired := r.retired + 1), true)
    else (r, false)
  }

  // How far a retiring walk over one list has come.
  datatype Walk = Walk(entries: seq<Entry>, code: Memory, ok: bool, count: nat)

  // The walk over the first n entries; refused are the positions whose disable fails.
  function WalkTo(es: seq<Entry>, n: nat, refused: set<nat>, code: Memory): (w: Walk)
    requires n <= |es|
    ensures |w.entries| == |es| && w.entries[n..] == es[n..]
  {
    if n == 0 then Walk(es, code, true, 0)
    else
      var w := WalkTo(es, n - 1, refused, code);
      var e := es[n - 1];
      if !e.hook.Active() then w
      else if n - 1 in refused then w.(ok := false)
      else
        var (g, m) := Disable(w.code, e.hook, true);
        Walk(w.entries[n - 1 := Entry(e.name, g)], m, w.ok, w.count + 1)
  }

  function Retire(r: Registry, refused: set<nat>, refusedMids: set<nat>): (Registry, bool) {
    var w := WalkTo(r.hooks, |r.hooks|, refused, r.code);
    var v := WalkTo(r.mids, |r.mids|, refusedMids, w.code);
    (r.(hooks := w.entries, mids := v.entries, code := v.code, retired := r.retired + w.count + v.count, retireStarted := true),
     w.ok && v.ok)
  }

  // ---- the class --------------------------------------------------------------------------

  class Hooks {
    var isSealed: bool
    var hooks: seq<Entry>
    var targets: seq<Target>
    var mids: seq<Entry>
    var retired: nat
    var retireStarted: bool
    var code: Memory

    ghost function State(): Registry
      reads this
    {
      Registry(isSealed, hooks, targets, mids, retired, retireStarted, code)
    }

    constructor (memory: Memory)
      ensures State() == Start(memory)
    {
      isSealed, hooks, targets, mids, retired, retireStarted, code := false, [], [], [], 0, false, memory;
    }

    method Seal()
      modifies this
      ensures State() == old(State()).(isSealed := true)
    {
      if !isSealed {
        isSealed := true;
      }
    }

    method FindOwner(address: int) returns (name: string)
      ensures name == OwnerOf(targets, address)
    {
      assert targets[0..] == targets;
      for i := 0 to |targets|
        invariant OwnerOf(targets[i..], address) == OwnerOf(targets, address)
      {
        if targets[i].address == address {
          return targets[i].name;
        }
        assert targets[i..][1..] == targets[i + 1..];
      }
      name := "";
    }

    method InstallHook(name: string, target: int, jump: seq<int>, ok: bool) returns (installed: bool)
      modifies this
      ensures (State(), installed) == Install(old(State()), name, target, jump, ok)
    {
      if isSealed {
        return false;
      }
      var owner := FindOwner(target);
      if owner != "" {
        return false;
      }
      var made := Create(code, target, jump);
      if made.None? {
        return false;
      }
      code := made.value.1;
      targets := targets + [Target(name, target)];
      AdoptHook(name, made.value.0, ok);
      installed := true;
    }

    method AdoptHook(name: string, hook: Hook, ok: bool)
      modifies this
      ensures State() == Adopt(old(State()), name, hook, ok)
    {
      var h := hook;
      if retireStarted {
        h, code := DisableHook(h, ok);
      }
      hooks := hooks + [Entry(name, h)];
    }

    method InstallMidHook(name: string, target: int, jump: seq<int>, ok: bool) returns (installed: bool)
      modifies this
      ensures (State(), installed) == InstallMid(old(State()), name, target, jump, ok)
    {
      if isSealed {
        return false;
      }
      var made := Create(code, target, jump);
      if made.None? {
        return false;
      }
      code := made.value.1;
      AdoptMidHook(name, made.value.0, ok);
      installed := true;
    }

    method AdoptMidHook(name: string, hook: Hook, ok: bool)
      modifies this
      ensures State() == AdoptMid(old(State()), name, hook, ok)
    {
      var h := hook;
      if retireStarted {
        h, code := DisableHook(h, ok);
      }
      mids := mids + [Entry(name, h)];
    }

    method DisableHook(h: Hook, ok: bool) returns (g: Hook, m: Memory)
      ensures (g, m) == Disable(code, h, ok)
    {
      var d := Disable(code, h, ok);
      g, m := d.0, d.1;
    }

    // The position of the first entry with this name, or the number of entries.
    method Position(es: seq<Entry>, name: string) returns (i: nat)
      ensures i == IndexOf(es, name)
    {
      i := 0;
      assert es[0..] == es;
      while i < |es| && es[i].name != name
        invariant i <= |es| && IndexOf(es, name) == i + IndexOf(es[i..], name)
      {
        assert es[i..][1..] == es[i + 1..];
        i := i + 1;
      }
    }

    /** The inline hook with this name, or None. */
    method Find(name: string) returns (r: Option<Hook>)
      ensures r == if IndexOf(hooks, name) < |hooks| then Some(hooks[IndexOf(hooks, name)].hook) else None
    {
      var i := Position(hooks, name);
      r := if i < |hooks| then Some(hooks[i].hook) else None;
    }

    method RetireByName(name: string, ok: bool) returns (done: bool)
      modifies this
      ensures (State(), done) == RetireOne(old(State()), name, ok)
    {
      var i := Position(hooks, name);
      if i < |hooks| {
        if !hooks[i].hook.Active() {
          return false;
        }
        var g, m := DisableHook(hooks[i].hook, ok);
        if ok {
          hooks, code, retired := hooks[i := Entry(name, g)], m, retired + 1;
        }
        return ok;
      }
      var j := Position(mids, name);
      if j < |mids| {
        if !mids[j].hook.Active() {
          return false;
        }
        var g, m := DisableHook(mids[j].hook, ok);
        if ok {
          mids, code, retired := mids[j := Entry(name, g)], m, retired + 1;
        }
        return ok;
      }
      return false;
    }

    // The retiring walk over one list of hooks.
    method RetireList(es: seq<Entry>, refused: set<nat>) returns (after: seq<Entry>, ok: bool, count: nat)
      modifies this`code
      ensures Walk(after, code, ok, count) == WalkTo(es, |es|, refused, old(code))
    {
      after, ok, count := es, true, 0;
      for i := 0 to |es|
        invariant Walk(after, code, ok, count) == WalkTo(es, i, refused, old(code))
      {
        var e := es[i];
        if e.hook.Empty? || !e.hook.enabled {
          continue;
        }
        var g, m := DisableHook(e.hook, i !in refused);
        if i in refused {
          ok := false;
        } else {
          after, code, count := after[i := Entry(e.name, g)], m, count + 1;
        }
      }
    }

    /** Disables every hook, inline hooks first. False if any disable failed. */
    method RetireAll(refused: set<nat>, refusedMids: set<nat>) returns (ok: bool)
      modifies this
      ensures (State(), ok) == Retire(old(State()), refused, refusedMids)
    {
      retireStarted := true;
      var inlineOk, inlineCount, midsOk, midsCount;
      hooks, inlineOk, inlineCount := RetireList(hooks, refused);
      mids, midsOk, midsCount := RetireList(mids, refusedMids);
      retired := retired + inlineCount + midsCount;
      ok := inlineOk && midsOk;
    }
  }

  // ---- histories ---------------------------------------------------------------------------

  datatype Op =
    | DoSeal
    | DoInstall(name: string, target: int, jump: seq<int>, ok: bool)
    | DoInstallMid(name: string, target: int, jump: seq<int>, ok: bool)
    | DoRetireOne(name: string, ok: bool)
    | DoRetire(refused: set<nat>, refusedMids: set<nat>)

  function Apply(r: Registry, op: Op): (Registry, bool) {
    match op
    case DoSeal => (r.(isSealed := true), true)
    case DoInstall(name, target, jump, ok) => Install(r, name, target, jump, ok)
    case DoInstallMid(name, target, jump, ok) => InstallMid(r, name, target, jump, ok)
    case DoRetireOne(name, ok) => RetireOne(r, name, ok)
    case DoRetire(refused, refusedMids) => Retire(r, refused, refusedMids)
  }

  function Run(r: Registry, ops: seq<Op>): Registry {
    if ops == [] then r else Apply(Run(r, ops[..|ops| - 1]), ops[|ops| - 1]).0
  }

  function HooksOf(es: seq<Entry>): (hs: seq<Hook>)
    ensures |hs| == |es| && forall i :: 0 <= i < |hs| ==> hs[i] == es[i].hook
  {
    seq(|es|, i requires 0 <= i < |es| => es[i].hook)
  }

  function AllHooks(r: Registry): seq<Hook> {
    HooksOf(r.hooks) + HooksOf(r.mids)
  }

  // Where a new hook would put its patch.
  function Footprint(target: int, jump: seq<int>): Hook {
    Hook(target, [], jump, true)
  }

  /** What the registry relies on and does not check. An inline hook has a name, and its
      patch is clear of every mid hook and of inline hooks at other addresses. A mid hook's
      patch is clear of everything. */
  ghost predicate Disciplined(r: Registry, op: Op) {
    match op
    case DoInstall(name, target, jump, _) =>
      && name != ""
      && (forall i :: 0 <= i < |r.hooks| && r.hooks[i].hook.Hook? && r.hooks[i].hook.target != target ==> Disjoint(Footprint(target, jump), r.hooks[i].hook))
      && (forall i :: 0 <= i < |r.mids| ==> Disjoint(Footprint(target, jump), r.mids[i].hook))
    case DoInstallMid(_, target, jump, _) =>
      forall i :: 0 <= i < |AllHooks(r)| ==> Disjoint(Footprint(target, jump), AllHooks(r)[i])
    case _ => true
  }

  ghost predicate DisciplinedRun(r: Registry, ops: seq<Op>) {
    ops == [] || (DisciplinedRun(r, ops[..|ops| - 1]) && Disciplined(Run(r, ops[..|ops| - 1]), ops[|ops| - 1]))
  }

  // Every inline hook's address is recorded, and every record names an owner.
  ghost predicate Owned(r: Registry) {
    && (forall i :: 0 <= i < |r.targets| ==> r.targets[i].name != "")
    && (forall i :: 0 <= i < |r.hooks| && r.hooks[i].hook.Hook? ==> OwnerOf(r.targets, r.hooks[i].hook.target) != "")
  }

  ghost predicate Invariant(r: Registry, original: Memory) {
    Overlaid(AllHooks(r), r.code, original) && Owned(r)
  }

  lemma {:induction false} OwnerAfterRecord(targets: seq<Target>, t: Target, address: int)
    requires forall i :: 0 <= i < |targets| ==> targets[i].name != ""
    requires t.name != ""
    ensures OwnerOf(targets + [t], address) != "" <==> OwnerOf(targets, address) != "" || t.address == address
  {
    if targets != [] && targets[0].address != address {
      OwnerAfterRecord(targets[1..], t, address);
      assert (targets + [t])[1..] == targets[1..] + [t];
    } else if targets == [] {
      assert (targets + [t])[1..] == [];
    }
  }

  // Room for one more hook between two lists of them.
  lemma OverlaidWithRoom(a: seq<Hook>, b: seq<Hook>, code: Memory, original: Memory)
    requires Overlaid(a + b, code, original)
    ensures Overlaid(a + [Empty] + b, code, original)
  {
    var s, t := a + b, a + [Empty] + b;

    assert forall i :: 0 <= i < |t| ==> t[i] == if i == |a| then Empty else s[if i < |a| then i else i - 1];
    forall a' | a' in code && (forall i :: 0 <= i < |t| ==> !t[i].Covers(a'))
      ensures code[a'] == original[a']
    {
      forall i | 0 <= i < |s|
        ensures !s[i].Covers(a')
      {
        assert s[i] == t[if i < |a| then i else i + 1];
      }
    }
  }

  // A hook created clear of all others and handed over, between two lists.
  lemma HandoverKeeps(r: Registry, a: seq<Hook>, b: seq<Hook>, original: Memory, target: int, jump: seq<int>, ok: bool)
    requires Overlaid(a + b, r.code, original) && Create(r.code, target, jump).Some?
    requires forall i :: 0 <= i < |a + b| ==> Disjoint(Footprint(target, jump), (a + b)[i])
    ensures var (h, m) := Create(r.code, target, jump).value;
            var (g, n) := Handover(r.(code := m), h, ok);
            Overlaid(a + [g] + b, n, original)
  {
    var (h, m) := Create(r.code, target, jump).value;
    var (g, n) := Handover(r.(code := m), h, ok);
    var room, k := a + [Empty] + b, |a|;
    OverlaidWithRoom(a, b, r.code, original);
    forall i | 0 <= i < |room|
      ensures Disjoint(h, room[i])
    {
      if i != k {
        assert room[i] == (a + b)[if i < k then i else i - 1];
      }
    }
    OverlayGrows(room, k, r.code, original, target, jump);
    assert room[k := h] == a + [h] + b;
    OverlayShrinks(a + [h] + b, k, m, original, ok);
    assert (a + [h] + b)[k := g] == a + [g] + b;
  }

  lemma InstallKeeps(r: Registry, original: Memory, name: string, target: int, jump: seq<int>, ok: bool)
    requires Invariant(r, original) && Disciplined(r, DoInstall(name, target, jump, ok))
    ensures Invariant(Install(r, name, target, jump, ok).0, original)
  {
    var (s, installed) := Install(r, name, target, jump, ok);
    if installed {
      var a, b := HooksOf(r.hooks), HooksOf(r.mids);
      forall i | 0 <= i < |a + b|
        ensures Disjoint(Footprint(target, jump), (a + b)[i])
      {
        if i < |a| {
          assert (a + b)[i] == r.hooks[i].hook;
        } else {
          assert (a + b)[i] == r.mids[i - |a|].hook;
        }
      }
      HandoverKeeps(r, a, b, original, target, jump, ok);
      var (h, m) := Create(r.code, target, jump).value;
      var (g, n) := Handover(r.(code := m), h, ok);
      assert HooksOf(s.hooks) == a + [g];
      forall i | 0 <= i < |s.hooks| && s.hooks[i].hook.Hook?
        ensures OwnerOf(s.targets, s.hooks[i].hook.target) != ""
      {
        OwnerAfterRecord(r.targets, Target(name, target), s.hooks[i].hook.target);
        if i < |r.hooks| {
          assert s.hooks[i] == r.hooks[i];
        }
      }
    }
  }

  lemma InstallMidKeeps(r: Registry, original: Memory, name: string, target: int, jump: seq<int>, ok: bool)
    requires Invariant(r, original) && Disciplined(r, DoInstallMid(name, target, jump, ok))
    ensures Invariant(InstallMid(r, name, target, jump, ok).0, original)
  {
    var (s, installed) := InstallMid(r, name, target, jump, ok);
    if installed {
      var all := AllHooks(r);
      assert all + [] == all;
      HandoverKeeps(r, all, [], original, target, jump, ok);
      var (h, m) := Create(r.code, target, jump).value;
      var (g, n) := Handover(r.(code := m), h, ok);
      assert AllHooks(s) == all + [g] + [];
    }
  }

  // Disabling one entry of a list keeps the overlay of all hooks.
  lemma DisableInList(a: seq<Hook>, es: seq<Entry>, b: seq<Hook>, i: nat, name: string, code: Memory, original: Memory)
    requires i < |es| && Overlaid(a + HooksOf(es) + b, code, original)
    ensures var (g, m) := Disable(code, es[i].hook, true);
            Overlaid(a + HooksOf(es[i := Entry(name, g)]) + b, m, original)
  {
    var (g, m) := Disable(code, es[i].hook, true);
    var all, k := a + HooksOf(es) + b, |a| + i;
    OverlayShrinks(all, k, code, original, true);
    assert HooksOf(es[i := Entry(name, g)]) == HooksOf(es)[i := g];
    assert all[k := g] == a + HooksOf(es)[i := g] + b;
  }

  lemma RetireOneKeeps(r: Registry, original: Memory, name: string, ok: bool)
    requires Invariant(r, original)
    ensures Invariant(RetireOne(r, name, ok).0, original)
  {
    var i, j := IndexOf(r.hooks, name), IndexOf(r.mids, name);
    var a, b := HooksOf(r.hooks), HooksOf(r.mids);
    if i < |r.hooks| {
      assert [] + a + b == a + b;
      DisableInList([], r.hooks, b, i, name, r.code, original);
      var after := HooksOf(r.hooks[i := Entry(name, Disable(r.code, r.hooks[i].hook, true).0)]);
      assert [] + after + b == after + b;
    } else if j < |r.mids| {
      assert a + b + [] == a + b;
      DisableInList(a, r.mids, [], j, name, r.code, original);
      var after := HooksOf(r.mids[j := Entry(name, Disable(r.code, r.mids[j].hook, true).0)]);
      assert a + after + [] == a + after;
    }
  }

  // A retiring walk over one part of the hooks keeps the overlay of them all.
  lemma {:induction false} WalkKeeps(a: seq<Hook>, es: seq<Entry>, b: seq<Hook>, n: nat, refused: set<nat>, code: Memory, original: Memory)
    requires n <= |es| && Overlaid(a + HooksOf(es) + b, code, original)
    ensures var w := WalkTo(es, n, refused, code); Overlaid(a + HooksOf(w.entries) + b, w.code, original)
    decreases n
  {
    if n > 0 {
      WalkKeeps(a, es, b, n - 1, refused, code, original);
      var w := WalkTo(es, n - 1, refused, code);
      assert w.entries[n - 1] == w.entries[n - 1..][0] == es[n - 1..][0];
      if es[n - 1].hook.Active() && n - 1 !in refused {
        DisableInList(a, w.entries, b, n - 1, es[n - 1].name, w.code, original);
      }
    }
  }

  // What the walk leaves of an entry.
  function Left(e: Entry, isRefused: bool): Entry {
    if e.hook.Active() && !isRefused then Entry(e.name, e.hook.(enabled := false)) else e
  }

  lemma {:induction false} WalkLeaves(es: seq<Entry>, n: nat, refused: set<nat>, code: Memory)
    requires n <= |es|
    ensures forall i :: 0 <= i < n ==> WalkTo(es, n, refused, code).entries[i] == Left(es[i], i in refused)
    decreases n
  {
    if n > 0 {
      WalkLeaves(es, n - 1, refused, code);
      var w := WalkTo(es, n - 1, refused, code);
      assert w.entries[n - 1] == w.entries[n - 1..][0] == es[n - 1..][0];
    }
  }

  lemma {:induction false} WalkVerdict(es: seq<Entry>, n: nat, refused: set<nat>, code: Memory)
    requires n <= |es|
    ensures var w := WalkTo(es, n, refused, code);
            && (w.ok <==> forall i :: 0 <= i < n ==> !Left(es[i], i in refused).hook.Active())
            && w.count == ActiveCount(es[..n]) - ActiveCount(w.entries[..n])
    decreases n
  {
    if n > 0 {
      WalkVerdict(es, n - 1, refused, code);
      var w, v := WalkTo(es, n - 1, refused, code), WalkTo(es, n, refused, code);
      assert w.entries[n - 1] == w.entries[n - 1..][0] == es[n - 1..][0];
      assert es[..n][..n - 1] == es[..n - 1] && v.entries[..n][..n - 1] == w.entries[..n - 1];
    }
  }

  function ActiveCount(es: seq<Entry>): nat {
    if es == [] then 0 else ActiveCount(es[..|es| - 1]) + if es[|es| - 1].hook.Active() then 1 else 0
  }

  // Both walks of a retirement, one after the other.
  lemma WalksKeep(hs: seq<Entry>, ms: seq<Entry>, refused: set<nat>, refusedMids: set<nat>, code: Memory, original: Memory)
    requires Overlaid(HooksOf(hs) + HooksOf(ms), code, original)
    ensures var w := WalkTo(hs, |hs|, refused, code);
            var v := WalkTo(ms, |ms|, refusedMids, w.code);
            Overlaid(HooksOf(w.entries) + HooksOf(v.entries), v.code, original)
  {
    var a, b := HooksOf(hs), HooksOf(ms);
    assert [] + a + b == a + b;
    WalkKeeps([], hs, b, |hs|, refused, code, original);
    var w := WalkTo(hs, |hs|, refused, code);
    var c := HooksOf(w.entries);
    assert [] + c + b == c + b + [];
    WalkKeeps(c, ms, [], |ms|, refusedMids, w.code, original);
    var d := HooksOf(WalkTo(ms, |ms|, refusedMids, w.code).entries);
    assert c + d + [] == c + d;
  }

  lemma OwnedAfterWalk(r: Registry, s: Registry, refused: set<nat>)
    requires Owned(r) && s.targets == r.targets && s.hooks == WalkTo(r.hooks, |r.hooks|, refused, r.code).entries
    ensures Owned(s)
  {
    WalkLeaves(r.hooks, |r.hooks|, refused, r.code);
    forall i | 0 <= i < |s.hooks| && s.hooks[i].hook.Hook?
      ensures OwnerOf(s.targets, s.hooks[i].hook.target) != ""
    {
      assert s.hooks[i] == Left(r.hooks[i], i in refused);
    }
  }

  lemma RetireKeeps(r: Registry, original: Memory, refused: set<nat>, refusedMids: set<nat>)
    requires Invariant(r, original)
    ensures Invariant(Retire(r, refused, refusedMids).0, original)
  {
    WalksKeep(r.hooks, r.mids, refused, refusedMids, r.code, original);
    OwnedAfterWalk(r, Retire(r, refused, refusedMids).0, refused);
  }

  /** Every operation keeps code memory the original under the active patches, and keeps one
      owner per inline target, as long as its unchecked assumptions hold. */
  lemma ApplyKeeps(r: Registry, op: Op, original: Memory)
    requires Invariant(r, original) && Disciplined(r, op)
    ensures Invariant(Apply(r, op).0, original)
  {
    match op
    case DoSeal =>
    case DoInstall(name, target, jump, ok) => InstallKeeps(r, original, name, target, jump, ok);
    case DoInstallMid(name, target, jump, ok) => InstallMidKeeps(r, original, name, target, jump, ok);
    case DoRetireOne(name, ok) => RetireOneKeeps(r, original, name, ok);
    case DoRetire(refused, refusedMids) => RetireKeeps(r, original, refused, refusedMids);
  }

  lemma {:induction false} RunKeeps(original: Memory, ops: seq<Op>)
    requires DisciplinedRun(Start(original), ops)
    ensures Invariant(Run(Start(original), ops), original)
  {
    if ops != [] {
      RunKeeps(original, ops[..|ops| - 1]);
      ApplyKeeps(Run(Start(original), ops[..|ops| - 1]), ops[|ops| - 1], original);
    }
  }

  /** Retirement is fail-closed: it answers true exactly when it leaves no hook active, and
      what it disables it counts. */
  lemma RetireExact(r: Registry, refused: set<nat>, refusedMids: set<nat>)
    ensures var (s, ok) := Retire(r, refused, refusedMids);
            && (ok <==> NoneActive(AllHooks(s)))
            && ActiveCount(s.hooks) + ActiveCount(s.mids) + s.retired == ActiveCount(r.hooks) + ActiveCount(r.mids) + r.retired
            && s.retireStarted && |s.hooks| == |r.hooks| && |s.mids| == |r.mids|
  {
    var w := WalkTo(r.hooks, |r.hooks|, refused, r.code);
    var v := WalkTo(r.mids, |r.mids|, refusedMids, w.code);
    WalkLeaves(r.hooks, |r.hooks|, refused, r.code);
    WalkLeaves(r.mids, |r.mids|, refusedMids, w.code);
    WalkVerdict(r.hooks, |r.hooks|, refused, r.code);
    WalkVerdict(r.mids, |r.mids|, refusedMids, w.code);
    assert w.entries[..|r.hooks|] == w.entries && r.hooks[..|r.hooks|] == r.hooks;
    assert v.entries[..|r.mids|] == v.entries && r.mids[..|r.mids|] == r.mids;
    NoneActiveInEither(w.entries, v.entries);
  }

  ghost predicate First(es: seq<Entry>, name: string, i: nat) {
    i < |es| && es[i].name == name && forall j :: 0 <= j < i ==> es[j].name != name
  }

  ghost predicate Named(es: seq<Entry>, name: string) {
    exists i :: 0 <= i < |es| && es[i].name == name
  }

  lemma {:induction false} IndexOfIsFirst(es: seq<Entry>, name: string)
    ensures First(es, name, IndexOf(es, name)) <==> IndexOf(es, name) < |es|
    ensures IndexOf(es, name) < |es| <==> Named(es, name)
  {
    if es != [] && es[0].name != name {
      var i := IndexOf(es[1..], name);
      IndexOfIsFirst(es[1..], name);
      assert forall j :: 0 < j < |es| ==> es[j] == es[1..][j - 1];
    }
  }

  /** Retiring by name succeeds exactly when the system allows it and the first hook of that
      name, looked for among inline hooks first, is active. Otherwise nothing changes. */
  lemma RetireOneExact(r: Registry, name: string, ok: bool)
    ensures var (s, done) := RetireOne(r, name, ok);
            && (done <==> ok && exists i: nat ::
                  || (First(r.hooks, name, i) && r.hooks[i].hook.Active())
                  || (!Named(r.hooks, name) && First(r.mids, name, i) && r.mids[i].hook.Active()))
            && (!done ==> s == r)
  {
    var i, j := IndexOf(r.hooks, name), IndexOf(r.mids, name);
    IndexOfIsFirst(r.hooks, name);
    IndexOfIsFirst(r.mids, name);
    assert forall k: nat :: First(r.hooks, name, k) ==> k == i;
    assert forall k: nat :: First(r.mids, name, k) ==> k == j;
  }

  // ---- after sealing -------------------------------------------------------------------

  // Hooks that are active or were retired by name or by a retirement.
  function Accounted(r: Registry): nat {
    ActiveCount(r.hooks) + ActiveCount(r.mids) + r.retired
  }

  lemma {:induction false} OneFewerActive(es: seq<Entry>, i: nat, e: Entry)
    requires i < |es| && es[i].hook.Active() && !e.hook.Active()
    ensures ActiveCount(es[i := e]) == ActiveCount(es) - 1
  {
    var n := |es| - 1;
    if i < n {
      OneFewerActive(es[..n], i, e);
      assert es[i := e][..n] == es[..n][i := e];
    } else {
      assert es[i := e][..n] == es[..n];
    }
  }

  // The same hooks under the same names, and every one of them accounted for.
  ghost predicate OnlyRetired(r: Registry, s: Registry) {
    && s.isSealed && s.targets == r.targets && |s.hooks| == |r.hooks| && |s.mids| == |r.mids|
    && Accounted(s) == Accounted(r)
  }

  lemma RetireOneAccounts(r: Registry, name: string, ok: bool)
    requires r.isSealed
    ensures OnlyRetired(r, RetireOne(r, name, ok).0)
  {
    var i, j := IndexOf(r.hooks, name), IndexOf(r.mids, name);
    if RetireOne(r, name, ok).1 {
      if i < |r.hooks| {
        OneFewerActive(r.hooks, i, Entry(name, Disable(r.code, r.hooks[i].hook, true).0));
      } else {
        OneFewerActive(r.mids, j, Entry(name, Disable(r.code, r.mids[j].hook, true).0));
      }
    }
  }

  /** After sealing no history adds a hook or a target, and it conserves the active hooks
      plus the retired count: every hook that stops being active is counted, exactly once. */
  lemma {:induction false} SealedOnlyRetires(r: Registry, ops: seq<Op>)
    requires r.isSealed
    ensures OnlyRetired(r, Run(r, ops))
  {
    if ops != [] {
      SealedOnlyRetires(r, ops[..|ops| - 1]);
      var s := Run(r, ops[..|ops| - 1]);
      match ops[|ops| - 1]
      case DoRetireOne(name, ok) => RetireOneAccounts(s, name, ok);
      case DoRetire(refused, refusedMids) => RetireExact(s, refused, refusedMids);
      case _ =>
    }
  }

  lemma NoneActiveInEither(a: seq<Entry>, b: seq<Entry>)
    ensures NoneActive(HooksOf(a) + HooksOf(b)) <==>
            (forall i :: 0 <= i < |a| ==> !a[i].hook.Active()) && (forall i :: 0 <= i < |b| ==> !b[i].hook.Active())
  {
    var all := HooksOf(a) + HooksOf(b);
    if NoneActive(all) {
      assert forall i :: 0 <= i < |a| ==> all[i] == a[i].hook && !all[i].Active();
      assert forall i :: 0 <= i < |b| ==> all[|a| + i] == b[i].hook && !all[|a| + i].Active();
    } else {
      var i :| 0 <= i < |all| && all[i].Active();
      assert if i < |a| then a[i].hook == all[i] else b[i - |a|].hook == all[i];
    }
  }

  // ---- byte restoration --------------------------------------------------------------------

  lemma {:induction false} WalkRestores(es: seq<Entry>, n: nat, refused: set<nat>, code: Memory)
    requires n <= |es| && WalkTo(es, n, refused, code).ok
    ensures WalkTo(es, n, refused, code).code == RestoreAll(HooksOf(es)[..n], code)
    decreases n
  {
    if n > 0 {
      WalkRestores(es, n - 1, refused, code);
      assert HooksOf(es)[..n][..n - 1] == HooksOf(es)[..n - 1];
    }
  }

  // A retirement that answers true has disabled every hook, inline hooks first.
  lemma RetireIsRestoreAll(r: Registry, refused: set<nat>, refusedMids: set<nat>)
    requires Retire(r, refused, refusedMids).1
    ensures Retire(r, refused, refusedMids).0.code == RestoreAll(AllHooks(r), r.code)
  {
    WalkRestores(r.hooks, |r.hooks|, refused, r.code);
    var w := WalkTo(r.hooks, |r.hooks|, refused, r.code);
    WalkRestores(r.mids, |r.mids|, refusedMids, w.code);
    assert HooksOf(r.hooks)[..|r.hooks|] == HooksOf(r.hooks) && HooksOf(r.mids)[..|r.mids|] == HooksOf(r.mids);
    RestoreInTwo(HooksOf(r.hooks), HooksOf(r.mids), r.code);
  }

  /** Byte restoration, for any registry at all, with patches that may overlap: a retirement
      that answers true leaves code memory original exactly if the last active hook over each
      address, in the order of the walk, saved the original byte. */
  lemma RetireRestoresExactly(r: Registry, refused: set<nat>, refusedMids: set<nat>, original: Memory)
    requires r.code.Keys == original.Keys && Retire(r, refused, refusedMids).1
    ensures Retire(r, refused, refusedMids).0.code == original <==> Recoverable(AllHooks(r), r.code, original)
  {
    RetireIsRestoreAll(r, refused, refusedMids);
    RestoresExactly(AllHooks(r), r.code, original);
  }

  lemma {:induction false} WalkMaps(es: seq<Entry>, n: nat, refused: set<nat>, code: Memory)
    requires n <= |es|
    ensures WalkTo(es, n, refused, code).code.Keys == code.Keys
    decreases n
  {
    if n > 0 {
      WalkMaps(es, n - 1, refused, code);
    }
  }

  lemma {:induction false} RunMaps(original: Memory, ops: seq<Op>)
    ensures Run(Start(original), ops).code.Keys == original.Keys
  {
    if ops != [] {
      RunMaps(original, ops[..|ops| - 1]);
      var r := Run(Start(original), ops[..|ops| - 1]);
      if ops[|ops| - 1].DoRetire? {
        var op := ops[|ops| - 1];
        WalkMaps(r.hooks, |r.hooks|, op.refused, r.code);
        WalkMaps(r.mids, |r.mids|, op.refusedMids, WalkTo(r.hooks, |r.hooks|, op.refused, r.code).code);
      }
    }
  }

  /** The same after any history whatever from untouched code. */
  lemma HistoryRestoresExactly(original: Memory, ops: seq<Op>, refused: set<nat>, refusedMids: set<nat>)
    requires Retire(Run(Start(original), ops), refused, refusedMids).1
    ensures var r := Run(Start(original), ops);
            && r.code.Keys == original.Keys
            && (Retire(r, refused, refusedMids).0.code == original <==> Recoverable(AllHooks(r), r.code, original))
  {
    RunMaps(original, ops);
    RetireRestoresExactly(Run(Start(original), ops), refused, refusedMids, original);
  }

  /** A disciplined history meets that condition: whatever was installed, refused, retired
      singly or retired before, every byte is as it was before the first hook. */
  lemma RetireRestoresBytes(original: Memory, ops: seq<Op>, refused: set<nat>, refusedMids: set<nat>)
    requires DisciplinedRun(Start(original), ops)
    requires Retire(Run(Start(original), ops), refused, refusedMids).1
    ensures Retire(Run(Start(original), ops), refused, refusedMids).0.code == original
  {
    var r := Run(Start(original), ops);
    RunKeeps(original, ops);
    OverlaidRecoverable(AllHooks(r), r.code, original);
    HistoryRestoresExactly(original, ops, refused, refusedMids);
  }

  // ---- what one owner per target is worth --------------------------------------------------

  // The first record for this address, or the number of records.
  function RecordOf(targets: seq<Target>, address: int): (i: nat)
    ensures i <= |targets| && (i < |targets| ==> targets[i].address == address)
    ensures forall j :: 0 <= j < i ==> targets[j].address != address
  {
    if targets == [] || targets[0].address == address then 0 else 1 + RecordOf(targets[1..], address)
  }

  /** The refusal rests on the owner's name: an install is accepted exactly when the registry
      is open, the factory succeeds, and either nothing is recorded for the target or the
      first record for it has the empty name. */
  lemma InstallAccepted(r: Registry, name: string, target: int, jump: seq<int>, ok: bool)
    ensures var i := RecordOf(r.targets, target);
            Install(r, name, target, jump, ok).1 <==>
              && !r.isSealed && jump != [] && Mapped(r.code, target, |jump|)
              && (i == |r.targets| || r.targets[i].name == "")
  {
    OwnerIsFirstRecord(r.targets, target);
  }

  lemma {:induction false} OwnerIsFirstRecord(targets: seq<Target>, address: int)
    ensures var i := RecordOf(targets, address); OwnerOf(targets, address) == if i < |targets| then targets[i].name else ""
  {
    if targets != [] {
      OwnerIsFirstRecord(targets[1..], address);
    }
  }

  lemma UnrefusedSucceeds(r: Registry)
    ensures Retire(r, {}, {}).1
  {
    WalkVerdict(r.hooks, |r.hooks|, {}, r.code);
    WalkVerdict(r.mids, |r.mids|, {}, WalkTo(r.hooks, |r.hooks|, {}, r.code).code);
  }

  // Retiring two hooks, without refusals.
  lemma RetireTwo(s: Registry, g: Hook, h: Hook)
    requires AllHooks(s) == [g, h]
    ensures var (t, ok) := Retire(s, {}, {}); ok && t.code == RestoreAll([g, h], s.code)
  {
    UnrefusedSucceeds(s);
    RetireIsRestoreAll(s, {}, {});
  }

  lemma FirstInline(original: Memory, name: string, t: int, first: seq<int>)
    requires first != [] && Mapped(original, t, |first|)
    ensures Install(Start(original), name, t, first, true)
            == (Registry(false, [Entry(name, LowerHook(original, t, first))], [Target(name, t)], [], 0, false, Poke(original, t, first)), true)
  {
    var r := Install(Start(original), name, t, first, true).0;
    assert r.hooks == [Entry(name, LowerHook(original, t, first))] && r.targets == [Target(name, t)];
  }

  lemma FirstMid(original: Memory, name: string, t: int, first: seq<int>)
    requires first != [] && Mapped(original, t, |first|)
    ensures InstallMid(Start(original), name, t, first, true)
            == (Registry(false, [], [], [Entry(name, LowerHook(original, t, first))], 0, false, Poke(original, t, first)), true)
  {
    assert InstallMid(Start(original), name, t, first, true).0.mids == [Entry(name, LowerHook(original, t, first))];
  }

  // The factory succeeds over the first patch.
  lemma SecondCreated(original: Memory, t: int, first: seq<int>, u: int, second: seq<int>)
    requires Stackable(original, t, first, u, second)
    ensures Create(Poke(original, t, first), u, second) == Some((UpperHook(original, t, first, u, second), Stacked(original, t, first, u, second)))
  {
    assert Mapped(Poke(original, t, first), u, |second|);
  }

  lemma HooksOfNone(es: seq<Entry>)
    requires es == []
    ensures HooksOf(es) == []
  {
  }

  lemma HooksOfOne(e: Entry)
    ensures HooksOf([e]) == [e.hook]
  {
    assert |HooksOf([e])| == 1 && HooksOf([e])[0] == [e][0].hook;
    assert HooksOf([e]) == [e.hook];
  }

  lemma HooksOfTwo(e: Entry, f: Entry)
    ensures HooksOf([e, f]) == [e.hook, f.hook]
  {
    assert |HooksOf([e, f])| == 2 && HooksOf([e, f])[0] == [e, f][0].hook && HooksOf([e, f])[1] == [e, f][1].hook;
    assert HooksOf([e, f]) == [e.hook, f.hook];
  }

  /** A mid hook over an inline hook, which is not checked: both installs and the retirement
      succeed, and the inline hook's jump stays behind under the mid hook's range, unless it is
      harmless there. */
  lemma MidOverInlineLeavesJump(original: Memory, t: int, first: seq<int>, u: int, second: seq<int>)
    requires Stackable(original, t, first, u, second)
    ensures var (r, a) := Install(Start(original), "inline", t, first, true);
            var (s, b) := InstallMid(r, "mid", u, second, true);
            var (v, ok) := Retire(s, {}, {});
            a && b && ok && (v.code == original <==> Harmless(original, t, first, u, second))
  {
    var g, h := LowerHook(original, t, first), UpperHook(original, t, first, u, second);
    FirstInline(original, "inline", t, first);
    SecondCreated(original, t, first, u, second);
    var r := Install(Start(original), "inline", t, first, true).0;
    var s := InstallMid(r, "mid", u, second, true).0;
    assert s.hooks == [Entry("inline", g)] && s.mids == [Entry("mid", h)];
    HooksOfOne(s.hooks[0]);
    HooksOfOne(s.mids[0]);
    RetireTwo(s, g, h);
    InOrderExactly(original, t, first, u, second);
  }

  /** The other way round the walk happens to run in reverse order of installation, and
      everything is restored. */
  lemma InlineOverMidRestores(original: Memory, t: int, first: seq<int>, u: int, second: seq<int>)
    requires Stackable(original, t, first, u, second)
    ensures var (r, a) := InstallMid(Start(original), "mid", t, first, true);
            var (s, b) := Install(r, "inline", u, second, true);
            var (v, ok) := Retire(s, {}, {});
            a && b && ok && v.code == original
  {
    var g, h := LowerHook(original, t, first), UpperHook(original, t, first, u, second);
    FirstMid(original, "mid", t, first);
    SecondCreated(original, t, first, u, second);
    var r := InstallMid(Start(original), "mid", t, first, true).0;
    var s := Install(r, "inline", u, second, true).0;
    assert s.hooks == [Entry("inline", h)] && s.mids == [Entry("mid", g)];
    HooksOfOne(s.hooks[0]);
    HooksOfOne(s.mids[0]);
    RetireTwo(s, h, g);
    InReverseAlways(original, t, first, u, second);
  }

  // The registry after one inline hook.
  function One(original: Memory, name: string, t: int, first: seq<int>): Registry
    requires first != [] && Mapped(original, t, |first|)
  {
    Registry(false, [Entry(name, LowerHook(original, t, first))], [Target(name, t)], [], 0, false, Poke(original, t, first))
  }

  lemma OwnerOfOne(name: string, t: int, u: int)
    ensures OwnerOf([Target(name, t)], u) == if t == u then name else ""
  {
    var ts := [Target(name, t)];
    assert ts[1..] == [];
  }

  // What a second install does to it.
  lemma SecondInstalled(original: Memory, name: string, t: int, first: seq<int>, u: int, second: seq<int>)
    requires Stackable(original, t, first, u, second)
    ensures var (s, b) := Install(One(original, name, t, first), "second", u, second, true);
            && (b <==> t != u || name == "")
            && (b ==> s.code == Stacked(original, t, first, u, second)
                      && AllHooks(s) == [LowerHook(original, t, first), UpperHook(original, t, first, u, second)])
  {
    SecondCreated(original, t, first, u, second);
    OwnerOfOne(name, t, u);
    var (s, b) := Install(One(original, name, t, first), "second", u, second, true);
    if b {
      var g, h := LowerHook(original, t, first), UpperHook(original, t, first, u, second);
      assert s.hooks == [Entry(name, g), Entry("second", h)] && s.mids == [];
      HooksOfTwo(Entry(name, g), Entry("second", h));
      HooksOfNone(s.mids);
      assert AllHooks(s) == [g, h];
    }
  }

  /** A second inline hook is accepted exactly if its target is another address, however close
      to the first, or the first hook has the empty name. If it is, the retirement succeeds,
      and the first jump stays behind under the second patch unless it is harmless there. */
  lemma SecondInlineHook(original: Memory, name: string, t: int, first: seq<int>, u: int, second: seq<int>)
    requires Stackable(original, t, first, u, second)
    ensures var (r, a) := Install(Start(original), name, t, first, true);
            var (s, b) := Install(r, "second", u, second, true);
            var (v, ok) := Retire(s, {}, {});
            a && (b <==> t != u || name == "") && ok && (b ==> (v.code == original <==> Harmless(original, t, first, u, second)))
  {
    var g, h := LowerHook(original, t, first), UpperHook(original, t, first, u, second);
    FirstInline(original, name, t, first);
    SecondInstalled(original, name, t, first, u, second);
    var r := Install(Start(original), name, t, first, true).0;
    var (s, b) := Install(r, "second", u, second, true);
    UnrefusedSucceeds(s);
    if b {
      RetireTwo(s, g, h);
      InOrderExactly(original, t, first, u, second);
    }
  }

  /** Two named inline hooks at neighbouring addresses are both accepted, though the second
      overwrites part of the first one's jump and saves it. */
  lemma NeighboursOverlap(original: Memory, t: int, first: seq<int>, second: seq<int>)
    requires Stackable(original, t, first, t + 1, second) && |first| > 1 && first[1] != original[t + 1]
    ensures var r := Install(Start(original), "first", t, first, true).0;
            var (s, b) := Install(r, "second", t + 1, second, true);
            var (v, ok) := Retire(s, {}, {});
            b && ok && v.code != original
  {
    SecondInlineHook(original, "first", t, first, t + 1, second);
    assert !Harmless(original, t, first, t + 1, second) by {
      assert t <= t + 1 < t + |first|;
    }
  }

  /** An inline hook with the empty name owns nothing: a second inline hook is accepted at
      its very target. */
  lemma EmptyNameOwnsNothing(original: Memory, target: int, first: seq<int>, second: seq<int>)
    requires Stackable(original, target, first, target, second)
    ensures var (r, a) := Install(Start(original), "", target, first, true);
            var (s, b) := Install(r, "second", target, second, true);
            var (t, ok) := Retire(s, {}, {});
            a && b && ok && (t.code == original <==> Harmless(original, target, first, target, second))
  {
    SecondInlineHook(original, "", target, first, target, second);
  }
}
