/** The sequential history behind an interleaving: every adopted installer's operation again, in
    the order of adoption, each hook that is no longer active retired at once. */
module HookReplay {
  import opened CodeMemory
  import opened HookHistories
  import opened HookProtocol
  import opened HookRefinement
  import opened Options
  import R = HookRegistry

  // ---- one installation in an open registry ---------------------------------------------------

  ghost predicate Room(r: R.Registry, h: Hook) {
    forall k :: 0 <= k < |R.AllHooks(r)| ==> R.AllHooks(r)[k].Active() ==> Apart(R.AllHooks(r)[k], h)
  }

  // The hook as the factory makes it, which the handover then leaves as h.
  function Made(h: Hook): Hook
    requires h.Hook?
  {
    h.(enabled := true)
  }

  lemma RoomIsDisjoint(r: R.Registry, h: Hook)
    requires Room(r, h) && h.Hook?
    ensures forall k :: 0 <= k < |R.AllHooks(r)| ==> Disjoint(Made(h), R.AllHooks(r)[k]) && Disjoint(R.Footprint(h.target, h.patch), R.AllHooks(r)[k])
  {
  }

  lemma MakesHook(r: R.Registry, h: Hook, original: Memory)
    requires R.Invariant(r, original) && h.Hook? && Shaped(h, original) && Room(r, h)
    ensures Create(r.code, h.target, h.patch).Some? && Create(r.code, h.target, h.patch).value.0 == Made(h)
  {
    RoomIsDisjoint(r, h);
    forall a | h.target <= a < h.target + |h.patch|
      ensures a in r.code
    {
      assert a in original.Keys;
    }
    UncoveredRange(R.AllHooks(r), r.code, original, Made(h));
  }

  // What a late handover leaves, if the system's answer is chosen so.
  function Kept(r: R.Registry, h: Hook): Hook
    requires h.Hook?
  {
    if r.retireStarted then h else Made(h)
  }

  lemma HandsOver(r: R.Registry, h: Hook, original: Memory)
    requires R.Invariant(r, original) && h.Hook? && Shaped(h, original) && Room(r, h)
    ensures var (g, m) := Create(r.code, h.target, h.patch).value;
            R.Handover(r.(code := m), g, !h.enabled).0 == Kept(r, h)
    ensures Create(r.code, h.target, h.patch).Some?
  {
    MakesHook(r, h, original);
  }

  lemma InstallAs(r: R.Registry, name: string, h: Hook, original: Memory)
    requires R.Invariant(r, original) && !r.isSealed && h.Hook? && Shaped(h, original) && Room(r, h)
    requires name != "" && R.OwnerOf(r.targets, h.target) == ""
    ensures var (q, yes) := R.Install(r, name, h.target, h.patch, !h.enabled);
            && yes && R.Invariant(q, original)
            && q == r.(hooks := r.hooks + [R.Entry(name, Kept(r, h))], targets := r.targets + [R.Target(name, h.target)], code := q.code)
  {
    HandsOver(r, h, original);
    RoomIsDisjoint(r, h);
    var a, b := R.HooksOf(r.hooks), R.HooksOf(r.mids);
    forall k | 0 <= k < |r.hooks|
      ensures Disjoint(R.Footprint(h.target, h.patch), r.hooks[k].hook)
    {
      assert R.AllHooks(r)[k] == a[k];
    }
    forall k | 0 <= k < |r.mids|
      ensures Disjoint(R.Footprint(h.target, h.patch), r.mids[k].hook)
    {
      assert R.AllHooks(r)[|a| + k] == b[k];
    }
    R.InstallKeeps(r, original, name, h.target, h.patch, !h.enabled);
  }

  lemma InstallMidAs(r: R.Registry, name: string, h: Hook, original: Memory)
    requires R.Invariant(r, original) && !r.isSealed && h.Hook? && Shaped(h, original) && Room(r, h)
    ensures var (q, yes) := R.InstallMid(r, name, h.target, h.patch, !h.enabled);
            && yes && R.Invariant(q, original)
            && q == r.(mids := r.mids + [R.Entry(name, Kept(r, h))], code := q.code)
  {
    HandsOver(r, h, original);
    RoomIsDisjoint(r, h);
    R.InstallMidKeeps(r, original, name, h.target, h.patch, !h.enabled);
  }

  lemma {:induction false} LastOfName(es: seq<R.Entry>, e: R.Entry)
    requires forall k :: 0 <= k < |es| ==> es[k].name != e.name
    ensures R.IndexOf(es + [e], e.name) == |es|
  {
    if es != [] {
      LastOfName(es[1..], e);
      assert (es + [e])[1..] == es[1..] + [e];
    }
  }

  lemma {:induction false} NotOfName(es: seq<R.Entry>, name: string)
    requires forall k :: 0 <= k < |es| ==> es[k].name != name
    ensures R.IndexOf(es, name) == |es|
  {
    if es != [] {
      NotOfName(es[1..], name);
    }
  }

  // Retiring the inline hook installed last.
  lemma RetireLastInline(r: R.Registry, es: seq<R.Entry>, name: string, h: Hook, original: Memory)
    requires R.Invariant(r, original) && h.Hook? && !h.enabled && r.hooks == es + [R.Entry(name, Made(h))]
    requires forall k :: 0 <= k < |es| ==> es[k].name != name
    ensures var q := R.RetireOne(r, name, true).0;
            && R.Invariant(q, original)
            && q == r.(hooks := es + [R.Entry(name, h)], code := q.code, retired := q.retired)
  {
    LastOfName(es, R.Entry(name, Made(h)));
    R.RetireOneKeeps(r, original, name, true);
    assert r.hooks[|es| := R.Entry(name, h)] == es + [R.Entry(name, h)];
  }

  lemma RetireLastMid(r: R.Registry, es: seq<R.Entry>, name: string, h: Hook, original: Memory)
    requires R.Invariant(r, original) && h.Hook? && !h.enabled && r.mids == es + [R.Entry(name, Made(h))]
    requires forall k :: 0 <= k < |es| ==> es[k].name != name
    requires forall k :: 0 <= k < |r.hooks| ==> r.hooks[k].name != name
    ensures var q := R.RetireOne(r, name, true).0;
            && R.Invariant(q, original)
            && q == r.(mids := es + [R.Entry(name, h)], code := q.code, retired := q.retired)
  {
    LastOfName(es, R.Entry(name, Made(h)));
    NotOfName(r.hooks, name);
    R.RetireOneKeeps(r, original, name, true);
    assert r.mids[|es| := R.Entry(name, h)] == es + [R.Entry(name, h)];
  }

  // ---- the operations of one installer ------------------------------------------------------------

  function InstallOp(x: Installer): R.Op
    requires x.hook.Hook?
  {
    if x.req.mid then R.DoInstallMid(x.req.name, x.hook.target, x.hook.patch, !x.hook.enabled)
    else R.DoInstall(x.req.name, x.hook.target, x.hook.patch, !x.hook.enabled)
  }

  // After retirement has begun the handover disables a hook; before, retiring by name does.
  function Replay(r: R.Registry, x: Installer): R.Registry
    requires x.hook.Hook?
  {
    var q := R.Apply(r, InstallOp(x)).0;
    if r.retireStarted || x.hook.enabled then q else R.RetireOne(q, x.req.name, true).0
  }

  function ReplayOps(x: Installer, late: bool): seq<R.Op>
    requires x.hook.Hook?
  {
    if late || x.hook.enabled then [] + [InstallOp(x)] else [] + [InstallOp(x)] + [R.DoRetireOne(x.req.name, true)]
  }

  lemma RunMore(r: R.Registry, ops: seq<R.Op>, op: R.Op)
    ensures R.Run(r, ops + [op]) == R.Apply(R.Run(r, ops), op).0
  {
    assert (ops + [op])[..|ops|] == ops;
  }

  lemma RunTwice(r: R.Registry, ops: seq<R.Op>, one: R.Op, two: R.Op)
    ensures R.Run(r, ops + ([] + [one] + [two])) == R.Apply(R.Apply(R.Run(r, ops), one).0, two).0
  {
    RunMore(r, ops, one);
    RunMore(r, ops + [one], two);
    assert ops + ([] + [one] + [two]) == ops + [one] + [two];
  }

  lemma ReplaysOnce(r: R.Registry, ops: seq<R.Op>, x: Installer)
    requires x.hook.Hook? && (R.Run(r, ops).retireStarted || x.hook.enabled)
    ensures R.Run(r, ops + ReplayOps(x, R.Run(r, ops).retireStarted)) == Replay(R.Run(r, ops), x)
  {
    RunMore(r, ops, InstallOp(x));
    assert ops + ([] + [InstallOp(x)]) == ops + [InstallOp(x)];
  }

  lemma ReplaysTwice(r: R.Registry, ops: seq<R.Op>, x: Installer)
    requires x.hook.Hook? && !R.Run(r, ops).retireStarted && !x.hook.enabled
    ensures R.Run(r, ops + ReplayOps(x, R.Run(r, ops).retireStarted)) == Replay(R.Run(r, ops), x)
  {
    RunTwice(r, ops, InstallOp(x), R.DoRetireOne(x.req.name, true));
  }

  lemma ReplayIsRun(r: R.Registry, ops: seq<R.Op>, x: Installer)
    requires x.hook.Hook?
    ensures R.Run(r, ops + ReplayOps(x, R.Run(r, ops).retireStarted)) == Replay(R.Run(r, ops), x)
  {
    if R.Run(r, ops).retireStarted || x.hook.enabled {
      ReplaysOnce(r, ops, x);
    } else {
      ReplaysTwice(r, ops, x);
    }
  }

  function EntryOf(x: Installer): R.Entry {
    R.Entry(x.req.name, x.hook)
  }

  lemma ReplayInline(r: R.Registry, x: Installer, original: Memory)
    requires R.Invariant(r, original) && !r.isSealed && !x.req.mid && x.hook.Hook? && Shaped(x.hook, original) && Room(r, x.hook)
    requires x.req.name != "" && R.OwnerOf(r.targets, x.hook.target) == ""
    requires !r.retireStarted && !x.hook.enabled ==> forall k :: 0 <= k < |r.hooks| ==> r.hooks[k].name != x.req.name
    ensures var q := Replay(r, x);
            && R.Invariant(q, original)
            && q == r.(hooks := r.hooks + [EntryOf(x)], targets := r.targets + [R.Target(x.req.name, x.hook.target)], code := q.code, retired := q.retired)
  {
    InstallAs(r, x.req.name, x.hook, original);
    if !r.retireStarted && !x.hook.enabled {
      var q := R.Install(r, x.req.name, x.hook.target, x.hook.patch, !x.hook.enabled).0;
      RetireLastInline(q, r.hooks, x.req.name, x.hook, original);
    }
  }

  lemma ReplayMid(r: R.Registry, x: Installer, original: Memory)
    requires R.Invariant(r, original) && !r.isSealed && x.req.mid && x.hook.Hook? && Shaped(x.hook, original) && Room(r, x.hook)
    requires !r.retireStarted && !x.hook.enabled ==> forall k :: 0 <= k < |r.hooks| ==> r.hooks[k].name != x.req.name
    requires !r.retireStarted && !x.hook.enabled ==> forall k :: 0 <= k < |r.mids| ==> r.mids[k].name != x.req.name
    ensures var q := Replay(r, x);
            && R.Invariant(q, original)
            && q == r.(mids := r.mids + [EntryOf(x)], code := q.code, retired := q.retired)
  {
    InstallMidAs(r, x.req.name, x.hook, original);
    if !r.retireStarted && !x.hook.enabled {
      var q := R.InstallMid(r, x.req.name, x.hook.target, x.hook.patch, !x.hook.enabled).0;
      RetireLastMid(q, r.mids, x.req.name, x.hook, original);
    }
  }

  // ---- the whole log --------------------------------------------------------------------------------

  // The records a sequential history leaves for these inline entries.
  function TargetsOf(es: seq<R.Entry>): (ts: seq<R.Target>)
    ensures |ts| == |es| && forall k :: 0 <= k < |ts| && es[k].hook.Hook? ==> ts[k] == R.Target(es[k].name, es[k].hook.target)
  {
    seq(|es|, k requires 0 <= k < |es| => R.Target(es[k].name, if es[k].hook.Hook? then es[k].hook.target else 0))
  }

  lemma TargetsOfAppend(es: seq<R.Entry>, e: R.Entry)
    requires e.hook.Hook?
    ensures TargetsOf(es + [e]) == TargetsOf(es) + [R.Target(e.name, e.hook.target)]
  {
  }

  function OpsOf(s: State, log: seq<nat>): seq<R.Op>
    requires forall k :: 0 <= k < |log| ==> log[k] < |s.installers| && s.installers[log[k]].hook.Hook?
  {
    if log == [] then if s.RetireStarted() then [] + [R.DoRetire({}, {})] else []
    else OpsOf(s, log[..|log| - 1]) + ReplayOps(s.installers[log[|log| - 1]], s.RetireStarted())
  }

  ghost predicate InRange(s: State, list: seq<nat>) {
    forall k :: 0 <= k < |list| ==> list[k] < |s.installers|
  }

  lemma SelInRange(s: State, log: seq<nat>, mid: bool)
    ensures InRange(s, Sel(s, log, mid))
  {
    assert forall k :: 0 <= k < |Sel(s, log, mid)| ==> Sel(s, log, mid)[k] in Sel(s, log, mid);
  }

  // The registry after the first installers of the log have been replayed.
  ghost predicate Replayed(s: State, log: seq<nat>, r: R.Registry, original: Memory) {
    && R.Invariant(r, original) && !r.isSealed && r.retireStarted == s.RetireStarted()
    && InRange(s, Sel(s, log, false)) && InRange(s, Sel(s, log, true))
    && r.hooks == EntriesOf(s, Sel(s, log, false)) && r.mids == EntriesOf(s, Sel(s, log, true))
    && r.targets == TargetsOf(r.hooks)
  }

  // Every hook replayed so far is some earlier installer's.
  lemma HooksAreEarlier(s: State, log: seq<nat>, n: nat, r: R.Registry, original: Memory, k: nat) returns (p: nat)
    requires n <= |log| && Replayed(s, log[..n], r, original) && k < |R.AllHooks(r)|
    ensures p < n && log[p] < |s.installers| && R.AllHooks(r)[k] == s.installers[log[p]].hook
  {
    var inline, mids := Sel(s, log[..n], false), Sel(s, log[..n], true);
    var i := if k < |inline| then inline[k] else mids[k - |inline|];
    assert i in inline || i in mids;
    assert i in log[..n];
    p :| 0 <= p < n && log[..n][p] == i;
  }

  lemma RoomForNext(s: State, log: seq<nat>, n: nat, r: R.Registry, original: Memory)
    requires n < |log| && log[n] < |s.installers| && Replayed(s, log[..n], r, original) && EarlierClear(s, log)
    ensures Room(r, s.installers[log[n]].hook)
  {
    forall k | 0 <= k < |R.AllHooks(r)| && R.AllHooks(r)[k].Active()
      ensures Apart(R.AllHooks(r)[k], s.installers[log[n]].hook)
    {
      var p := HooksAreEarlier(s, log, n, r, original, k);
    }
  }

  lemma {:induction false} NoOwner(ts: seq<R.Target>, a: int)
    requires forall k :: 0 <= k < |ts| ==> ts[k].address != a
    ensures R.OwnerOf(ts, a) == ""
  {
    if ts != [] {
      NoOwner(ts[1..], a);
    }
  }

  // Names and targets of what was replayed before an inline installer.
  lemma FreeForNext(s: State, log: seq<nat>, n: nat, r: R.Registry, original: Memory)
    requires Chronicle(s, log, original) && n < |log| && Replayed(s, log[..n], r, original)
    requires log[n] < |s.installers| && !s.installers[log[n]].req.mid
    ensures s.installers[log[n]].req.name != "" && R.OwnerOf(r.targets, s.installers[log[n]].req.target) == ""
  {
    var i, inline := log[n], Sel(s, log[..n], false);
    assert s.At(i, Adopted);
    OwnerNamed(s, i);
    forall k | 0 <= k < |r.targets|
      ensures r.targets[k].address != s.installers[i].req.target
    {
      var j := inline[k];
      assert j in inline && j in log[..n];
      var p :| 0 <= p < n && log[..n][p] == j;
      assert s.At(log[p], Adopted) && log[p] != log[n];
      assert StageFits(s.installers[j]);
      assert Owning(s.installers[j]) && Owning(s.installers[i]);
    }
    NoOwner(r.targets, s.installers[i].req.target);
  }

  lemma OwnerNamed(s: State, i: nat)
    requires OneOwner(s) && RecordsExact(s) && s.At(i, Adopted) && !s.installers[i].req.mid
    ensures s.installers[i].req.name != ""
  {
    var t := RecordOf(s.installers[i]);
    assert Owning(s.installers[i]);
    assert t in s.targets;
    var k :| 0 <= k < |s.targets| && s.targets[k] == t;
  }

  // Before retirement has begun, an inactive installer's name is not yet taken.
  lemma NameIsFree(s: State, log: seq<nat>, n: nat, r: R.Registry, original: Memory)
    requires n < |log| && log[n] < |s.installers| && Replayed(s, log[..n], r, original) && FirstOfName(s, log, n)
    ensures forall k :: 0 <= k < |r.hooks| ==> r.hooks[k].name != s.installers[log[n]].req.name
    ensures s.installers[log[n]].req.mid ==> forall k :: 0 <= k < |r.mids| ==> r.mids[k].name != s.installers[log[n]].req.name
  {
    forall k | 0 <= k < |r.hooks|
      ensures r.hooks[k].name != s.installers[log[n]].req.name
    {
      var j := Sel(s, log[..n], false)[k];
      assert j in Sel(s, log[..n], false) && j in log[..n];
      var p :| 0 <= p < n && log[..n][p] == j;
      assert log[p] == j;
    }
    if s.installers[log[n]].req.mid {
      forall k | 0 <= k < |r.mids|
        ensures r.mids[k].name != s.installers[log[n]].req.name
      {
        var j := Sel(s, log[..n], true)[k];
        assert j in Sel(s, log[..n], true) && j in log[..n];
        var p :| 0 <= p < n && log[..n][p] == j;
        assert log[p] == j;
      }
    }
  }

  // The replayed registry once a mid installer's entry is in its list.
  lemma NextMid(s: State, log: seq<nat>, i: nat, r: R.Registry, q: R.Registry, original: Memory)
    requires i < |s.installers| && s.installers[i].req.mid
    requires Replayed(s, log, r, original) && R.Invariant(q, original)
    requires q == r.(mids := r.mids + [EntryOf(s.installers[i])], code := q.code, retired := q.retired)
    ensures Replayed(s, log + [i], q, original)
  {
    SelAppend(s, log, i, false);
    SelAppend(s, log, i, true);
    SelInRange(s, log + [i], true);
    assert Sel(s, log, false) + [] == Sel(s, log, false);
    EntriesAppend(s, Sel(s, log, true), i);
  }

  // The same for an inline installer, which also leaves a record.
  lemma NextInline(s: State, log: seq<nat>, i: nat, r: R.Registry, q: R.Registry, original: Memory)
    requires i < |s.installers| && !s.installers[i].req.mid && s.installers[i].hook.Hook?
    requires Replayed(s, log, r, original) && R.Invariant(q, original)
    requires var x := s.installers[i];
             q == r.(hooks := r.hooks + [EntryOf(x)], targets := r.targets + [R.Target(x.req.name, x.hook.target)], code := q.code, retired := q.retired)
    ensures Replayed(s, log + [i], q, original)
  {
    SelAppend(s, log, i, false);
    SelAppend(s, log, i, true);
    SelInRange(s, log + [i], false);
    assert Sel(s, log, true) + [] == Sel(s, log, true);
    EntriesAppend(s, Sel(s, log, false), i);
    TargetsOfAppend(r.hooks, EntryOf(s.installers[i]));
  }

  // Installer i can be replayed on top of what was.
  ghost predicate Replayable(r: R.Registry, x: Installer, original: Memory) {
    && x.hook.Hook? && Shaped(x.hook, original) && Room(r, x.hook)
    && (!r.retireStarted && !x.hook.enabled ==> forall k :: 0 <= k < |r.hooks| ==> r.hooks[k].name != x.req.name)
    && (!r.retireStarted && !x.hook.enabled && x.req.mid ==> forall k :: 0 <= k < |r.mids| ==> r.mids[k].name != x.req.name)
    && (!x.req.mid ==> x.req.name != "" && R.OwnerOf(r.targets, x.hook.target) == "")
  }

  lemma ReplayAdds(s: State, log: seq<nat>, i: nat, r: R.Registry, original: Memory)
    requires i < |s.installers| && Replayed(s, log, r, original) && Replayable(r, s.installers[i], original)
    ensures Replayed(s, log + [i], Replay(r, s.installers[i]), original)
  {
    var x := s.installers[i];
    if x.req.mid {
      ReplayMid(r, x, original);
      NextMid(s, log, i, r, Replay(r, x), original);
    } else {
      ReplayInline(r, x, original);
      NextInline(s, log, i, r, Replay(r, x), original);
    }
  }

  lemma NextReplayable(s: State, log: seq<nat>, n: nat, r: R.Registry, original: Memory)
    requires Chronicle(s, log, original) && n < |log| && Replayed(s, log[..n], r, original)
    ensures log[n] < |s.installers| && Replayable(r, s.installers[log[n]], original)
  {
    var i := log[n];
    assert s.At(i, Adopted);
    var x := s.installers[i];
    assert StageFits(x) && Shaped(x.hook, original);
    RoomForNext(s, log, n, r, original);
    if !r.retireStarted && !x.hook.enabled {
      assert FirstOfName(s, log, n);
      NameIsFree(s, log, n, r, original);
    }
    if !x.req.mid {
      FreeForNext(s, log, n, r, original);
    }
  }

  lemma LogHasHooks(s: State, log: seq<nat>, original: Memory)
    requires Invariant(s, original) && LogIn(s, log)
    ensures forall k :: 0 <= k < |log| ==> log[k] < |s.installers| && s.installers[log[k]].hook.Hook?
  {
    forall k | 0 <= k < |log|
      ensures log[k] < |s.installers| && s.installers[log[k]].hook.Hook?
    {
      assert s.At(log[k], Adopted);
      assert StageFits(s.installers[log[k]]);
    }
  }

  lemma ReplayStart(s: State, original: Memory)
    ensures Replayed(s, [], R.Run(R.Start(original), OpsOf(s, [])), original)
  {
    RunMore(R.Start(original), [], R.DoRetire({}, {}));
    var r := R.Run(R.Start(original), OpsOf(s, []));
    assert r == R.Start(original).(retireStarted := s.RetireStarted());
    assert r.hooks == [] && r.mids == [] && r.targets == [];
    assert Sel(s, [], false) == [] && Sel(s, [], true) == [];
    assert R.AllHooks(r) == [];
  }

  lemma OpsNext(s: State, log: seq<nat>, n: nat, original: Memory)
    requires n < |log| && forall k :: 0 <= k < |log| ==> log[k] < |s.installers| && s.installers[log[k]].hook.Hook?
    requires R.Run(R.Start(original), OpsOf(s, log[..n])).retireStarted == s.RetireStarted()
    ensures R.Run(R.Start(original), OpsOf(s, log[..n + 1])) == Replay(R.Run(R.Start(original), OpsOf(s, log[..n])), s.installers[log[n]])
  {
    ReplayIsRun(R.Start(original), OpsOf(s, log[..n]), s.installers[log[n]]);
    assert log[..n + 1][..n] == log[..n];
  }

  lemma SameReplayed(s: State, a: seq<nat>, b: seq<nat>, r: R.Registry, original: Memory)
    requires Replayed(s, a, r, original) && a == b
    ensures Replayed(s, b, r, original)
  {
  }

  lemma ReplayOnward(s: State, log: seq<nat>, n: nat, r: R.Registry, q: R.Registry, original: Memory)
    requires n < |log| && log[n] < |s.installers|
    requires Replayed(s, log[..n], r, original) && Replayable(r, s.installers[log[n]], original)
    requires q == Replay(r, s.installers[log[n]])
    ensures Replayed(s, log[..n + 1], q, original)
  {
    ReplayAdds(s, log[..n], log[n], r, original);
    SameReplayed(s, log[..n] + [log[n]], log[..n + 1], q, original);
  }

  lemma ReplayNext(s: State, log: seq<nat>, n: nat, r: R.Registry, original: Memory) returns (q: R.Registry)
    requires n < |log| && forall k :: 0 <= k < |log| ==> log[k] < |s.installers| && s.installers[log[k]].hook.Hook?
    requires r == R.Run(R.Start(original), OpsOf(s, log[..n]))
    requires Replayed(s, log[..n], r, original) && Replayable(r, s.installers[log[n]], original)
    ensures q == R.Run(R.Start(original), OpsOf(s, log[..n + 1])) && Replayed(s, log[..n + 1], q, original)
  {
    q := Replay(r, s.installers[log[n]]);
    ReplayOnward(s, log, n, r, q, original);
    OpsNext(s, log, n, original);
  }

  lemma {:induction false} ReplayAll(s: State, log: seq<nat>, n: nat, original: Memory) returns (r: R.Registry)
    requires Chronicle(s, log, original) && n <= |log|
    requires forall k :: 0 <= k < |log| ==> log[k] < |s.installers| && s.installers[log[k]].hook.Hook?
    ensures r == R.Run(R.Start(original), OpsOf(s, log[..n])) && Replayed(s, log[..n], r, original)
    decreases n
  {
    if n == 0 {
      r := R.Run(R.Start(original), OpsOf(s, []));
      ReplayStart(s, original);
      assert log[..0] == [];
    } else {
      var q := ReplayAll(s, log, n - 1, original);
      NextReplayable(s, log, n - 1, q, original);
      r := ReplayNext(s, log, n - 1, q, original);
    }
  }

  // ---- the same registry ------------------------------------------------------------------------------

  lemma UnderPatch(hs: seq<Hook>, c: Memory, original: Memory, h: Hook, a: int)
    requires Overlaid(hs, c, original) && h in hs && h.Covers(a)
    ensures a in c && c[a] == h.patch[a - h.target]
  {
    var k :| 0 <= k < |hs| && hs[k] == h;
    assert InPlace(hs[k], c, original);
    assert Peek(c, h.target, |h.patch|)[a - h.target] == c[a];
  }

  lemma NoPatch(hs: seq<Hook>, c: Memory, original: Memory, a: int)
    requires Overlaid(hs, c, original) && a in c && forall h :: h in hs ==> !h.Covers(a)
    ensures a in original && c[a] == original[a]
  {
    assert a in original.Keys;
    assert forall k :: 0 <= k < |hs| ==> hs[k] in hs;
  }

  lemma SameByte(hs: seq<Hook>, c: Memory, gs: seq<Hook>, d: Memory, original: Memory, a: int)
    requires Overlaid(hs, c, original) && Overlaid(gs, d, original) && a in c && a in d
    requires forall h :: h in hs && h.Active() ==> h in gs
    requires forall h :: h in gs && h.Active() ==> h in hs
    ensures c[a] == d[a]
  {
    if h :| h in hs && h.Covers(a) {
      UnderPatch(hs, c, original, h, a);
      UnderPatch(gs, d, original, h, a);
    } else {
      NoPatch(hs, c, original, a);
      NoPatch(gs, d, original, a);
    }
  }

  // Two overlays by the same active hooks are the same memory.
  lemma SameOverlay(hs: seq<Hook>, c: Memory, gs: seq<Hook>, d: Memory, original: Memory)
    requires Overlaid(hs, c, original) && Overlaid(gs, d, original)
    requires forall h :: h in hs && h.Active() ==> h in gs
    requires forall h :: h in gs && h.Active() ==> h in hs
    ensures c == d
  {
    assert c.Keys == d.Keys;
    forall a | a in c
      ensures a in d && c[a] == d[a]
    {
      assert a in d.Keys;
      SameByte(hs, c, gs, d, original, a);
    }
  }

  lemma EntryHook(s: State, list: seq<nat>, i: nat)
    requires InRange(s, list) && i in list
    ensures i < |s.installers| && s.installers[i].hook in R.HooksOf(EntriesOf(s, list))
  {
    var k :| 0 <= k < |list| && list[k] == i;
    assert R.HooksOf(EntriesOf(s, list))[k] == s.installers[i].hook;
  }

  lemma ListedHook(s: State, log: seq<nat>, r: R.Registry, original: Memory, i: nat)
    requires ListsFollow(s, log) && Replayed(s, log, r, original) && i in s.Order() && i < |s.installers|
    ensures s.installers[i].hook in R.AllHooks(r)
  {
    if i in s.inline {
      EntryHook(s, s.inline, i);
    } else {
      assert i in s.mids;
      EntryHook(s, s.mids, i);
    }
  }

  // With nobody in flight, the active hooks are those of the log.
  lemma ReplayedHook(s: State, log: seq<nat>, r: R.Registry, original: Memory, h: Hook)
    requires Replayed(s, log, r, original) && h in R.AllHooks(r)
    ensures h in HooksIn(s)
  {
    var k :| 0 <= k < |R.AllHooks(r)| && R.AllHooks(r)[k] == h;
    assert log[..|log|] == log;
    var p := HooksAreEarlier(s, log, |log|, r, original, k);
    assert HooksIn(s)[log[p]] == h;
  }

  lemma HookReplayed(s: State, log: seq<nat>, r: R.Registry, original: Memory, h: Hook)
    requires Invariant(s, original) && ListsFollow(s, log) && NobodyInFlight(s) && Replayed(s, log, r, original)
    requires h in HooksIn(s) && h.Active()
    ensures h in R.AllHooks(r)
  {
    var i :| 0 <= i < |HooksIn(s)| && HooksIn(s)[i] == h;
    assert StageFits(s.installers[i]) && !s.InFlight(i);
    assert s.At(i, Adopted) && i in s.Order();
    ListedHook(s, log, r, original, i);
  }

  lemma ReplayedCode(s: State, log: seq<nat>, r: R.Registry, original: Memory)
    requires Invariant(s, original) && ListsFollow(s, log) && NobodyInFlight(s) && Replayed(s, log, r, original)
    ensures r.code == s.code
  {
    var hs, gs := R.AllHooks(r), HooksIn(s);
    forall h | h in hs && h.Active()
      ensures h in gs
    {
      ReplayedHook(s, log, r, original, h);
    }
    forall h | h in gs && h.Active()
      ensures h in hs
    {
      HookReplayed(s, log, r, original, h);
    }
    SameOverlay(hs, r.code, gs, s.code, original);
  }

  // Whose record an address has: the only one for it.
  lemma {:induction false} OwnerIs(ts: seq<R.Target>, t: R.Target)
    requires t in ts && forall u :: u in ts && u.address == t.address ==> u == t
    ensures R.OwnerOf(ts, t.address) == t.name
  {
    if ts[0].address != t.address {
      assert t in ts[1..];
      OwnerIs(ts[1..], t);
    } else {
      assert ts[0] in ts;
    }
  }

  lemma SameOwners(ts: seq<R.Target>, us: seq<R.Target>, a: int)
    requires forall t :: t in ts <==> t in us
    requires forall t, u :: t in us && u in us && t.address == u.address ==> t == u
    ensures R.OwnerOf(ts, a) == R.OwnerOf(us, a)
  {
    if t :| t in us && t.address == a {
      OwnerIs(ts, t);
      OwnerIs(us, t);
    } else {
      NoOwner(ts, a);
      NoOwner(us, a);
    }
  }

  lemma ReplayedRecord(s: State, log: seq<nat>, r: R.Registry, original: Memory, k: nat)
    requires Chronicle(s, log, original) && Replayed(s, log, r, original) && k < |r.targets|
    ensures r.targets[k] in s.targets
  {
    var i := s.inline[k];
    assert i in s.inline && i in log;
    var p :| 0 <= p < |log| && log[p] == i;
    assert s.At(log[p], Adopted);
    assert StageFits(s.installers[i]) && Owning(s.installers[i]);
    assert RecordOf(s.installers[i]) == r.targets[k];
  }

  lemma RecordReplayed(s: State, log: seq<nat>, r: R.Registry, original: Memory, t: R.Target)
    requires Chronicle(s, log, original) && NobodyInFlight(s) && Replayed(s, log, r, original) && t in s.targets
    ensures t in r.targets
  {
    var i: nat :| HasRecord(s, i, t);
    assert StageFits(s.installers[i]) && !s.InFlight(i);
    assert s.At(i, Adopted) && i in s.Order();
    OnlyInline(s, log, i);
    var k :| 0 <= k < |s.inline| && s.inline[k] == i;
    assert r.targets[k] == t;
  }

  lemma OneRecord(s: State, t: R.Target, u: R.Target)
    requires RecordsExact(s) && TargetsApart(s) && t in s.targets && u in s.targets && t.address == u.address
    ensures t == u
  {
    var i: nat :| HasRecord(s, i, t);
    var j: nat :| HasRecord(s, j, u);
    assert i == j;
  }

  // The records of the adopted inline installers, in the order of their list.
  lemma SameRecords(s: State, log: seq<nat>, r: R.Registry, original: Memory)
    requires Chronicle(s, log, original) && NobodyInFlight(s) && Replayed(s, log, r, original)
    ensures forall t :: t in r.targets <==> t in s.targets
    ensures forall t, u :: t in s.targets && u in s.targets && t.address == u.address ==> t == u
  {
    forall t | t in r.targets
      ensures t in s.targets
    {
      var k :| 0 <= k < |r.targets| && r.targets[k] == t;
      ReplayedRecord(s, log, r, original, k);
    }
    forall t | t in s.targets
      ensures t in r.targets
    {
      RecordReplayed(s, log, r, original, t);
    }
    forall t, u | t in s.targets && u in s.targets && t.address == u.address
      ensures t == u
    {
      OneRecord(s, t, u);
    }
  }

  lemma OnlyInline(s: State, log: seq<nat>, i: nat)
    requires ListsFollow(s, log) && i in s.Order() && i < |s.installers| && !s.installers[i].req.mid
    ensures i in s.inline
  {
    assert i in s.inline || i in s.mids;
  }

  // The registry the threads share, but for the order of the records.
  ghost predicate SameButOrder(r: R.Registry, s: State) {
    && Bounded(s) && r == Shared(s, r.retired).(targets := r.targets)
    && r.targets == TargetsOf(r.hooks)
    && forall a :: R.OwnerOf(r.targets, a) == R.OwnerOf(s.targets, a)
  }

  lemma ReplayedIsShared(s: State, log: seq<nat>, r: R.Registry, original: Memory)
    requires Chronicle(s, log, original) && NobodyInFlight(s) && Replayed(s, log, r, original)
    ensures SameButOrder(r.(isSealed := s.IsSealed()), s)
  {
    assert Bounded(s) by {
      assert forall k :: 0 <= k < |s.Order()| ==> s.At(s.Order()[k], Adopted);
    }
    ListsBounded(s);
    ReplayedCode(s, log, r, original);
    SameRecords(s, log, r, original);
    forall a
      ensures R.OwnerOf(r.targets, a) == R.OwnerOf(s.targets, a)
    {
      SameOwners(r.targets, s.targets, a);
    }
  }

  /** Over every disciplined interleaving: in a state with nobody in flight, and the registry's
      lock free, the registry is as a sequential history of its own operations would have left
      it. Lists, hooks, code, flags and the owner of every address are the same; only the records
      may be in another order. */
  lemma QuietIsSequential(original: Memory, requests: seq<Request>, events: seq<Event>) returns (ops: seq<R.Op>)
    requires DisciplinedRun(Start(original, requests), events)
    requires var s := Run(Start(original, requests), events); !s.Locked() && NobodyInFlight(s)
    ensures SameButOrder(R.Run(R.Start(original), ops), Run(Start(original, requests), events))
  {
    var s, log := Run(Start(original, requests), events), LogOf(Start(original, requests), events);
    RunChronicle(original, requests, events);
    LogHasHooks(s, log, original);
    var r := ReplayAll(s, log, |log|, original);
    assert log[..|log|] == log;
    ops := OpsOf(s, log);
    ReplayedIsShared(s, log, r, original);
    if s.IsSealed() {
      RunMore(R.Start(original), ops, R.DoSeal);
      ops := ops + [R.DoSeal];
    }
  }

  // ---- the order of the records ---------------------------------------------------------------------

  ghost predicate InOrder(r: R.Registry) {
    r.targets == TargetsOf(r.hooks) && forall k :: 0 <= k < |r.hooks| ==> r.hooks[k].hook.Hook?
  }

  lemma InstallInOrder(r: R.Registry, name: string, target: int, jump: seq<int>, ok: bool)
    requires InOrder(r)
    ensures InOrder(R.Install(r, name, target, jump, ok).0)
  {
    var (q, yes) := R.Install(r, name, target, jump, ok);
    if yes {
      TargetsOfAppend(r.hooks, q.hooks[|r.hooks|]);
    }
  }

  lemma RetireInOrder(r: R.Registry, refused: set<nat>, refusedMids: set<nat>)
    requires InOrder(r)
    ensures InOrder(R.Retire(r, refused, refusedMids).0)
  {
    R.WalkLeaves(r.hooks, |r.hooks|, refused, r.code);
    var q := R.Retire(r, refused, refusedMids).0;
    assert forall k :: 0 <= k < |r.hooks| ==> q.hooks[k] == R.Left(r.hooks[k], k in refused);
    assert TargetsOf(q.hooks) == TargetsOf(r.hooks);
  }

  lemma RetireOneInOrder(r: R.Registry, name: string, ok: bool)
    requires InOrder(r)
    ensures InOrder(R.RetireOne(r, name, ok).0)
  {
    var q := R.RetireOne(r, name, ok).0;
    assert TargetsOf(q.hooks) == TargetsOf(r.hooks);
  }

  lemma {:induction false} SequentialInOrder(original: Memory, ops: seq<R.Op>)
    ensures InOrder(R.Run(R.Start(original), ops))
  {
    if ops != [] {
      SequentialInOrder(original, ops[..|ops| - 1]);
      var r := R.Run(R.Start(original), ops[..|ops| - 1]);
      match ops[|ops| - 1]
      case DoSeal =>
      case DoInstall(name, target, jump, ok) => InstallInOrder(r, name, target, jump, ok);
      case DoInstallMid(name, target, jump, ok) =>
      case DoRetireOne(name, ok) => RetireOneInOrder(r, name, ok);
      case DoRetire(refused, refusedMids) => RetireInOrder(r, refused, refusedMids);
    }
  }

  // The records stand in the order of the inline list.
  ghost predicate RecordsInOrder(s: State)
    requires Bounded(s)
  {
    ListsBounded(s);
    s.targets == TargetsOf(EntriesOf(s, s.inline))
  }

  // Some sequential history leaves exactly this registry, up to the retired count.
  ghost predicate Reached(original: Memory, s: State)
    requires Bounded(s)
  {
    exists ops, retired: nat :: R.Run(R.Start(original), ops) == Shared(s, retired)
  }

  lemma ReachedInOrder(original: Memory, s: State)
    requires Bounded(s) && Reached(original, s)
    ensures RecordsInOrder(s)
  {
    ListsBounded(s);
    var ops, retired: nat :| R.Run(R.Start(original), ops) == Shared(s, retired);
    SequentialInOrder(original, ops);
  }

  lemma InOrderReached(original: Memory, s: State, ops: seq<R.Op>)
    requires SameButOrder(R.Run(R.Start(original), ops), s) && RecordsInOrder(s)
    ensures Reached(original, s)
  {
    var r := R.Run(R.Start(original), ops);
    ListsBounded(s);
    assert r.hooks == EntriesOf(s, s.inline);
    assert R.Run(R.Start(original), ops) == Shared(s, r.retired);
  }

  /** The registry in such a state is reached sequentially to the letter exactly if its records
      stand in the order of its inline hooks: if no installer adopted its hook before another
      that had made its record first. */
  lemma SequentialExactly(original: Memory, requests: seq<Request>, events: seq<Event>)
    requires DisciplinedRun(Start(original, requests), events)
    requires var s := Run(Start(original, requests), events); !s.Locked() && NobodyInFlight(s)
    ensures var s := Run(Start(original, requests), events);
            Bounded(s) && (Reached(original, s) <==> RecordsInOrder(s))
  {
    var s := Run(Start(original, requests), events);
    var ops := QuietIsSequential(original, requests, events);
    if RecordsInOrder(s) {
      InOrderReached(original, s, ops);
    }
    if Reached(original, s) {
      ReachedInOrder(original, s);
    }
  }
}
