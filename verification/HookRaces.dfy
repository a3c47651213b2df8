/** What the scan over instruction pointers and the owner check do not rule out. */
module HookRaces {
  import opened CodeMemory
  import opened HookProtocol
  import opened HookRefinement
  import opened HookReplay
  import opened Restoration
  import HookRegistry

  // One installer, and nothing adopted or recorded yet.
  function Lone(code: Memory, x: Installer, shutdown: Shutdown): State {
    State(code, [x], [], [], [], shutdown, {}, false)
  }

  // The installer passes its checks, and then the whole shutdown goes by.
  function PassChecks(): seq<Event> {
    [] + [Check(0)] + [CheckOwner(0)]
  }

  function ShutDown(): seq<Event> {
    PassChecks() + [Seal] + [BeginRetire] + [EndRetire] + [Quiesce(true)]
  }

  lemma StragglerChecked(original: Memory, req: Request)
    requires req.name != ""
    ensures var s := Start(original, [req]);
            DisciplinedRun(s, PassChecks()) && Run(s, PassChecks()) == Lone(original, Installer(req, Cleared, Empty), Running)
  {
    var s := Start(original, [req]);
    assert s == Lone(original, Installer(req, Idle, Empty), Running);
    RunNext(s, [], Check(0));
    assert Run(s, [] + [Check(0)]) == Lone(original, Installer(req, Checked, Empty), Running);
    RunNext(s, [] + [Check(0)], CheckOwner(0));
  }

  lemma StragglerWaits(original: Memory, req: Request)
    requires req.name != ""
    ensures var s := Start(original, [req]);
            DisciplinedRun(s, ShutDown()) && Run(s, ShutDown()) == Lone(original, Installer(req, Cleared, Empty), Unmapped)
  {
    var s := Start(original, [req]);
    StragglerChecked(original, req);
    var a := PassChecks();
    RunNext(s, a, Seal);
    RunNext(s, a + [Seal], BeginRetire);
    RunNext(s, a + [Seal] + [BeginRetire], EndRetire);
    RunNext(s, a + [Seal] + [BeginRetire] + [EndRetire], Quiesce(true));
  }

  /** Why the scan over instruction pointers is not enough: an installer past its checks can be
      executing outside the module at the moment of the scan. Every unchecked assumption holds,
      the retirement succeeded, all code is original and nothing is loose when the module is
      unmapped, and the installer's return into it is a fault. */
  lemma StragglerFaults(original: Memory, req: Request, jump: seq<int>)
    requires req.name != "" && jump != [] && Mapped(original, req.target, |jump|) && jump != Peek(original, req.target, |jump|)
    ensures var s := Run(Start(original, [req]), ShutDown());
            && DisciplinedRun(Start(original, [req]), ShutDown())
            && s.shutdown.Unmapped? && s.code == original && NothingLoose(s) && !SafeFrom(s, original)
    ensures var events := ShutDown() + [WriteJump(0, jump)];
            DisciplinedRun(Start(original, [req]), events) && Run(Start(original, [req]), events).crashed
  {
    StragglerWaits(original, req);
    var s := Run(Start(original, [req]), ShutDown());
    RunNext(Start(original, [req]), ShutDown(), WriteJump(0, jump));
    UnmapExactlySafe(original, [req], ShutDown());
    assert s.InFlight(0);
  }

  // Two inline installers, perhaps for one target.
  function Rivals(t: int, u: int): seq<Request> {
    [Request("first", t, false), Request("second", u, false)]
  }

  function Pair(code: Memory, t: int, u: int, stage: Stage, g: Hook, h: Hook): State {
    State(code, [Installer(Rivals(t, u)[0], stage, g), Installer(Rivals(t, u)[1], stage, h)], [], [], [], Running, {}, false)
  }

  function BothCheck(): seq<Event> {
    [] + [Check(0)] + [Check(1)] + [CheckOwner(0)] + [CheckOwner(1)]
  }

  function BothPatch(first: seq<int>, second: seq<int>): seq<Event> {
    BothCheck() + [WriteJump(0, first)] + [WriteJump(1, second)]
  }

  function BothRecord(first: seq<int>, second: seq<int>): seq<Event> {
    BothPatch(first, second) + [Record(0)] + [Record(1)]
  }

  function BothAdopt(first: seq<int>, second: seq<int>): seq<Event> {
    BothRecord(first, second) + [Adopt(0, true)] + [Adopt(1, true)]
  }

  function BothRetire(first: seq<int>, second: seq<int>): seq<Event> {
    BothAdopt(first, second) + [Seal] + [BeginRetire] + [RetireNext(true)] + [RetireNext(true)]
  }

  lemma BothCleared(original: Memory, t: int, u: int)
    ensures var s := Start(original, Rivals(t, u));
            && Run(s, BothCheck()) == Pair(original, t, u, Cleared, Empty, Empty)
            && (t != u ==> DisciplinedRun(s, BothCheck()))
  {
    var s := Start(original, Rivals(t, u));
    assert s == Pair(original, t, u, Idle, Empty, Empty);
    RunNext(s, [], Check(0));
    RunNext(s, [] + [Check(0)], Check(1));
    assert Run(s, [] + [Check(0)] + [Check(1)]) == Pair(original, t, u, Checked, Empty, Empty);
    RunNext(s, [] + [Check(0)] + [Check(1)], CheckOwner(0));
    RunNext(s, [] + [Check(0)] + [Check(1)] + [CheckOwner(0)], CheckOwner(1));
  }

  // One patched, the other not yet.
  function OnePatched(original: Memory, t: int, first: seq<int>, u: int): State
    requires Mapped(original, t, |first|)
  {
    State(Poke(original, t, first), [Installer(Rivals(t, u)[0], Patched, LowerHook(original, t, first)), Installer(Rivals(t, u)[1], Cleared, Empty)],
          [], [], [], Running, {}, false)
  }

  lemma FirstPatched(original: Memory, t: int, first: seq<int>, u: int)
    requires first != [] && Mapped(original, t, |first|)
    ensures Run(Start(original, Rivals(t, u)), BothCheck() + [WriteJump(0, first)]) == OnePatched(original, t, first, u)
  {
    BothCleared(original, t, u);
    RunNext(Start(original, Rivals(t, u)), BothCheck(), WriteJump(0, first));
  }

  lemma BothPatched(original: Memory, t: int, first: seq<int>, u: int, second: seq<int>)
    requires Stackable(original, t, first, u, second)
    ensures Run(Start(original, Rivals(t, u)), BothPatch(first, second))
            == Pair(Stacked(original, t, first, u, second), t, u, Patched, LowerHook(original, t, first), UpperHook(original, t, first, u, second))
  {
    FirstPatched(original, t, first, u);
    RunNext(Start(original, Rivals(t, u)), BothCheck() + [WriteJump(0, first)], WriteJump(1, second));
  }

  // Both recorded, in this order.
  function Records(t: int, u: int): seq<Target> {
    [HookRegistry.Target("first", t)] + [HookRegistry.Target("second", u)]
  }

  lemma BothRecorded(s: State, a: seq<Event>, code: Memory, t: int, u: int, g: Hook, h: Hook)
    requires Run(s, a) == Pair(code, t, u, Patched, g, h)
    ensures Run(s, a + [Record(0)] + [Record(1)]) == Pair(code, t, u, Recorded, g, h).(targets := Records(t, u))
  {
    RunNext(s, a, Record(0));
    RunNext(s, a + [Record(0)], Record(1));
  }

  // What is left to say of the rivals once both are adopted.
  ghost predicate BothListed(v: State, code: Memory, g: Hook, h: Hook) {
    && |v.installers| == 2 && v.installers[0].hook == g && v.installers[1].hook == h
    && v.inline == [0, 1] && v.mids == [] && v.code == code && v.shutdown == Running && !v.crashed
  }

  lemma BothAdopted(s: State, a: seq<Event>, code: Memory, t: int, u: int, g: Hook, h: Hook)
    requires Run(s, a) == Pair(code, t, u, Recorded, g, h).(targets := Records(t, u))
    ensures BothListed(Run(s, a + [Adopt(0, true)] + [Adopt(1, true)]), code, g, h)
  {
    RunNext(s, a, Adopt(0, true));
    RunNext(s, a + [Adopt(0, true)], Adopt(1, true));
  }

  lemma LockTaken(s: State, a: seq<Event>, code: Memory, g: Hook, h: Hook)
    requires BothListed(Run(s, a), code, g, h)
    ensures var v := Run(s, a + [Seal] + [BeginRetire]);
            BothListed(v.(shutdown := Running), code, g, h) && v.shutdown == Retiring(0, true)
  {
    RunNext(s, a, Seal);
    RunNext(s, a + [Seal], BeginRetire);
  }

  lemma BothRetired(s: State, a: seq<Event>, code: Memory, g: Hook, h: Hook)
    requires BothListed(Run(s, a), code, g, h) && g.Active() && h.Active()
    ensures var v := Run(s, a + [Seal] + [BeginRetire] + [RetireNext(true)] + [RetireNext(true)]);
            && v.code == Poke(Poke(code, g.target, g.saved), h.target, h.saved)
            && v.shutdown == Retiring(2, true) && v.Order() == [0, 1] && !v.crashed
  {
    LockTaken(s, a, code, g, h);
    var b := a + [Seal] + [BeginRetire];
    assert Run(s, b).Order() == [0, 1];
    RunNext(s, b, RetireNext(true));
    RunNext(s, b + [RetireNext(true)], RetireNext(true));
  }

  lemma RetirementEnds(s: State, a: seq<Event>, code: Memory)
    requires var t := Run(s, a); t.code == code && t.shutdown == Retiring(2, true) && |t.Order()| == 2 && !t.crashed
    ensures var u := Run(s, a + [EndRetire] + [Quiesce(true)]); u.shutdown.Unmapped? && u.code == code
  {
    RunNext(s, a, EndRetire);
    RunNext(s, a + [EndRetire], Quiesce(true));
  }

  /** Why two installs must not run on one target, or on overlapping ones, at once: the owner
      check looks before the record is made, so both pass it and both patch. The retirement
      succeeds, the module is unmapped, and the first jump stays behind under the second one's
      range wherever it differs from the original. */
  lemma RivalsLeaveJump(original: Memory, t: int, first: seq<int>, u: int, second: seq<int>)
    requires Stackable(original, t, first, u, second)
    ensures var v := Run(Start(original, Rivals(t, u)), BothRetire(first, second) + [EndRetire] + [Quiesce(true)]);
            v.shutdown.Unmapped? && (v.code == original <==> Harmless(original, t, first, u, second))
  {
    var s, code := Start(original, Rivals(t, u)), Stacked(original, t, first, u, second);
    var g, h := LowerHook(original, t, first), UpperHook(original, t, first, u, second);
    BothPatched(original, t, first, u, second);
    BothRecorded(s, BothPatch(first, second), code, t, u, g, h);
    BothAdopted(s, BothRecord(first, second), code, t, u, g, h);
    BothRetired(s, BothAdopt(first, second), code, g, h);
    RetirementEnds(s, BothRetire(first, second), Poke(Poke(code, g.target, g.saved), h.target, h.saved));
    RestoreTwo(g, h, code);
    InOrderExactly(original, t, first, u, second);
  }

  // ---- one adopts before the other that recorded first ---------------------------------------------

  // Two patches clear of one another, each changing something.
  ghost predicate Separate(original: Memory, t: int, first: seq<int>, u: int, second: seq<int>) {
    && Stackable(original, t, first, u, second) && t + |first| <= u
    && first != Peek(original, t, |first|) && second != Peek(original, u, |second|)
  }

  lemma PatchingIsDisciplined(original: Memory, t: int, first: seq<int>, u: int, second: seq<int>)
    requires Separate(original, t, first, u, second)
    ensures DisciplinedRun(Start(original, Rivals(t, u)), BothPatch(first, second))
  {
    var s := Start(original, Rivals(t, u));
    BothCleared(original, t, u);
    RunNext(s, BothCheck(), WriteJump(0, first));
    FirstPatched(original, t, first, u);
    RunNext(s, BothCheck() + [WriteJump(0, first)], WriteJump(1, second));
    assert Peek(Poke(original, t, first), u, |second|) == Peek(original, u, |second|);
  }

  lemma AdoptsInReverse(s: State, a: seq<Event>, code: Memory, t: int, u: int, g: Hook, h: Hook)
    requires Run(s, a) == Pair(code, t, u, Recorded, g, h).(targets := Records(t, u))
    ensures var v := Run(s, a + [Adopt(1, true)] + [Adopt(0, true)]);
            v == Pair(code, t, u, Adopted, g, h).(targets := Records(t, u), inline := [1, 0])
  {
    RunNext(s, a, Adopt(1, true));
    RunNext(s, a + [Adopt(1, true)], Adopt(0, true));
  }

  lemma StaysDisciplined(s: State, a: seq<Event>)
    requires DisciplinedRun(s, a)
    ensures DisciplinedRun(s, a + [Record(0)] + [Record(1)] + [Adopt(1, true)] + [Adopt(0, true)])
  {
    RunNext(s, a, Record(0));
    RunNext(s, a + [Record(0)], Record(1));
    RunNext(s, a + [Record(0)] + [Record(1)], Adopt(1, true));
    RunNext(s, a + [Record(0)] + [Record(1)] + [Adopt(1, true)], Adopt(0, true));
  }

  lemma OutOfOrder(code: Memory, t: int, u: int, g: Hook, h: Hook)
    requires t != u && g.Hook? && h.Hook? && g.target == t && h.target == u
    ensures var v := Pair(code, t, u, Adopted, g, h).(targets := Records(t, u), inline := [1, 0]);
            Bounded(v) && NobodyInFlight(v) && !RecordsInOrder(v)
  {
    var v := Pair(code, t, u, Adopted, g, h).(targets := Records(t, u), inline := [1, 0]);
    assert v.Order() == [1, 0];
    ListsBounded(v);
    var es := EntriesOf(v, v.inline);
    assert es[0] == HookRegistry.Entry("second", h);
    assert TargetsOf(es)[0] == HookRegistry.Target("second", u) && v.targets[0] == HookRegistry.Target("first", t);
  }

  /** The order of the records can tell that installs were concurrent: in this disciplined run
      the second to record adopts first, and no sequential history leaves that registry. */
  lemma OvertakenRecord(original: Memory, t: int, first: seq<int>, u: int, second: seq<int>)
    requires Separate(original, t, first, u, second)
    ensures var (s, events) := (Start(original, Rivals(t, u)), BothRecord(first, second) + [Adopt(1, true)] + [Adopt(0, true)]);
            var v := Run(s, events);
            DisciplinedRun(s, events) && !v.Locked() && NobodyInFlight(v) && Bounded(v) && !Reached(original, v)
  {
    var s, code := Start(original, Rivals(t, u)), Stacked(original, t, first, u, second);
    var g, h := LowerHook(original, t, first), UpperHook(original, t, first, u, second);
    PatchingIsDisciplined(original, t, first, u, second);
    StaysDisciplined(s, BothPatch(first, second));
    BothPatched(original, t, first, u, second);
    BothRecorded(s, BothPatch(first, second), code, t, u, g, h);
    AdoptsInReverse(s, BothRecord(first, second), code, t, u, g, h);
    OutOfOrder(code, t, u, g, h);
    var v := Run(s, BothRecord(first, second) + [Adopt(1, true)] + [Adopt(0, true)]);
    if Reached(original, v) {
      ReachedInOrder(original, v);
    }
  }
}
