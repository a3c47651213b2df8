/** The interleaved protocol and the registry agree: steps that nobody interrupts do what the
    registry's own operations do in one go. */
module HookRefinement {
  import opened CodeMemory
  import opened HookProtocol
  import HookRegistry

  // The lists name installers.
  ghost predicate Bounded(s: State) {
    forall k :: 0 <= k < |s.Order()| ==> s.Order()[k] < |s.installers|
  }

  // The registry's entries for these installers.
  function EntriesOf(s: State, list: seq<nat>): (es: seq<HookRegistry.Entry>)
    requires forall k :: 0 <= k < |list| ==> list[k] < |s.installers|
    ensures |es| == |list|
  {
    seq(|list|, k requires 0 <= k < |list| => HookRegistry.Entry(s.installers[list[k]].req.name, s.installers[list[k]].hook))
  }

  lemma ListsBounded(s: State)
    requires Bounded(s)
    ensures forall k :: 0 <= k < |s.inline| ==> s.inline[k] < |s.installers|
    ensures forall k :: 0 <= k < |s.mids| ==> s.mids[k] < |s.installers|
  {
    assert forall k :: 0 <= k < |s.inline| ==> s.Order()[k] == s.inline[k];
    assert forall k :: 0 <= k < |s.mids| ==> s.Order()[|s.inline| + k] == s.mids[k];
  }

  // The registry the threads share, which also counts retired hooks.
  function Shared(s: State, retired: nat): HookRegistry.Registry
    requires Bounded(s)
  {
    ListsBounded(s);
    HookRegistry.Registry(s.IsSealed(), EntriesOf(s, s.inline), s.targets, EntriesOf(s, s.mids), retired, s.RetireStarted(), s.code)
  }

  // The module is there and its threads are running.
  predicate Alive(s: State) {
    !s.crashed && !s.shutdown.Unmapped?
  }

  // All the steps of one installer, one after the other.
  function InstallSteps(i: nat, jump: seq<int>): seq<Event> {
    [] + [Check(i)] + [CheckOwner(i)] + [WriteJump(i, jump)] + [Record(i)] + [Adopt(i, true)]
  }

  // The registry accepts this installer's request.
  predicate Accepts(s: State, i: nat, jump: seq<int>)
    requires i < |s.installers|
  {
    var req := s.installers[i].req;
    && !s.IsSealed() && (req.mid || HookRegistry.OwnerOf(s.targets, req.target) == "") && Create(s.code, req.target, jump).Some?
  }

  // The state after an accepted installation.
  function Installed(s: State, i: nat, jump: seq<int>): State
    requires i < |s.installers| && Accepts(s, i, jump)
  {
    var req := s.installers[i].req;
    var (h, m) := Create(s.code, req.target, jump).value;
    var t := s.(code := m, installers := s.installers[i := Installer(req, Adopted, h)]);
    if req.mid then t.(mids := s.mids + [i])
    else t.(inline := s.inline + [i], targets := s.targets + [HookRegistry.Target(req.name, req.target)])
  }

  lemma StepsToClear(s: State, i: nat)
    requires s.At(i, Idle) && Alive(s)
    ensures var (u, req) := (Run(s, [] + [Check(i)] + [CheckOwner(i)]), s.installers[i].req);
            u == Move(s, i, if !s.IsSealed() && (req.mid || HookRegistry.OwnerOf(s.targets, req.target) == "") then Cleared else Refused)
  {
    RunNext(s, [], Check(i));
    assert Run(s, [] + [Check(i)]) == Move(s, i, if s.IsSealed() then Refused else Checked);
    RunNext(s, [] + [Check(i)], CheckOwner(i));
  }

  lemma StepsToPatch(s: State, i: nat, jump: seq<int>)
    requires s.At(i, Idle) && Alive(s)
    ensures var u := Run(s, [] + [Check(i)] + [CheckOwner(i)] + [WriteJump(i, jump)]);
            if Accepts(s, i, jump) then u == Move(SetHook(s, i, Create(s.code, s.installers[i].req.target, jump).value), i, Patched)
            else u == Move(s, i, Refused)
  {
    StepsToClear(s, i);
    RunNext(s, [] + [Check(i)] + [CheckOwner(i)], WriteJump(i, jump));
  }

  lemma StepsToAdopt(s: State, a: seq<Event>, i: nat)
    ensures var u := Run(s, a);
            u.At(i, Refused) ==> Run(s, a + [Record(i)] + [Adopt(i, true)]) == u
    ensures var u := Run(s, a);
            u.At(i, Patched) && u.shutdown.Running? && !u.crashed ==>
              Run(s, a + [Record(i)] + [Adopt(i, true)]) == AdoptStep(if u.installers[i].req.mid then u else RecordStep(u, i), i, true)
  {
    RunNext(s, a, Record(i));
    RunNext(s, a + [Record(i)], Adopt(i, true));
  }

  lemma StepsInstall(s: State, i: nat, jump: seq<int>)
    requires s.At(i, Idle) && Alive(s)
    ensures Run(s, InstallSteps(i, jump)) == if Accepts(s, i, jump) then Installed(s, i, jump) else Move(s, i, Refused)
  {
    var a := [] + [Check(i)] + [CheckOwner(i)] + [WriteJump(i, jump)];
    StepsToPatch(s, i, jump);
    StepsToAdopt(s, a, i);
  }

  lemma SameEntries(r: State, t: State, list: seq<nat>)
    requires r.installers == t.installers && forall k :: 0 <= k < |list| ==> list[k] < |t.installers|
    ensures EntriesOf(r, list) == EntriesOf(t, list)
  {
  }

  // Changing an installer that is not listed changes no entry.
  lemma EntriesElsewhere(s: State, u: State, list: seq<nat>, i: nat)
    requires forall k :: 0 <= k < |list| ==> list[k] < |s.installers| && list[k] != i
    requires |u.installers| == |s.installers| && forall j :: 0 <= j < |s.installers| && j != i ==> u.installers[j] == s.installers[j]
    ensures EntriesOf(u, list) == EntriesOf(s, list)
  {
  }

  lemma EntriesAppend(s: State, list: seq<nat>, i: nat)
    requires i < |s.installers| && forall k :: 0 <= k < |list| ==> list[k] < |s.installers|
    ensures EntriesOf(s, list + [i]) == EntriesOf(s, list) + [HookRegistry.Entry(s.installers[i].req.name, s.installers[i].hook)]
  {
  }

  lemma NotListed(s: State, i: nat)
    requires Listed(s) && !s.At(i, Adopted)
    ensures i !in s.inline && i !in s.mids
  {
    assert i !in s.Order();
    assert forall k :: 0 <= k < |s.inline| ==> s.Order()[k] == s.inline[k];
    assert forall k :: 0 <= k < |s.mids| ==> s.Order()[|s.inline| + k] == s.mids[k];
  }

  /** An installer whose steps nobody interrupts does exactly what the registry's install, or
      install_mid, does in one go: same acceptance, same code, records and lists. */
  lemma StepsRefineInstall(s: State, i: nat, jump: seq<int>, retired: nat)
    requires Listed(s) && s.At(i, Idle) && Alive(s)
    ensures var (u, req) := (Run(s, InstallSteps(i, jump)), s.installers[i].req);
            && Bounded(s) && Bounded(u)
            && (Shared(u, retired), u.At(i, Adopted)) ==
               if req.mid then HookRegistry.InstallMid(Shared(s, retired), req.name, req.target, jump, true)
               else HookRegistry.Install(Shared(s, retired), req.name, req.target, jump, true)
  {
    StepsInstall(s, i, jump);
    assert Bounded(s) by {
      assert forall k :: 0 <= k < |s.Order()| ==> s.At(s.Order()[k], Adopted);
    }
    ListsBounded(s);
    NotListed(s, i);
    var u := Run(s, InstallSteps(i, jump));
    EntriesElsewhere(s, u, s.inline, i);
    EntriesElsewhere(s, u, s.mids, i);
    if Accepts(s, i, jump) {
      EntriesAppend(u, if s.installers[i].req.mid then s.mids else s.inline, i);
    }
  }

  // No installer is listed twice.
  ghost predicate Once(s: State) {
    && (forall k, l :: 0 <= k < |s.inline| && 0 <= l < |s.inline| && k != l ==> s.inline[k] != s.inline[l])
    && (forall k, l :: 0 <= k < |s.mids| && 0 <= l < |s.mids| && k != l ==> s.mids[k] != s.mids[l])
    && (forall k, l :: 0 <= k < |s.inline| && 0 <= l < |s.mids| ==> s.inline[k] != s.mids[l])
  }

  // Only adoption changes the lists.
  lemma ListsStay(s: State, e: Event)
    ensures !e.Adopt? || !Adoptable(s, e.i) || !Alive(s) ==> Next(s, e).inline == s.inline && Next(s, e).mids == s.mids
  {
  }

  lemma AdoptKeepsOnce(s: State, i: nat, ok: bool)
    requires Listed(s) && Once(s) && Adoptable(s, i)
    ensures Once(AdoptStep(s, i, ok))
  {
    NotListed(s, i);
    AdoptInParts(s, i, ok);
  }

  lemma NextKeepsOnce(s: State, e: Event)
    requires Listed(s) && Once(s)
    ensures Once(Next(s, e))
  {
    if e.Adopt? && Adoptable(s, e.i) && Alive(s) {
      AdoptKeepsOnce(s, e.i, e.ok);
    } else {
      ListsStay(s, e);
    }
  }

  /** In every reachable state the lists name installers, and none of them twice. */
  lemma {:induction false} ReachableLists(original: Memory, requests: seq<Request>, events: seq<Event>)
    requires DisciplinedRun(Start(original, requests), events)
    ensures Once(Run(Start(original, requests), events)) && Bounded(Run(Start(original, requests), events))
  {
    var s := Run(Start(original, requests), events);
    RunKeeps(original, requests, events);
    assert forall k :: 0 <= k < |s.Order()| ==> s.At(s.Order()[k], Adopted);
    if events != [] {
      var front := events[..|events| - 1];
      ReachableLists(original, requests, front);
      RunKeeps(original, requests, front);
      NextKeepsOnce(Run(Start(original, requests), front), events[|events| - 1]);
    }
  }

  // The retiring steps, with the system's answer at each position.
  function Sweep(oks: seq<bool>): seq<Event> {
    if oks == [] then [] else Sweep(oks[..|oks| - 1]) + [RetireNext(oks[|oks| - 1])]
  }

  function Refusals(oks: seq<bool>): set<nat> {
    set k: nat | k < |oks| && !oks[k]
  }

  lemma SweepNext(s: State, oks: seq<bool>, ok: bool)
    ensures Run(s, Sweep(oks + [ok])) == Next(Run(s, Sweep(oks)), RetireNext(ok))
  {
    assert (oks + [ok])[..|oks|] == oks;
    RunNext(s, Sweep(oks), RetireNext(ok));
  }

  // What a retiring walk sees and changes: both lists, code memory, where it stands, and its
  // verdict so far.
  datatype Board = Board(hooks: seq<HookRegistry.Entry>, mids: seq<HookRegistry.Entry>, code: Memory, next: nat, ok: bool)

  // The entry after the system's answer to disabling it.
  function After(e: HookRegistry.Entry, code: Memory, ok: bool): HookRegistry.Entry {
    HookRegistry.Entry(e.name, Disable(code, e.hook, ok).0)
  }

  function BoardStep(b: Board, ok: bool): Board {
    var k, n := b.next, |b.hooks|;
    if k < n then
      var e := b.hooks[k];
      Board(b.hooks[k := After(e, b.code, ok)], b.mids, Disable(b.code, e.hook, ok).1, k + 1, b.ok && (ok || !e.hook.Active()))
    else if k - n < |b.mids| then
      var e := b.mids[k - n];
      Board(b.hooks, b.mids[k - n := After(e, b.code, ok)], Disable(b.code, e.hook, ok).1, k + 1, b.ok && (ok || !e.hook.Active()))
    else b
  }

  function BoardRun(b: Board, oks: seq<bool>): Board {
    if oks == [] then b else BoardStep(BoardRun(b, oks[..|oks| - 1]), oks[|oks| - 1])
  }

  // Disabling the installer listed at one position changes that entry only.
  lemma EntryDisabled(s: State, list: seq<nat>, p: nat, ok: bool)
    requires p < |list| && forall k :: 0 <= k < |list| ==> list[k] < |s.installers|
    requires forall k :: 0 <= k < |list| && k != p ==> list[k] != list[p]
    ensures var x := s.installers[list[p]];
            EntriesOf(DisableStep(s, list[p], ok), list)
            == EntriesOf(s, list)[p := HookRegistry.Entry(x.req.name, Disable(s.code, x.hook, ok).0)]
  {
  }

  // The board as it stands in state u, whose lists are those of s.
  ghost predicate Shows(s: State, u: State, b: Board) {
    && Bounded(u) && u.inline == s.inline && u.mids == s.mids && u.targets == s.targets && !u.crashed
    && (forall j :: 0 <= j < |s.inline| ==> s.inline[j] < |u.installers|)
    && (forall j :: 0 <= j < |s.mids| ==> s.mids[j] < |u.installers|)
    && b == Board(EntriesOf(u, s.inline), EntriesOf(u, s.mids), u.code, b.next, b.ok)
    && u.shutdown == Retiring(b.next, b.ok)
  }

  lemma ShowsInline(s: State, u: State, b: Board, ok: bool)
    requires Once(s) && Shows(s, u, b) && b.next < |s.inline|
    ensures Shows(s, Next(u, RetireNext(ok)), BoardStep(b, ok))
  {
    var n, i, r := b.next, s.inline[b.next], Next(u, RetireNext(ok));
    assert u.Order()[n] == i;
    var t := DisableStep(u, i, ok);
    EntryDisabled(u, s.inline, n, ok);
    EntriesElsewhere(u, t, s.mids, i);
    RetireNextIs(u, ok);
    assert r == t.(shutdown := r.shutdown);
    SameEntries(r, t, s.inline);
    SameEntries(r, t, s.mids);
  }

  lemma ShowsMids(s: State, u: State, b: Board, ok: bool)
    requires Once(s) && Shows(s, u, b) && |s.inline| <= b.next < |s.Order()|
    ensures Shows(s, Next(u, RetireNext(ok)), BoardStep(b, ok))
  {
    var n, i, r := b.next - |s.inline|, s.mids[b.next - |s.inline|], Next(u, RetireNext(ok));
    assert u.Order()[b.next] == i;
    var t := DisableStep(u, i, ok);
    EntryDisabled(u, s.mids, n, ok);
    EntriesElsewhere(u, t, s.inline, i);
    RetireNextIs(u, ok);
    assert r == t.(shutdown := r.shutdown);
    assert b.mids[n] == HookRegistry.Entry(u.installers[i].req.name, u.installers[i].hook);
    SameEntries(r, t, s.inline);
    SameEntries(r, t, s.mids);
  }

  // The thread's steps and the board's keep pace.
  lemma {:induction false} ShowsRun(s: State, oks: seq<bool>, b: Board)
    requires Once(s) && Shows(s, s, b) && b.next + |oks| <= |s.Order()|
    ensures Shows(s, Run(s, Sweep(oks)), BoardRun(b, oks)) && BoardRun(b, oks).next == b.next + |oks|
    decreases |oks|
  {
    if oks != [] {
      var front, ok := oks[..|oks| - 1], oks[|oks| - 1];
      ShowsRun(s, front, b);
      assert oks == front + [ok];
      SweepNext(s, front, ok);
      ShowsNext(s, Run(s, Sweep(front)), BoardRun(b, front), ok);
    }
  }

  lemma ShowsNext(s: State, u: State, b: Board, ok: bool)
    requires Once(s) && Shows(s, u, b) && b.next < |s.Order()|
    ensures Shows(s, Next(u, RetireNext(ok)), BoardStep(b, ok)) && BoardStep(b, ok).next == b.next + 1
  {
    if b.next < |s.inline| {
      ShowsInline(s, u, b, ok);
    } else {
      ShowsMids(s, u, b, ok);
    }
  }

  // One more position of the registry's walk, given the answer there.
  lemma WalkNext(es: seq<HookRegistry.Entry>, n: nat, ok: bool, refused: set<nat>, code: Memory)
    requires n < |es| && ok == (n !in refused)
    ensures var w := HookRegistry.WalkTo(es, n, refused, code);
            var v := HookRegistry.WalkTo(es, n + 1, refused, code);
            && v.entries == w.entries[n := After(w.entries[n], w.code, ok)]
            && v.code == Disable(w.code, w.entries[n].hook, ok).1
            && v.ok == (w.ok && (ok || !w.entries[n].hook.Active()))
  {
    var w := HookRegistry.WalkTo(es, n, refused, code);
    assert w.entries[n] == w.entries[n..][0] == es[n..][0];
  }

  lemma {:induction false} BoardInline(hs: seq<HookRegistry.Entry>, ms: seq<HookRegistry.Entry>, code: Memory, oks: seq<bool>, refused: set<nat>)
    requires |oks| <= |hs| && forall k :: 0 <= k < |oks| ==> oks[k] == (k !in refused)
    ensures var w := HookRegistry.WalkTo(hs, |oks|, refused, code);
            BoardRun(Board(hs, ms, code, 0, true), oks) == Board(w.entries, ms, w.code, |oks|, w.ok)
    decreases |oks|
  {
    if oks != [] {
      var n := |oks| - 1;
      BoardInline(hs, ms, code, oks[..n], refused);
      WalkNext(hs, n, oks[n], refused, code);
    }
  }

  lemma {:induction false} BoardMids(b: Board, ms: seq<HookRegistry.Entry>, oks: seq<bool>, refused: set<nat>)
    requires b.next == |b.hooks| && b.mids == ms && |oks| <= |ms| && forall k :: 0 <= k < |oks| ==> oks[k] == (k !in refused)
    ensures var v := HookRegistry.WalkTo(ms, |oks|, refused, b.code);
            BoardRun(b, oks) == Board(b.hooks, v.entries, v.code, |b.hooks| + |oks|, b.ok && v.ok)
    decreases |oks|
  {
    if oks != [] {
      var n := |oks| - 1;
      BoardMids(b, ms, oks[..n], refused);
      var c := BoardRun(b, oks[..n]);
      WalkNext(ms, n, oks[n], refused, b.code);
      assert c.next - |c.hooks| == n;
      assert BoardRun(b, oks) == BoardStep(c, oks[n]);
    }
  }

  lemma {:induction false} BoardInTwo(b: Board, first: seq<bool>, second: seq<bool>)
    ensures BoardRun(b, first + second) == BoardRun(BoardRun(b, first), second)
    decreases |second|
  {
    if second == [] {
      assert first + second == first;
    } else {
      var n := |second| - 1;
      BoardInTwo(b, first, second[..n]);
      var all := first + second;
      assert all[..|first| + n] == first + second[..n];
      assert all[|all| - 1] == second[n];
    }
  }

  // Both walks, one after the other.
  lemma BoardIsRetire(hs: seq<HookRegistry.Entry>, ms: seq<HookRegistry.Entry>, code: Memory, first: seq<bool>, second: seq<bool>)
    requires |first| == |hs| && |second| == |ms|
    ensures var w := HookRegistry.WalkTo(hs, |hs|, Refusals(first), code);
            var v := HookRegistry.WalkTo(ms, |ms|, Refusals(second), w.code);
            BoardRun(Board(hs, ms, code, 0, true), first + second) == Board(w.entries, v.entries, v.code, |hs| + |ms|, w.ok && v.ok)
  {
    BoardInTwo(Board(hs, ms, code, 0, true), first, second);
    BoardInline(hs, ms, code, first, Refusals(first));
    var w := HookRegistry.WalkTo(hs, |hs|, Refusals(first), code);
    BoardMids(Board(w.entries, ms, w.code, |hs|, w.ok), ms, second, Refusals(second));
  }

  // Taking the lock shows the whole board, and giving it back leaves what the board says.
  lemma LockShows(s: State)
    requires Bounded(s) && s.shutdown.Sealed? && !s.crashed
    ensures forall k :: 0 <= k < |s.inline| ==> s.inline[k] < |s.installers|
    ensures forall k :: 0 <= k < |s.mids| ==> s.mids[k] < |s.installers|
    ensures var t := Next(s, BeginRetire);
            Shows(t, t, Board(EntriesOf(s, s.inline), EntriesOf(s, s.mids), s.code, 0, true))
    ensures Next(s, BeginRetire).inline == s.inline && Next(s, BeginRetire).mids == s.mids && Next(s, BeginRetire).targets == s.targets
  {
    var t := Next(s, BeginRetire);
    ListsBounded(s);
    SameEntries(t, s, s.inline);
    SameEntries(t, s, s.mids);
  }

  lemma ReleaseKeeps(s: State, t: State, b: Board, retired: nat)
    requires Shows(s, t, b) && b.next == |s.Order()|
    ensures var u := Next(t, EndRetire);
            && Bounded(u) && u.shutdown == Retired(b.ok)
            && Shared(u, retired) == HookRegistry.Registry(true, b.hooks, s.targets, b.mids, retired, true, b.code)
  {
    var u := Next(t, EndRetire);
    assert u == t.(shutdown := u.shutdown);
    ListsBounded(u);
    SameEntries(u, t, s.inline);
    SameEntries(u, t, s.mids);
  }

  /** Undisturbed, the shutdown thread's walk under the lock does exactly what the registry's
      retirement does: same verdict, same hooks, same code, whichever disables are refused. */
  lemma StepsRefineRetire(s: State, first: seq<bool>, second: seq<bool>, retired: nat)
    requires Once(s) && Bounded(s) && s.shutdown.Sealed? && !s.crashed && |first| == |s.inline| && |second| == |s.mids|
    ensures var u := Next(Run(Next(s, BeginRetire), Sweep(first + second)), EndRetire);
            var (r, ok) := HookRegistry.Retire(Shared(s, retired), Refusals(first), Refusals(second));
            && Bounded(u) && Shared(u, r.retired) == r && u.shutdown == Retired(ok)
  {
    var t := Next(s, BeginRetire);
    LockShows(s);
    var hs, ms := EntriesOf(s, s.inline), EntriesOf(s, s.mids);
    ShowsRun(t, first + second, Board(hs, ms, s.code, 0, true));
    BoardIsRetire(hs, ms, s.code, first, second);
    var r := HookRegistry.Retire(Shared(s, retired), Refusals(first), Refusals(second)).0;
    ReleaseKeeps(t, Run(t, Sweep(first + second)), BoardRun(Board(hs, ms, s.code, 0, true), first + second), r.retired);
  }

  lemma {:induction false} PositionIsIndex(s: State, list: seq<nat>, name: string)
    requires forall k :: 0 <= k < |list| ==> list[k] < |s.installers|
    ensures Position(s, list, name) == HookRegistry.IndexOf(EntriesOf(s, list), name)
    decreases |list|
  {
    if list != [] && s.installers[list[0]].req.name != name {
      PositionIsIndex(s, list[1..], name);
      assert EntriesOf(s, list)[1..] == EntriesOf(s, list[1..]);
    }
  }

  // Disabling the installer at one position of one list, as the registry does it.
  lemma DisableListed(s: State, list: seq<nat>, p: nat, ok: bool)
    requires Bounded(s) && p < |list| && forall k :: 0 <= k < |list| ==> list[k] < |s.installers|
    requires forall k :: 0 <= k < |list| && k != p ==> list[k] != list[p]
    ensures var (t, e) := (DisableStep(s, list[p], ok), EntriesOf(s, list)[p]);
            && t.code == Disable(s.code, e.hook, ok).1
            && EntriesOf(t, list) == EntriesOf(s, list)[p := HookRegistry.Entry(e.name, Disable(s.code, e.hook, ok).0)]
            && (!e.hook.Active() || !ok ==> EntriesOf(t, list) == EntriesOf(s, list))
  {
    EntryDisabled(s, list, p, ok);
  }

  /** Retiring one hook by name, too, does what the registry's retire_one does. */
  lemma StepsRefineRetireOne(s: State, name: string, ok: bool, retired: nat)
    requires Once(s) && Bounded(s) && Alive(s) && !s.Locked()
    ensures var u := Next(s, RetireOne(name, ok));
            var (r, done) := HookRegistry.RetireOne(Shared(s, retired), name, ok);
            Bounded(u) && Shared(u, r.retired) == r
  {
    ListsBounded(s);
    PositionIsIndex(s, s.inline, name);
    PositionIsIndex(s, s.mids, name);
    var p, q := Position(s, s.inline, name), Position(s, s.mids, name);
    if p < |s.inline| {
      RetireOneInline(s, name, p, ok, retired);
    } else if q < |s.mids| {
      RetireOneMid(s, name, q, ok, retired);
    }
  }

  lemma RetireOneInline(s: State, name: string, p: nat, ok: bool, retired: nat)
    requires Once(s) && Bounded(s) && p < |s.inline| && s.inline[p] < |s.installers|
    requires HookRegistry.IndexOf(Shared(s, retired).hooks, name) == p
    ensures var u := DisableStep(s, s.inline[p], ok);
            var (r, done) := HookRegistry.RetireOne(Shared(s, retired), name, ok);
            Bounded(u) && Shared(u, r.retired) == r
  {
    var u := DisableStep(s, s.inline[p], ok);
    ListsBounded(s);
    ListsBounded(u);
    DisableListed(s, s.inline, p, ok);
    EntriesElsewhere(s, u, s.mids, s.inline[p]);
  }

  lemma RetireOneMid(s: State, name: string, q: nat, ok: bool, retired: nat)
    requires Once(s) && Bounded(s) && q < |s.mids| && s.mids[q] < |s.installers|
    requires HookRegistry.IndexOf(Shared(s, retired).hooks, name) == |s.inline|
    requires HookRegistry.IndexOf(Shared(s, retired).mids, name) == q
    ensures var u := DisableStep(s, s.mids[q], ok);
            var (r, done) := HookRegistry.RetireOne(Shared(s, retired), name, ok);
            Bounded(u) && Shared(u, r.retired) == r
  {
    var u := DisableStep(s, s.mids[q], ok);
    ListsBounded(s);
    ListsBounded(u);
    DisableListed(s, s.mids, q, ok);
    EntriesElsewhere(s, u, s.inline, s.mids[q]);
  }
}
