/** Hooks installed while the module shuts down: any number of installer threads interleave
    with the shutdown thread. The steps under the registry's lock are single steps, except
    that retirement holds the lock over one step per hook, while patching goes on outside. */
module HookProtocol {
  import opened CodeMemory
  import HookRegistry

  type Target = HookRegistry.Target

  datatype Request = Request(name: string, target: int, mid: bool)

  // Where an installer stands.
  datatype Stage =
    | Idle
    | Checked        // saw the registry unsealed
    | Cleared        // saw no owner for its target (a mid hook does not look)
    | Patched        // the jump is written
    | Recorded       // an inline hook's target is recorded
    | Adopted
    | Refused

  // One installation: its request, its stage, and its hook wherever that has been moved.
  datatype Installer = Installer(req: Request, stage: Stage, hook: Hook)

  datatype Shutdown =
    | Running
    | Sealed
    | Retiring(next: nat, ok: bool)  // holds the lock; next is the position to retire
    | Retired(ok: bool)
    | Unmapped
    | Dormant

  // inline and mids list the adopted installers; failedLate those whose disable on late
  // adoption failed, which the registry ignores. Once the module is unmapped its code is
  // gone: an installer still executing it has crashed the process.
  datatype State = State(code: Memory, installers: seq<Installer>, inline: seq<nat>, mids: seq<nat>,
                         targets: seq<Target>, shutdown: Shutdown, failedLate: set<nat>, crashed: bool) {
    predicate IsSealed() {
      !shutdown.Running?
    }

    predicate RetireStarted() {
      !shutdown.Running? && !shutdown.Sealed?
    }

    predicate Locked() {
      shutdown.Retiring?
    }

    function Order(): seq<nat> {
      inline + mids
    }

    predicate At(i: nat, stage: Stage) {
      i < |installers| && installers[i].stage == stage
    }

    predicate Quiet(i: nat) {
      i < |installers| ==> !installers[i].hook.Active()
    }

    // Between its sealed check and the end of its adoption.
    predicate InFlight(i: nat) {
      At(i, Checked) || At(i, Cleared) || At(i, Patched) || At(i, Recorded)
    }
  }

  function Start(code: Memory, requests: seq<Request>): State {
    State(code, seq(|requests|, i requires 0 <= i < |requests| => Installer(requests[i], Idle, Empty)), [], [], [], Running, {}, false)
  }

  // ---- steps -------------------------------------------------------------------------

  datatype Event =
    | Check(i: nat)
    | CheckOwner(i: nat)
    | WriteJump(i: nat, jump: seq<int>)
    | Record(i: nat)
    | Adopt(i: nat, ok: bool)
    | RetireOne(name: string, ok: bool)
    | Seal
    | BeginRetire
    | RetireNext(ok: bool)
    | EndRetire
    | Quiesce(clear: bool)           // the verdict of the scan over the other threads

  function Move(s: State, i: nat, stage: Stage): State
    requires i < |s.installers|
  {
    s.(installers := s.installers[i := s.installers[i].(stage := stage)])
  }

  function SetHook(s: State, i: nat, d: (Hook, Memory)): State
    requires i < |s.installers|
  {
    s.(installers := s.installers[i := s.installers[i].(hook := d.0)], code := d.1)
  }

  function CheckStep(s: State, i: nat): State
    requires i < |s.installers|
  {
    Move(s, i, if s.IsSealed() then Refused else Checked)
  }

  function CheckOwnerStep(s: State, i: nat): State
    requires i < |s.installers|
  {
    var req := s.installers[i].req;
    Move(s, i, if !req.mid && HookRegistry.OwnerOf(s.targets, req.target) != "" then Refused else Cleared)
  }

  function RecordStep(s: State, i: nat): State
    requires i < |s.installers|
  {
    var req := s.installers[i].req;
    Move(s.(targets := s.targets + [HookRegistry.Target(req.name, req.target)]), i, Recorded)
  }

  function DisableStep(s: State, i: nat, ok: bool): State
    requires i < |s.installers|
  {
    SetHook(s, i, Disable(s.code, s.installers[i].hook, ok))
  }

  // Ready for the lock and adoption.
  predicate Adoptable(s: State, i: nat) {
    !s.Locked() && (s.At(i, Recorded) || (s.At(i, Patched) && s.installers[i].req.mid))
  }

  function WriteJumpStep(s: State, i: nat, jump: seq<int>): State
    requires i < |s.installers|
  {
    var made := Create(s.code, s.installers[i].req.target, jump);
    if made.None? then Move(s, i, Refused) else Move(SetHook(s, i, made.value), i, Patched)
  }

  function AdoptStep(s: State, i: nat, ok: bool): State
    requires i < |s.installers|
  {
    var t := if s.RetireStarted() then DisableStep(s, i, ok) else s;
    var u := Move(t, i, Adopted);
    var v := if s.RetireStarted() && !ok then u.(failedLate := s.failedLate + {i}) else u;
    if s.installers[i].req.mid then v.(mids := s.mids + [i]) else v.(inline := s.inline + [i])
  }

  function RetireNextStep(s: State, ok: bool): State
    requires s.Locked()
  {
    var k := s.shutdown.next;
    if k >= |s.Order()| || s.Order()[k] >= |s.installers| then s
    else
      var i := s.Order()[k];
      var t := DisableStep(s, i, ok);
      t.(shutdown := Retiring(k + 1, s.shutdown.ok && (ok || s.Quiet(i))))
  }

  // The first position in a list whose installer has this name, or the list's length.
  function Position(s: State, list: seq<nat>, name: string): (p: nat)
    ensures p <= |list|
    ensures p < |list| ==> list[p] < |s.installers|
  {
    if list == [] || (list[0] < |s.installers| && s.installers[list[0]].req.name == name) then 0
    else 1 + Position(s, list[1..], name)
  }

  function RetireOneStep(s: State, name: string, ok: bool): State {
    var p, q := Position(s, s.inline, name), Position(s, s.mids, name);
    if p < |s.inline| then DisableStep(s, s.inline[p], ok)
    else if q < |s.mids| then DisableStep(s, s.mids[q], ok)
    else s
  }

  // Which steps can be taken. After unmapping only installers already in flight have any.
  predicate Enabled(s: State, e: Event) {
    match e
    case Check(i) => s.At(i, Idle) && !s.shutdown.Unmapped?
    case CheckOwner(i) => s.At(i, Checked)
    case WriteJump(i, _) => s.At(i, Cleared)
    case Record(i) => s.At(i, Patched) && !s.installers[i].req.mid && !s.Locked()
    case Adopt(i, _) => Adoptable(s, i)
    case RetireOne(_, _) => !s.Locked() && !s.shutdown.Unmapped?
    case Seal => s.shutdown.Running?
    case BeginRetire => s.shutdown.Sealed?
    case RetireNext(_) => s.Locked()
    case EndRetire => s.Locked() && s.shutdown.next >= |s.Order()|
    case Quiesce(_) => s.shutdown.Retired?
  }

  function Step(s: State, e: Event): State
    requires Enabled(s, e)
  {
    match e
    case Check(i) => CheckStep(s, i)
    case CheckOwner(i) => CheckOwnerStep(s, i)
    case WriteJump(i, jump) => WriteJumpStep(s, i, jump)
    case Record(i) => RecordStep(s, i)
    case Adopt(i, ok) => AdoptStep(s, i, ok)
    case RetireOne(name, ok) => RetireOneStep(s, name, ok)
    case Seal => s.(shutdown := Sealed)
    case BeginRetire => s.(shutdown := Retiring(0, true))
    case RetireNext(ok) => RetireNextStep(s, ok)
    case EndRetire => s.(shutdown := Retired(s.shutdown.ok))
    case Quiesce(clear) => s.(shutdown := if s.shutdown.ok && clear then Unmapped else Dormant)
  }

  // A step that is not enabled changes nothing, and nothing happens after a crash. A step
  // in the unmapped module is the crash.
  function Next(s: State, e: Event): State {
    if s.crashed || !Enabled(s, e) then s
    else if s.shutdown.Unmapped? then s.(crashed := true)
    else Step(s, e)
  }

  function Run(s: State, events: seq<Event>): State {
    if events == [] then s else Next(Run(s, events[..|events| - 1]), events[|events| - 1])
  }

  // ---- what the protocol relies on and does not check -----------------------------------

  /** Inline hooks are named, and no two of them are installed on one target at the same
      time. A jump is clear of every active patch, except that the registry itself keeps
      inline hooks off one another's targets; and it changes some byte. */
  ghost predicate Disciplined(s: State, e: Event) {
    match e
    case Check(i) =>
      i < |s.installers| && !s.installers[i].req.mid ==>
        && s.installers[i].req.name != ""
        && Alone(s, i)
    case WriteJump(i, jump) =>
      i < |s.installers| ==> ClearJump(s, i, jump)
    case _ => true
  }

  ghost predicate ClearJump(s: State, i: nat, jump: seq<int>)
    requires i < |s.installers|
  {
    var req := s.installers[i].req;
    && (forall j :: 0 <= j < |s.installers| && j != i && (req.mid || s.installers[j].req.mid || s.installers[j].req.target != req.target)
                    ==> Disjoint(HookRegistry.Footprint(req.target, jump), s.installers[j].hook))
    && (Mapped(s.code, req.target, |jump|) ==> jump != Peek(s.code, req.target, |jump|))
  }

  ghost predicate DisciplinedRun(s: State, events: seq<Event>) {
    events == [] || (DisciplinedRun(s, events[..|events| - 1]) && Disciplined(Run(s, events[..|events| - 1]), events[|events| - 1]))
  }

  // ---- the invariant ----------------------------------------------------------------------

  function HooksIn(s: State): (hs: seq<Hook>)
    ensures |hs| == |s.installers| && forall i :: 0 <= i < |hs| ==> hs[i] == s.installers[i].hook
  {
    seq(|s.installers|, i requires 0 <= i < |s.installers| => s.installers[i].hook)
  }

  // A hook exists from patching on, at the requested target, and stays active until adopted.
  predicate StageFits(x: Installer) {
    && (x.hook.Hook? <==> x.stage == Patched || x.stage == Recorded || x.stage == Adopted)
    && (x.hook.Hook? ==> x.hook.target == x.req.target)
    && (x.stage == Patched || x.stage == Recorded ==> x.hook.Active())
    && Changes(x.hook)
  }

  // What the records say of an inline installer at this stage.
  predicate RecordFits(targets: seq<Target>, x: Installer) {
    !x.req.mid ==>
      && (x.stage == Recorded || x.stage == Adopted ==> HookRegistry.OwnerOf(targets, x.req.target) != "")
      && (x.stage == Cleared || x.stage == Patched ==> HookRegistry.OwnerOf(targets, x.req.target) == "")
      && (x.stage == Checked || x.stage == Cleared || x.stage == Patched ==> x.req.name != "")
  }

  ghost predicate OneOwner(s: State) {
    && (forall k :: 0 <= k < |s.targets| ==> s.targets[k].name != "")
    && (forall i :: 0 <= i < |s.installers| ==> RecordFits(s.targets, s.installers[i]))
    && (forall i, j :: 0 <= i < j < |s.installers| && s.InFlight(i) && s.InFlight(j) && !s.installers[i].req.mid && !s.installers[j].req.mid
                       ==> s.installers[i].req.target != s.installers[j].req.target)
  }

  // The lists hold exactly the adopted installers.
  ghost predicate Listed(s: State) {
    && (forall k :: 0 <= k < |s.Order()| ==> s.At(s.Order()[k], Adopted))
    && (forall i :: 0 <= i < |s.installers| && s.installers[i].stage == Adopted ==> i in s.Order())
    && (forall i :: i in s.failedLate ==> s.At(i, Adopted))
  }

  // Retirement so far, and after it: only failed late disables leave an adopted hook active.
  ghost predicate Progress(s: State) {
    match s.shutdown
    case Running => s.failedLate == {}
    case Sealed => s.failedLate == {}
    case Retiring(k, ok) =>
      s.failedLate == {} && k <= |s.Order()| && (ok ==> forall p :: 0 <= p < k ==> s.Quiet(s.Order()[p]))
    case Retired(ok) => ok ==> LateOnly(s)
    case Unmapped => LateOnly(s)
    case Dormant => true
  }

  ghost predicate LateOnly(s: State) {
    forall i :: 0 <= i < |s.installers| && s.installers[i].stage == Adopted && s.installers[i].hook.Active() ==> i in s.failedLate
  }

  ghost predicate Invariant(s: State, original: Memory) {
    && Overlaid(HooksIn(s), s.code, original)
    && (forall i :: 0 <= i < |s.installers| ==> StageFits(s.installers[i]))
    && OneOwner(s) && Listed(s) && Progress(s)
  }

  lemma StartInvariant(original: Memory, requests: seq<Request>)
    ensures Invariant(Start(original, requests), original)
  {
  }

  // ---- every step keeps it -------------------------------------------------------------------

  // u differs from s at installer i, in code memory and in the records, and nowhere else.
  ghost predicate Only(s: State, u: State, i: nat) {
    && i < |s.installers| == |u.installers|
    && u == s.(code := u.code, targets := u.targets, installers := s.installers[i := u.installers[i]])
    && u.installers[i].req == s.installers[i].req
  }

  // The records still fit, if installer i's do and it clashes with nobody.
  lemma KeepsOneOwner(s: State, u: State, i: nat)
    requires OneOwner(s) && Only(s, u, i) && u.targets == s.targets
    requires RecordFits(u.targets, u.installers[i])
    requires u.InFlight(i) && !u.installers[i].req.mid ==> s.InFlight(i) || Alone(s, i)
    ensures OneOwner(u)
  {
    assert forall j :: 0 <= j < |s.installers| && j != i ==> u.installers[j] == s.installers[j] && (u.InFlight(j) <==> s.InFlight(j));
  }

  // No other inline installer is in flight on installer i's target.
  ghost predicate Alone(s: State, i: nat)
    requires i < |s.installers|
  {
    forall j :: 0 <= j < |s.installers| && j != i && s.InFlight(j) && !s.installers[j].req.mid
                ==> s.installers[j].req.target != s.installers[i].req.target
  }

  lemma KeepsListed(s: State, u: State, i: nat)
    requires Listed(s) && Only(s, u, i) && (u.installers[i].stage == Adopted <==> s.installers[i].stage == Adopted)
    ensures Listed(u) && u.Order() == s.Order()
  {
    assert u.Order() == s.Order();
    assert forall j :: s.At(j, Adopted) <==> u.At(j, Adopted);
  }

  lemma KeepsProgress(s: State, u: State, i: nat)
    requires Progress(s) && Listed(s) && Only(s, u, i) && u.Order() == s.Order()
    requires u.installers[i].stage == Adopted <==> s.installers[i].stage == Adopted
    requires s.installers[i].stage == Adopted && u.installers[i].hook.Active() ==> s.installers[i].hook.Active()
    ensures Progress(u)
  {
    assert forall j :: s.At(j, Adopted) && s.Quiet(j) ==> u.Quiet(j);
    assert forall p :: 0 <= p < |s.Order()| ==> s.At(s.Order()[p], Adopted);
    assert LateOnly(s) ==> LateOnly(u);
  }

  lemma KeepsStages(s: State, u: State, i: nat)
    requires Only(s, u, i) && StageFits(u.installers[i]) && forall j :: 0 <= j < |s.installers| ==> StageFits(s.installers[j])
    ensures forall j :: 0 <= j < |u.installers| ==> StageFits(u.installers[j])
  {
  }

  // Installer i moves on without touching memory or the records.
  lemma MoveKeeps(s: State, original: Memory, i: nat, stage: Stage)
    requires Invariant(s, original) && i < |s.installers| && s.installers[i].stage != Adopted && stage != Adopted
    requires var x := s.installers[i].(stage := stage); StageFits(x) && RecordFits(s.targets, x)
    requires Move(s, i, stage).InFlight(i) && !s.installers[i].req.mid ==> s.InFlight(i) || Alone(s, i)
    ensures Invariant(Move(s, i, stage), original)
  {
    var u := Move(s, i, stage);
    assert HooksIn(u) == HooksIn(s);
    KeepsOneOwner(s, u, i);
    KeepsListed(s, u, i);
    KeepsProgress(s, u, i);
    KeepsStages(s, u, i);
  }

  lemma CheckKeeps(s: State, original: Memory, i: nat)
    requires Invariant(s, original) && Disciplined(s, Check(i)) && s.At(i, Idle)
    ensures Invariant(CheckStep(s, i), original)
  {
    assert StageFits(s.installers[i]);
    MoveKeeps(s, original, i, if s.IsSealed() then Refused else Checked);
  }

  lemma CheckOwnerKeeps(s: State, original: Memory, i: nat)
    requires Invariant(s, original) && s.At(i, Checked)
    ensures Invariant(CheckOwnerStep(s, i), original)
  {
    var x := s.installers[i];
    assert StageFits(x) && RecordFits(s.targets, x) && s.InFlight(i);
    MoveKeeps(s, original, i, if !x.req.mid && HookRegistry.OwnerOf(s.targets, x.req.target) != "" then Refused else Cleared);
  }

  // A new jump is clear of every active patch: of inline hooks on the same target because
  // a finished one is recorded and none other is under way.
  lemma JumpIsClear(s: State, original: Memory, i: nat, jump: seq<int>)
    requires Invariant(s, original) && s.At(i, Cleared) && ClearJump(s, i, jump)
    ensures forall j :: 0 <= j < |s.installers| ==> Disjoint(HookRegistry.Footprint(s.installers[i].req.target, jump), s.installers[j].hook)
  {
    var req := s.installers[i].req;
    forall j | 0 <= j < |s.installers|
      ensures Disjoint(HookRegistry.Footprint(req.target, jump), s.installers[j].hook)
    {
      var x := s.installers[j];
      assert StageFits(x) && RecordFits(s.targets, x) && RecordFits(s.targets, s.installers[i]);
      if j != i && !req.mid && !x.req.mid && x.req.target == req.target && x.hook.Active() {
        assert s.InFlight(i) && s.InFlight(j);
        assert false;
      }
    }
  }

  lemma WriteJumpOverlays(s: State, original: Memory, i: nat, jump: seq<int>)
    requires Invariant(s, original) && s.At(i, Cleared) && ClearJump(s, i, jump)
    requires Create(s.code, s.installers[i].req.target, jump).Some?
    ensures var u := WriteJumpStep(s, i, jump); Overlaid(HooksIn(u), u.code, original)
  {
    var target := s.installers[i].req.target;
    var made := Create(s.code, target, jump);
    JumpIsClear(s, original, i, jump);
    forall j | 0 <= j < |HooksIn(s)|
      ensures Disjoint(made.value.0, HooksIn(s)[j])
    {
      assert Disjoint(HookRegistry.Footprint(target, jump), s.installers[j].hook);
    }
    assert StageFits(s.installers[i]);
    OverlayGrows(HooksIn(s), i, s.code, original, target, jump);
    assert HooksIn(WriteJumpStep(s, i, jump)) == HooksIn(s)[i := made.value.0];
  }

  // Everything but memory after a jump is written.
  lemma PatchedKeeps(s: State, u: State, i: nat)
    requires OneOwner(s) && Listed(s) && Progress(s) && s.At(i, Cleared)
    requires Only(s, u, i) && u.targets == s.targets && u.installers[i].stage == Patched
    ensures OneOwner(u) && Listed(u) && Progress(u)
  {
    assert RecordFits(s.targets, s.installers[i]) && s.InFlight(i);
    KeepsOneOwner(s, u, i);
    KeepsListed(s, u, i);
    KeepsProgress(s, u, i);
  }

  lemma WriteJumpKeeps(s: State, original: Memory, i: nat, jump: seq<int>)
    requires Invariant(s, original) && s.At(i, Cleared) && ClearJump(s, i, jump)
    ensures Invariant(WriteJumpStep(s, i, jump), original)
  {
    if Create(s.code, s.installers[i].req.target, jump).None? {
      assert StageFits(s.installers[i]) && RecordFits(s.targets, s.installers[i]);
      MoveKeeps(s, original, i, Refused);
    } else {
      var u := WriteJumpStep(s, i, jump);
      JumpFits(s, i, jump);
      WriteJumpOverlays(s, original, i, jump);
      PatchedKeeps(s, u, i);
      KeepsStages(s, u, i);
    }
  }

  lemma JumpFits(s: State, i: nat, jump: seq<int>)
    requires s.At(i, Cleared) && ClearJump(s, i, jump) && Create(s.code, s.installers[i].req.target, jump).Some?
    ensures var u := WriteJumpStep(s, i, jump);
            Only(s, u, i) && u.targets == s.targets && u.installers[i].stage == Patched && StageFits(u.installers[i])
  {
  }

  // Recording a target touches no other installer that is still looking for its owner.
  lemma RecordKeepsOneOwner(s: State, i: nat)
    requires OneOwner(s) && s.At(i, Patched) && !s.installers[i].req.mid
    ensures OneOwner(RecordStep(s, i))
  {
    var req, u := s.installers[i].req, RecordStep(s, i);
    assert RecordFits(s.targets, s.installers[i]) && s.InFlight(i);
    forall j | 0 <= j < |s.installers|
      ensures RecordFits(u.targets, u.installers[j])
    {
      assert RecordFits(s.targets, s.installers[j]);
      HookRegistry.OwnerAfterRecord(s.targets, HookRegistry.Target(req.name, req.target), s.installers[j].req.target);
      if j != i && s.InFlight(j) && !s.installers[j].req.mid {
        assert s.installers[j].req.target != req.target;
      }
    }
    assert forall j :: 0 <= j < |s.installers| && u.InFlight(j) ==> s.InFlight(j) && u.installers[j].req == s.installers[j].req;
  }

  lemma RecordKeeps(s: State, original: Memory, i: nat)
    requires Invariant(s, original) && s.At(i, Patched) && !s.installers[i].req.mid
    ensures Invariant(RecordStep(s, i), original)
  {
    var u := RecordStep(s, i);
    assert StageFits(s.installers[i]);
    RecordKeepsOneOwner(s, i);
    assert HooksIn(u) == HooksIn(s);
    KeepsListed(s, u, i);
    KeepsProgress(s, u, i);
    KeepsStages(s, u, i);
  }

  // Disabling installer i's hook.
  lemma DisableOverlays(s: State, original: Memory, i: nat, ok: bool)
    requires Overlaid(HooksIn(s), s.code, original) && i < |s.installers|
    ensures var u := DisableStep(s, i, ok); Overlaid(HooksIn(u), u.code, original) && Only(s, u, i)
  {
    var u := DisableStep(s, i, ok);
    OverlayShrinks(HooksIn(s), i, s.code, original, ok);
    assert HooksIn(u) == HooksIn(s)[i := u.installers[i].hook];
  }

  lemma DisableKeeps(s: State, original: Memory, i: nat, ok: bool)
    requires Invariant(s, original) && s.At(i, Adopted)
    ensures Invariant(DisableStep(s, i, ok), original)
    ensures DisableStep(s, i, ok).Order() == s.Order()
  {
    var u := DisableStep(s, i, ok);
    assert StageFits(s.installers[i]) && RecordFits(s.targets, s.installers[i]);
    DisableOverlays(s, original, i, ok);
    KeepsOneOwner(s, u, i);
    KeepsListed(s, u, i);
    KeepsProgress(s, u, i);
    KeepsStages(s, u, i);
  }

  // Adopting, but for the lists: the hook possibly disabled, and the stage.
  function Handed(s: State, i: nat, ok: bool): State
    requires i < |s.installers|
  {
    Move(if s.RetireStarted() then DisableStep(s, i, ok) else s, i, Adopted)
  }

  lemma AdoptInParts(s: State, i: nat, ok: bool)
    requires i < |s.installers|
    ensures var (h, u) := (Handed(s, i, ok), AdoptStep(s, i, ok));
            && u == h.(inline := u.inline, mids := u.mids, failedLate := u.failedLate)
            && u.inline == (if s.installers[i].req.mid then s.inline else s.inline + [i])
            && u.mids == (if s.installers[i].req.mid then s.mids + [i] else s.mids)
            && u.failedLate == (if s.RetireStarted() && !ok then s.failedLate + {i} else s.failedLate)
            && HooksIn(u) == HooksIn(h) && Only(s, h, i)
  {
    assert HooksIn(AdoptStep(s, i, ok)) == HooksIn(Handed(s, i, ok));
  }

  lemma HandedFits(s: State, i: nat, ok: bool)
    requires Adoptable(s, i) && StageFits(s.installers[i]) && RecordFits(s.targets, s.installers[i])
    ensures var h := Handed(s, i, ok);
            Only(s, h, i) && h.targets == s.targets && h.installers[i].stage == Adopted
            && StageFits(h.installers[i]) && RecordFits(h.targets, h.installers[i])
  {
  }

  lemma HandedOverlays(s: State, original: Memory, i: nat, ok: bool)
    requires Overlaid(HooksIn(s), s.code, original) && i < |s.installers|
    ensures var h := Handed(s, i, ok); Overlaid(HooksIn(h), h.code, original)
  {
    var h := Handed(s, i, ok);
    DisableOverlays(s, original, i, ok);
    assert HooksIn(h) == if s.RetireStarted() then HooksIn(DisableStep(s, i, ok)) else HooksIn(s);
  }

  lemma HandedKeeps(s: State, i: nat, ok: bool)
    requires OneOwner(s) && Adoptable(s, i) && forall j :: 0 <= j < |s.installers| ==> StageFits(s.installers[j])
    ensures var h := Handed(s, i, ok);
            OneOwner(h) && forall j :: 0 <= j < |h.installers| ==> StageFits(h.installers[j])
  {
    var h := Handed(s, i, ok);
    assert StageFits(s.installers[i]) && RecordFits(s.targets, s.installers[i]);
    HandedFits(s, i, ok);
    KeepsOneOwner(s, h, i);
    KeepsStages(s, h, i);
  }

  lemma AdoptedListed(s: State, i: nat, ok: bool)
    requires Listed(s) && i < |s.installers|
    ensures Listed(AdoptStep(s, i, ok))
  {
    var u := AdoptStep(s, i, ok);
    AdoptInParts(s, i, ok);
    assert forall j :: s.At(j, Adopted) || j == i ==> u.At(j, Adopted);
    forall k | 0 <= k < |u.Order()|
      ensures u.At(u.Order()[k], Adopted)
    {
      var p := if k < |s.inline| || s.installers[i].req.mid then k else k - 1;
      assert u.Order()[k] == i || (p < |s.Order()| && u.Order()[k] == s.Order()[p]);
    }
    forall j | 0 <= j < |u.installers| && u.installers[j].stage == Adopted
      ensures j in u.Order()
    {
      assert j != i ==> j in s.Order();
      assert j in s.Order() ==> j in s.inline || j in s.mids;
      assert j in u.inline || j in u.mids;
    }
  }

  lemma AdoptedProgress(s: State, i: nat, ok: bool)
    requires Progress(s) && Adoptable(s, i) && s.installers[i].hook.Active()
    ensures Progress(AdoptStep(s, i, ok))
  {
    var u := AdoptStep(s, i, ok);
    AdoptInParts(s, i, ok);
    if s.RetireStarted() && LateOnly(s) {
      assert u.installers[i].hook.Active() ==> i in u.failedLate;
      assert forall j :: 0 <= j < |s.installers| && j != i ==> u.installers[j] == s.installers[j];
      assert LateOnly(u);
    }
  }

  lemma AdoptKeeps(s: State, original: Memory, i: nat, ok: bool)
    requires Invariant(s, original) && Adoptable(s, i)
    ensures Invariant(AdoptStep(s, i, ok), original)
  {
    assert StageFits(s.installers[i]);
    HandedOverlays(s, original, i, ok);
    HandedKeeps(s, i, ok);
    AdoptInParts(s, i, ok);
    AdoptedListed(s, i, ok);
    AdoptedProgress(s, i, ok);
    OneOwnerIgnoresLists(Handed(s, i, ok), AdoptStep(s, i, ok));
  }

  lemma OneOwnerIgnoresLists(h: State, u: State)
    requires OneOwner(h) && u.installers == h.installers && u.targets == h.targets
    ensures OneOwner(u)
  {
    assert forall i :: u.InFlight(i) <==> h.InFlight(i);
  }

  // The walk moves on over a position that is quiet, or gives up its verdict.
  lemma WalkMovesOn(t: State, original: Memory, k: nat, ok: bool)
    requires Invariant(t, original) && t.Locked() && t.shutdown.next == k < |t.Order()|
    requires ok ==> t.shutdown.ok && t.Quiet(t.Order()[k])
    ensures Invariant(t.(shutdown := Retiring(k + 1, ok)), original)
  {
    var u := t.(shutdown := Retiring(k + 1, ok));
    ShutdownOnly(t, u);
    WalkProgress(t, u, k, ok);
  }

  lemma WalkProgress(t: State, u: State, k: nat, ok: bool)
    requires Progress(t) && t.shutdown.Retiring? && t.shutdown.next == k < |t.Order()|
    requires ok ==> t.shutdown.ok && t.Quiet(t.Order()[k])
    requires u.shutdown == Retiring(k + 1, ok) && u.failedLate == t.failedLate && u.Order() == t.Order()
    requires forall i :: u.Quiet(i) <==> t.Quiet(i)
    ensures Progress(u)
  {
    if ok {
      forall p | 0 <= p < k + 1
        ensures u.Quiet(u.Order()[p])
      {
        assert t.Quiet(t.Order()[p]);
      }
    }
  }

  lemma DisabledIsQuiet(s: State, i: nat, ok: bool)
    requires i < |s.installers|
    ensures DisableStep(s, i, ok).Quiet(i) <==> ok || s.Quiet(i)
  {
  }

  lemma RetireNextIs(s: State, ok: bool)
    requires s.Locked() && s.shutdown.next < |s.Order()| && s.Order()[s.shutdown.next] < |s.installers|
    ensures var (k, i) := (s.shutdown.next, s.Order()[s.shutdown.next]);
            RetireNextStep(s, ok) == DisableStep(s, i, ok).(shutdown := Retiring(k + 1, s.shutdown.ok && (ok || s.Quiet(i))))
  {
  }

  // After the hook at the walk's position is disabled, the walk may move on.
  lemma MayMoveOn(s: State, k: nat, i: nat, ok: bool)
    requires s.Locked() && s.shutdown.next == k < |s.Order()| && s.Order()[k] == i < |s.installers|
    ensures var t := DisableStep(s, i, ok);
            && t.shutdown == s.shutdown && t.Order() == s.Order()
            && (s.shutdown.ok && (ok || s.Quiet(i)) ==> t.shutdown.ok && t.Quiet(t.Order()[k]))
  {
    DisabledIsQuiet(s, i, ok);
  }

  lemma RetireNextKeeps(s: State, original: Memory, ok: bool)
    requires Invariant(s, original) && s.Locked()
    ensures Invariant(RetireNextStep(s, ok), original)
  {
    if s.shutdown.next < |s.Order()| {
      WalkIsAtAdopted(s, s.shutdown.next);
      RetireNextAt(s, original, s.shutdown.next, s.Order()[s.shutdown.next], ok);
    } else {
      WalkIsOver(s, ok);
    }
  }

  lemma WalkIsAtAdopted(s: State, k: nat)
    requires Listed(s) && k < |s.Order()|
    ensures s.At(s.Order()[k], Adopted)
  {
  }

  lemma WalkIsOver(s: State, ok: bool)
    requires s.Locked() && s.shutdown.next >= |s.Order()|
    ensures RetireNextStep(s, ok) == s
  {
  }

  lemma RetireNextAt(s: State, original: Memory, k: nat, i: nat, ok: bool)
    requires Invariant(s, original) && s.Locked() && s.shutdown.next == k < |s.Order()|
    requires s.Order()[k] == i && s.At(i, Adopted)
    ensures Invariant(RetireNextStep(s, ok), original)
  {
    DisableKeeps(s, original, i, ok);
    RetireNextMoves(s, original, k, i, ok, DisableStep(s, i, ok));
  }

  lemma RetireNextMoves(s: State, original: Memory, k: nat, i: nat, ok: bool, t: State)
    requires s.Locked() && s.shutdown.next == k < |s.Order()| && s.Order()[k] == i < |s.installers|
    requires t == DisableStep(s, i, ok) && Invariant(t, original)
    ensures Invariant(RetireNextStep(s, ok), original)
  {
    MayMoveOn(s, k, i, ok);
    WalkMovesOn(t, original, k, s.shutdown.ok && (ok || s.Quiet(i)));
    RetireNextIs(s, ok);
  }

  // Shutdown's own steps touch nothing else.
  lemma ShutdownOnly(s: State, u: State)
    requires u == s.(shutdown := u.shutdown)
    ensures HooksIn(u) == HooksIn(s) && u.Order() == s.Order()
    ensures OneOwner(s) ==> OneOwner(u)
    ensures Listed(s) ==> Listed(u)
    ensures LateOnly(s) ==> LateOnly(u)
    ensures forall i :: u.Quiet(i) <==> s.Quiet(i)
  {
    assert HooksIn(u) == HooksIn(s) && u.Order() == s.Order();
    assert forall i :: u.InFlight(i) <==> s.InFlight(i);
    assert forall i :: u.At(i, Adopted) <==> s.At(i, Adopted);
  }

  lemma AllQuiet(s: State)
    requires Listed(s) && forall p :: 0 <= p < |s.Order()| ==> s.Quiet(s.Order()[p])
    ensures LateOnly(s)
  {
    forall i | 0 <= i < |s.installers| && s.installers[i].stage == Adopted
      ensures !s.installers[i].hook.Active()
    {
      assert i in s.Order();
      var p :| 0 <= p < |s.Order()| && s.Order()[p] == i;
      assert s.Quiet(s.Order()[p]);
    }
  }

  lemma SealKeeps(s: State, original: Memory)
    requires Invariant(s, original) && s.shutdown.Running?
    ensures Invariant(s.(shutdown := Sealed), original)
  {
    ShutdownOnly(s, s.(shutdown := Sealed));
  }

  lemma BeginRetireKeeps(s: State, original: Memory)
    requires Invariant(s, original) && s.shutdown.Sealed?
    ensures Invariant(s.(shutdown := Retiring(0, true)), original)
  {
    ShutdownOnly(s, s.(shutdown := Retiring(0, true)));
  }

  lemma EndRetireKeeps(s: State, original: Memory)
    requires Invariant(s, original) && s.Locked() && s.shutdown.next >= |s.Order()|
    ensures Invariant(s.(shutdown := Retired(s.shutdown.ok)), original)
  {
    if s.shutdown.ok {
      AllQuiet(s);
    }
    ShutdownOnly(s, s.(shutdown := Retired(s.shutdown.ok)));
  }

  lemma QuiesceKeeps(s: State, original: Memory, clear: bool)
    requires Invariant(s, original) && s.shutdown.Retired?
    ensures Invariant(s.(shutdown := if s.shutdown.ok && clear then Unmapped else Dormant), original)
  {
    ShutdownOnly(s, s.(shutdown := if s.shutdown.ok && clear then Unmapped else Dormant));
  }

  lemma CrashKeeps(s: State, original: Memory)
    requires Invariant(s, original)
    ensures Invariant(s.(crashed := true), original)
  {
    var u := s.(crashed := true);
    assert HooksIn(u) == HooksIn(s) && u.Order() == s.Order();
    assert forall i :: u.InFlight(i) <==> s.InFlight(i);
    assert forall i :: u.At(i, Adopted) <==> s.At(i, Adopted);
    assert forall i :: u.Quiet(i) <==> s.Quiet(i);
  }

  lemma RetireOneKeeps(s: State, original: Memory, name: string, ok: bool)
    requires Invariant(s, original)
    ensures Invariant(RetireOneStep(s, name, ok), original)
  {
    var p, q := Position(s, s.inline, name), Position(s, s.mids, name);
    if p < |s.inline| {
      assert s.Order()[p] == s.inline[p];
      DisableKeeps(s, original, s.inline[p], ok);
    } else if q < |s.mids| {
      assert s.Order()[|s.inline| + q] == s.mids[q];
      DisableKeeps(s, original, s.mids[q], ok);
    }
  }

  lemma ShutdownKeeps(s: State, original: Memory, e: Event)
    requires Invariant(s, original) && Enabled(s, e) && (e.Seal? || e.BeginRetire? || e.EndRetire? || e.Quiesce?)
    ensures Invariant(Step(s, e), original)
  {
    match e
    case Seal => SealKeeps(s, original);
    case BeginRetire => BeginRetireKeeps(s, original);
    case EndRetire => EndRetireKeeps(s, original);
    case Quiesce(clear) => QuiesceKeeps(s, original, clear);
  }

  lemma StepKeeps(s: State, e: Event, original: Memory)
    requires Invariant(s, original) && Disciplined(s, e) && Enabled(s, e)
    ensures Invariant(Step(s, e), original)
  {
    match e
    case Check(i) => CheckKeeps(s, original, i);
    case CheckOwner(i) => CheckOwnerKeeps(s, original, i);
    case WriteJump(i, jump) => WriteJumpKeeps(s, original, i, jump);
    case Record(i) => RecordKeeps(s, original, i);
    case Adopt(i, ok) => AdoptKeeps(s, original, i, ok);
    case RetireOne(name, ok) => RetireOneKeeps(s, original, name, ok);
    case RetireNext(ok) => RetireNextKeeps(s, original, ok);
    case _ => ShutdownKeeps(s, original, e);
  }

  lemma NextKeeps(s: State, e: Event, original: Memory)
    requires Invariant(s, original) && Disciplined(s, e)
    ensures Invariant(Next(s, e), original)
  {
    if !s.crashed && Enabled(s, e) {
      if s.shutdown.Unmapped? {
        CrashKeeps(s, original);
      } else {
        StepKeeps(s, e, original);
      }
    }
  }

  lemma {:induction false} RunKeeps(original: Memory, requests: seq<Request>, events: seq<Event>)
    requires DisciplinedRun(Start(original, requests), events)
    ensures Invariant(Run(Start(original, requests), events), original)
  {
    if events == [] {
      StartInvariant(original, requests);
    } else {
      RunKeeps(original, requests, events[..|events| - 1]);
      NextKeeps(Run(Start(original, requests), events[..|events| - 1]), events[|events| - 1], original);
    }
  }

  // ---- what unmapping takes ------------------------------------------------------------------------

  // The walk comes to an active hook and the system refuses to disable it.
  predicate Refusal(s: State, e: Event) {
    && e == RetireNext(false) && s.Locked() && s.shutdown.next < |s.Order()|
    && var i := s.Order()[s.shutdown.next]; i < |s.installers| && s.installers[i].hook.Active()
  }

  // No step of the walk has been refused.
  ghost predicate WalkAccepted(s: State, events: seq<Event>) {
    events == [] || (WalkAccepted(s, events[..|events| - 1]) && !Refusal(Run(s, events[..|events| - 1]), events[|events| - 1]))
  }

  // At event k, with retirement over and no step of it refused, the scan over the other threads answers
  // that they are clear.
  ghost predicate CleanVerdict(s: State, events: seq<Event>, k: nat)
    requires k < |events|
  {
    events[k] == Quiesce(true) && Run(s, events[..k]).shutdown.Retired? && WalkAccepted(s, events[..k])
  }

  lemma CleanVerdictLast(s: State, events: seq<Event>, k: nat)
    requires k < |events| - 1
    ensures CleanVerdict(s, events, k) <==> CleanVerdict(s, events[..|events| - 1], k)
  {
    assert events[..|events| - 1][..k] == events[..k];
  }

  // The walk's verdict so far says whether every step was accepted.
  predicate Judged(s: State, accepted: bool) {
    && (s.crashed ==> s.shutdown.Unmapped?)
    && (!s.RetireStarted() ==> accepted)
    && (s.shutdown.Retiring? || s.shutdown.Retired? ==> s.shutdown.ok == accepted)
  }

  lemma JudgedNext(s: State, e: Event, accepted: bool)
    requires Judged(s, accepted)
    ensures Judged(Next(s, e), accepted && !Refusal(s, e))
    ensures Next(s, e).shutdown.Unmapped? <==> s.shutdown.Unmapped? || (e == Quiesce(true) && s.shutdown.Retired? && accepted)
  {
  }

  lemma {:induction false} JudgedRun(code: Memory, requests: seq<Request>, events: seq<Event>)
    ensures Judged(Run(Start(code, requests), events), WalkAccepted(Start(code, requests), events))
  {
    if events != [] {
      JudgedRun(code, requests, events[..|events| - 1]);
      JudgedNext(Run(Start(code, requests), events[..|events| - 1]), events[|events| - 1],
                 WalkAccepted(Start(code, requests), events[..|events| - 1]));
    }
  }

  // That happened at one of the first n events.
  ghost predicate AnsweredClear(s: State, events: seq<Event>, n: nat)
    requires n <= |events|
  {
    exists k :: 0 <= k < n && CleanVerdict(s, events, k)
  }

  lemma AnsweredBefore(s: State, events: seq<Event>)
    requires events != []
    ensures AnsweredClear(s, events, |events| - 1) <==> AnsweredClear(s, events[..|events| - 1], |events| - 1)
  {
    var front, n := events[..|events| - 1], |events| - 1;
    forall k | 0 <= k < n
      ensures CleanVerdict(s, events, k) <==> CleanVerdict(s, front, k)
    {
      CleanVerdictLast(s, events, k);
    }
  }

  lemma AnsweredNow(s: State, events: seq<Event>)
    requires events != []
    ensures var (front, e) := (events[..|events| - 1], events[|events| - 1]);
            AnsweredClear(s, events, |events|) <==>
              AnsweredClear(s, events, |events| - 1) || (e == Quiesce(true) && Run(s, front).shutdown.Retired? && WalkAccepted(s, front))
  {
    var n := |events| - 1;
    if AnsweredClear(s, events, |events|) && !CleanVerdict(s, events, n) {
      var k :| 0 <= k < |events| && CleanVerdict(s, events, k);
      assert k != n;
    }
    if CleanVerdict(s, events, n) {
      assert AnsweredClear(s, events, |events|);
    }
  }

  /** Over every run whatever, the module is unmapped exactly if at some event the scan answered
      that the other threads are clear, after a retirement in which no active hook was refused. */
  lemma {:induction false} UnmapsExactly(code: Memory, requests: seq<Request>, events: seq<Event>)
    ensures Run(Start(code, requests), events).shutdown.Unmapped? <==> AnsweredClear(Start(code, requests), events, |events|)
  {
    if events != [] {
      UnmapsExactly(code, requests, events[..|events| - 1]);
      JudgedRun(code, requests, events[..|events| - 1]);
      AnsweredBefore(Start(code, requests), events);
      AnsweredNow(Start(code, requests), events);
      JudgedNext(Run(Start(code, requests), events[..|events| - 1]), events[|events| - 1],
                 WalkAccepted(Start(code, requests), events[..|events| - 1]));
    }
  }

  /** So it is never unmapped without that answer. */
  lemma NeverUnmapsUnasked(code: Memory, requests: seq<Request>, events: seq<Event>)
    requires Quiesce(true) !in events
    ensures !Run(Start(code, requests), events).shutdown.Unmapped?
  {
    UnmapsExactly(code, requests, events);
    forall k | 0 <= k < |events|
      ensures !CleanVerdict(Start(code, requests), events, k)
    {
      assert events[k] in events;
    }
  }

  lemma SettledNext(s: State, e: Event)
    requires s.shutdown.Unmapped? || s.shutdown.Dormant?
    ensures Next(s, e).shutdown == s.shutdown
  {
  }

  /** Once the scan has answered it is decided for good: the module is unmapped if all hooks were retired
      and the threads are clear, and otherwise stays mapped whatever happens later. */
  lemma {:induction false} VerdictIsFinal(s: State, clear: bool, later: seq<Event>)
    requires s.shutdown.Retired? && !s.crashed
    ensures Run(s, [Quiesce(clear)] + later).shutdown == if s.shutdown.ok && clear then Unmapped else Dormant
    decreases |later|
  {
    if later == [] {
      RunNext(s, [], Quiesce(clear));
      assert [] + [Quiesce(clear)] == [Quiesce(clear)] + later;
    } else {
      var front, e := later[..|later| - 1], later[|later| - 1];
      VerdictIsFinal(s, clear, front);
      RunNext(s, [Quiesce(clear)] + front, e);
      assert [Quiesce(clear)] + front + [e] == [Quiesce(clear)] + later;
      SettledNext(Run(s, [Quiesce(clear)] + front), e);
    }
  }

  // ---- safety over whole runs ------------------------------------------------------------------

  // Nothing is left that could still point into the module.
  ghost predicate NothingLoose(s: State) {
    && (forall i :: 0 <= i < |s.installers| ==> s.installers[i].stage != Patched && s.installers[i].stage != Recorded)
    && (forall i :: i in s.failedLate ==> i < |s.installers| && !s.installers[i].hook.Active())
  }

  // Any hook still active is loose in that sense.
  lemma LooseIsActive(s: State, original: Memory)
    requires Invariant(s, original) && s.shutdown.Unmapped?
    ensures NothingLoose(s) <==> NoneActive(HooksIn(s))
  {
    forall i | 0 <= i < |s.installers|
      ensures HooksIn(s)[i].Active() ==> s.installers[i].stage == Patched || s.installers[i].stage == Recorded || i in s.failedLate
      ensures s.installers[i].stage == Patched || s.installers[i].stage == Recorded ==> HooksIn(s)[i].Active()
    {
      assert StageFits(s.installers[i]);
    }
    forall i | i in s.failedLate
      ensures i < |s.installers| && HooksIn(s)[i] == s.installers[i].hook
    {
      assert s.At(i, Adopted);
    }
  }

  /** In an unmapped module's process, every byte of code memory is the original one exactly
      if no installer is between its patch and its adoption and no late disable failed and
      stayed failed. */
  lemma OriginalWhenUnmapped(s: State, original: Memory)
    requires Invariant(s, original) && s.shutdown.Unmapped?
    ensures s.code == original <==> NothingLoose(s)
  {
    LooseIsActive(s, original);
    forall i | 0 <= i < |HooksIn(s)|
      ensures Changes(HooksIn(s)[i])
    {
      assert StageFits(s.installers[i]);
    }
    RestoredExactly(HooksIn(s), s.code, original);
  }

  // From here on no thread faults and no code byte differs from the original, whatever happens.
  ghost predicate SafeFrom(s: State, original: Memory) {
    forall later :: !Run(s, later).crashed && Run(s, later).code == original
  }

  ghost predicate NobodyInFlight(s: State) {
    forall i :: 0 <= i < |s.installers| ==> !s.InFlight(i)
  }

  // Without installers in flight the unmapped module is never entered again.
  lemma {:induction false} UnmappedRests(s: State, later: seq<Event>)
    requires s.shutdown.Unmapped? && NobodyInFlight(s)
    ensures Run(s, later) == s
  {
    if later != [] {
      UnmappedRests(s, later[..|later| - 1]);
      RestsAt(s, later[|later| - 1]);
    }
  }

  lemma RestsAt(s: State, e: Event)
    requires s.shutdown.Unmapped? && NobodyInFlight(s)
    ensures Next(s, e) == s
  {
    if e.CheckOwner? || e.WriteJump? || e.Record? || e.Adopt? {
      assert e.i < |s.installers| ==> !s.InFlight(e.i);
    }
  }

  // The next step of an installer in flight.
  function Onward(s: State, i: nat): Event
    requires i < |s.installers|
  {
    var x := s.installers[i];
    match x.stage
    case Checked => CheckOwner(i)
    case Cleared => WriteJump(i, [])
    case Patched => if x.req.mid then Adopt(i, true) else Record(i)
    case _ => Adopt(i, true)
  }

  /** An installer in flight when the module goes faults as soon as it takes another step. */
  lemma InFlightFaults(s: State, i: nat)
    requires s.shutdown.Unmapped? && s.InFlight(i)
    ensures Run(s, [Onward(s, i)]).crashed
  {
    RunNext(s, [], Onward(s, i));
    assert [] + [Onward(s, i)] == [Onward(s, i)];
  }

  // A crash has an installer in flight in it.
  lemma {:induction false} CrashedInFlight(original: Memory, requests: seq<Request>, events: seq<Event>)
    ensures var s := Run(Start(original, requests), events); s.crashed ==> !NobodyInFlight(s)
  {
    if events != [] {
      CrashedInFlight(original, requests, events[..|events| - 1]);
      CrashStep(Run(Start(original, requests), events[..|events| - 1]), events[|events| - 1]);
    }
  }

  lemma CrashStep(s: State, e: Event)
    requires s.crashed ==> !NobodyInFlight(s)
    ensures Next(s, e).crashed ==> !NobodyInFlight(Next(s, e))
  {
    var u := Next(s, e);
    if !s.crashed && u.crashed {
      assert Enabled(s, e) && s.shutdown.Unmapped?;
      assert e.CheckOwner? || e.WriteJump? || e.Record? || e.Adopt?;
      assert u.InFlight(e.i);
    } else if s.crashed {
      assert u == s;
    } else {
      StepNeverCrashes(s, e);
    }
  }

  lemma StepNeverCrashes(s: State, e: Event)
    requires !s.crashed && (Enabled(s, e) ==> !s.shutdown.Unmapped?)
    ensures !Next(s, e).crashed
  {
  }

  /** Over every disciplined interleaving, unmapping is safe for good exactly if at that
      moment no installer is anywhere between its sealed check and the end of its adoption,
      and no late disable failed and stayed failed. */
  lemma UnmapExactlySafe(original: Memory, requests: seq<Request>, events: seq<Event>)
    requires DisciplinedRun(Start(original, requests), events)
    requires Run(Start(original, requests), events).shutdown.Unmapped?
    ensures var s := Run(Start(original, requests), events);
            SafeFrom(s, original) <==> NothingLoose(s) && NobodyInFlight(s)
  {
    var s := Run(Start(original, requests), events);
    RunKeeps(original, requests, events);
    OriginalWhenUnmapped(s, original);
    if SafeFrom(s, original) {
      assert Run(s, []) == s;
      forall i | 0 <= i < |s.installers|
        ensures !s.InFlight(i)
      {
        if s.InFlight(i) {
          InFlightFaults(s, i);
        }
      }
    }
    if NothingLoose(s) && NobodyInFlight(s) {
      CrashedInFlight(original, requests, events);
      forall later
        ensures !Run(s, later).crashed && Run(s, later).code == original
      {
        UnmappedRests(s, later);
      }
    }
  }

  lemma InFlightStep(s: State, e: Event, i: nat)
    requires s.IsSealed() && Next(s, e).InFlight(i)
    ensures s.InFlight(i)
  {
  }

  /** Once the registry is sealed it stays so, and the installers in flight only become
      fewer, whatever happens. */
  lemma {:induction false} InFlightShrinks(s: State, events: seq<Event>)
    requires s.IsSealed()
    ensures Run(s, events).IsSealed() && forall i: nat :: Run(s, events).InFlight(i) ==> s.InFlight(i)
  {
    if events != [] {
      var t, e := Run(s, events[..|events| - 1]), events[|events| - 1];
      InFlightShrinks(s, events[..|events| - 1]);
      SealStep(t, e);
      forall i: nat | Next(t, e).InFlight(i)
        ensures s.InFlight(i)
      {
        InFlightStep(t, e, i);
      }
    }
  }

  lemma SealStep(s: State, e: Event)
    requires s.IsSealed()
    ensures Next(s, e).IsSealed()
    ensures s.RetireStarted() ==> Next(s, e).RetireStarted()
  {
  }

  // Installer i, if adopted, is disabled, or its late disable has failed.
  predicate Handled(s: State, i: nat) {
    s.At(i, Adopted) ==> s.Quiet(i) || i in s.failedLate
  }

  // One step after retirement has begun.
  lemma HandledStep(s: State, e: Event, i: nat)
    requires s.RetireStarted() && Handled(s, i)
    ensures Handled(Next(s, e), i)
    ensures s.At(i, Adopted) ==> Next(s, e).At(i, Adopted) && (s.Quiet(i) ==> Next(s, e).Quiet(i))
    ensures !s.At(i, Adopted) && Next(s, e).At(i, Adopted) && e != Adopt(i, false) ==> Next(s, e).Quiet(i)
  {
  }

  /** Over any run after retirement has begun, disciplined or not: an installer adopted in it
      ends up disabled, or its disable was refused and is on record as failed; without such a
      refusal it is disabled. */
  lemma {:induction false} LateAdoptionDisables(s: State, later: seq<Event>, i: nat)
    requires s.RetireStarted() && !s.At(i, Adopted)
    ensures var u := Run(s, later);
            && u.RetireStarted() && Handled(u, i)
            && (Adopt(i, false) !in later && u.At(i, Adopted) ==> u.Quiet(i))
  {
    if later != [] {
      var front, e := later[..|later| - 1], later[|later| - 1];
      LateAdoptionDisables(s, front, i);
      SealStep(Run(s, front), e);
      HandledStep(Run(s, front), e, i);
      assert later == front + [e];
    }
  }

  lemma RunNext(s: State, events: seq<Event>, e: Event)
    ensures Run(s, events + [e]) == Next(Run(s, events), e)
    ensures DisciplinedRun(s, events + [e]) <==> DisciplinedRun(s, events) && Disciplined(Run(s, events), e)
  {
    assert (events + [e])[..|events|] == events;
  }
}
