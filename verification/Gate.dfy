/** The bootstrap gate: engine threads stop at a hardware breakpoint on the entry point
    until the supervisor, having taken its position, lets them through. Supervisor and
    threads interleave freely; each loop iteration on an atomic flag is one step. */
module Gate {

  const GATE_POLLS := 30000
  const DECRYPT_POLLS := 4000000
  const MODULE_POLLS := 60000

  type Register = n: int | 0 <= n < 0x1_0000_0000

  // Where the supervisor stands.
  datatype Supervisor =
    | Install
    | PollGate(i: nat)               // armed: waiting for a thread to park
    | PollDecrypt(i: nat)            // not armed: waiting for plaintext
    | RegisterNotification
    | Release
    | WaitModule(i: nat)             // waiting for gameclient.dll
    | Initialise

  datatype Place = Before | Parked | Through

  // An engine thread: where it is relative to the gate, and its debug registers.
  datatype Thread = Thread(place: Place, dr0: Register, dr7: Register)

  datatype State = State(supervisor: Supervisor, gated: bool, hit: bool, release: bool, loaded: bool,
                         gateAddress: Register, threads: seq<Thread>)

  // What may happen next. A supervisor step carries what the system tells it: which threads
  // could be armed, and whether the image looks decrypted or the module is present.
  datatype Event =
    | Supervise(armable: set<nat>, observed: bool)
    | Reach(t: nat)                  // a thread is about to execute the entry point
    | Poll(t: nat)                   // a parked thread looks at the release flag
    | ModuleLoaded                   // the loader's notification

  // Bit 0 of DR7 enables slot 0; bits 16 to 19 hold its condition and length.
  function SetBit0(d: Register): Register {
    d - d % 2 + 1
  }

  function ClearBit0(d: Register): Register {
    d - d % 2
  }

  function ClearCondition(d: Register): Register {
    d / 0x10_0000 * 0x10_0000 + d % 0x1_0000
  }

  function Armed(r: Thread, address: Register): Thread {
    r.(dr0 := address, dr7 := SetBit0(ClearCondition(r.dr7)))
  }

  function Disarmed(r: Thread): Thread {
    r.(place := Through, dr0 := 0, dr7 := ClearBit0(r.dr7))
  }

  predicate HasBreakpoint(r: Thread, address: Register) {
    r.dr7 % 2 == 1 && r.dr0 == address
  }

  // The threads that can be armed.
  function Within(armable: set<nat>, n: nat): (armed: set<nat>)
    ensures forall t :: t in armed <==> t in armable && t < n
  {
    set t | t in armable && t < n
  }

  // Installing arms every thread it can; arming none means no gate.
  function InstallGate(s: State, armable: set<nat>): State {
    var armed := Within(armable, |s.threads|);
    if armed == {} then s.(supervisor := PollDecrypt(0), gated := false)
    else s.(supervisor := PollGate(0), gated := true,
            threads := seq(|s.threads|, t requires 0 <= t < |s.threads| =>
              if t in armed then Armed(s.threads[t], s.gateAddress) else s.threads[t]))
  }

  function SuperviseStep(s: State, armable: set<nat>, observed: bool): State {
    match s.supervisor
    case Install => InstallGate(s, armable)
    case PollGate(i) => s.(supervisor := if i < GATE_POLLS && !s.hit then PollGate(i + 1) else RegisterNotification)
    case PollDecrypt(i) => s.(supervisor := if i < DECRYPT_POLLS && !observed then PollDecrypt(i + 1) else RegisterNotification)
    case RegisterNotification => s.(supervisor := Release, loaded := s.loaded || observed)
    case Release => s.(supervisor := WaitModule(0), release := s.release || s.gated)
    case WaitModule(i) => s.(supervisor := if i < MODULE_POLLS && !s.loaded && !observed then WaitModule(i + 1) else Initialise)
    case Initialise => s
  }

  function Next(s: State, e: Event): State {
    match e
    case Supervise(armable, observed) => SuperviseStep(s, armable, observed)
    case Reach(t) =>
      if t >= |s.threads| || s.threads[t].place != Before then s
      else if HasBreakpoint(s.threads[t], s.gateAddress) then s.(hit := true, threads := s.threads[t := s.threads[t].(place := Parked)])
      else s.(threads := s.threads[t := s.threads[t].(place := Through)])
    case Poll(t) =>
      if t >= |s.threads| || s.threads[t].place != Parked || !s.release then s
      else s.(threads := s.threads[t := Disarmed(s.threads[t])])
    case ModuleLoaded => s.(loaded := true)
  }

  function Run(s: State, events: seq<Event>): State
    decreases |events|
  {
    if events == [] then s else Run(Next(s, events[0]), events[1..])
  }

  // The supervisor starts while every engine thread is still short of the entry point and
  // no thread carries a breakpoint there.
  ghost predicate Initial(s: State) {
    && s.supervisor == Install && !s.gated && !s.hit && !s.release
    && forall t :: 0 <= t < |s.threads| ==>
         s.threads[t].place == Before && (s.threads[t].dr7 % 2 == 0 || s.threads[t].dr0 != s.gateAddress)
  }

  function Supervised(events: seq<Event>): nat {
    if events == [] then 0 else (if events[0].Supervise? then 1 else 0) + Supervised(events[1..])
  }

  // ---- every reachable state --------------------------------------------------------

  // Past the release step.
  predicate Past(p: Supervisor) {
    p.WaitModule? || p.Initialise?
  }

  ghost predicate Invariant(s: State) {
    && (s.supervisor.Install? ==> !s.gated)
    && (s.supervisor.PollGate? ==> s.gated)
    && (s.supervisor.PollDecrypt? ==> !s.gated)
    && (s.release <==> s.gated && Past(s.supervisor))
    && (s.hit ==> s.gated)
    && (!s.gated ==> forall t :: 0 <= t < |s.threads| ==> s.threads[t].place != Parked && !HasBreakpoint(s.threads[t], s.gateAddress))
  }

  lemma NextKeepsInvariant(s: State, e: Event)
    requires Invariant(s)
    ensures Invariant(Next(s, e))
    ensures s.release ==> Next(s, e).release
    ensures |Next(s, e).threads| == |s.threads| && Next(s, e).gateAddress == s.gateAddress
    ensures !s.supervisor.Install? ==> Next(s, e).gated == s.gated && !Next(s, e).supervisor.Install?
  {
  }

  /** In every reachable state: the supervisor never waits for the module while an armed
      gate is unreleased, and no thread is ever parked without an armed gate. Release, once
      set, stays set. */
  lemma {:induction false} RunKeepsInvariant(s: State, events: seq<Event>)
    requires Invariant(s)
    ensures Invariant(Run(s, events))
    ensures s.release ==> Run(s, events).release
    ensures |Run(s, events).threads| == |s.threads|
    ensures !s.supervisor.Install? || Supervised(events) > 0 ==> !Run(s, events).supervisor.Install?
    decreases |events|
  {
    if events != [] {
      NextKeepsInvariant(s, events[0]);
      RunKeepsInvariant(Next(s, events[0]), events[1..]);
    }
  }

  lemma ReachableNeverDeadlocks(s: State, events: seq<Event>)
    requires Initial(s)
    ensures var r := Run(s, events);
            && (r.release <==> r.gated && (r.supervisor.WaitModule? || r.supervisor.Initialise?))
            && (forall t :: 0 <= t < |r.threads| && r.threads[t].place == Parked ==> r.gated)
  {
    RunKeepsInvariant(s, events);
  }

  // ---- release comes after a bounded number of supervisor steps -------------------------

  // Supervisor steps still needed before an armed gate is released.
  function Remaining(p: Supervisor): nat {
    match p
    case Install => GATE_POLLS + 4
    case PollGate(i) => if i < GATE_POLLS then GATE_POLLS - i + 3 else 3
    case PollDecrypt(_) => 0
    case RegisterNotification => 2
    case Release => 1
    case WaitModule(_) => 0
    case Initialise => 0
  }

  lemma {:induction false} ReleasedInTime(s: State, events: seq<Event>)
    requires Invariant(s) && Supervised(events) >= Remaining(s.supervisor)
    ensures var r := Run(s, events); r.gated ==> r.release
    decreases |events|
  {
    if !s.gated && !s.supervisor.Install? {
      UngatedStays(s, events);
    } else if events != [] {
      var n := Next(s, events[0]);
      NextKeepsInvariant(s, events[0]);
      if n.gated {
        assert Remaining(n.supervisor) + (if events[0].Supervise? then 1 else 0) <= Remaining(s.supervisor) || n.release;
      }
      if n.release {
        RunKeepsInvariant(n, events[1..]);
      } else if n.gated || n.supervisor.Install? {
        ReleasedInTime(n, events[1..]);
      } else {
        UngatedStays(n, events[1..]);
      }
    }
  }

  lemma {:induction false} UngatedStays(s: State, events: seq<Event>)
    requires Invariant(s) && !s.gated && !s.supervisor.Install?
    ensures !Run(s, events).gated
    decreases |events|
  {
    if events != [] {
      NextKeepsInvariant(s, events[0]);
      UngatedStays(Next(s, events[0]), events[1..]);
    }
  }

  /** Whatever the interleaving, once the supervisor has taken 30004 steps an armed gate is
      released. */
  lemma GateIsReleased(s: State, events: seq<Event>)
    requires Initial(s) && Supervised(events) >= GATE_POLLS + 4
    ensures Run(s, events).gated ==> Run(s, events).release
  {
    ReleasedInTime(s, events);
  }

  // ---- a parked thread leaves ---------------------------------------------------------------

  lemma {:induction false} RunConcat(s: State, a: seq<Event>, b: seq<Event>)
    ensures Run(s, a + b) == Run(Run(s, a), b)
    decreases |a|
  {
    if a == [] {
      assert a + b == b;
    } else {
      assert (a + b)[1..] == a[1..] + b;
      RunConcat(Next(s, a[0]), a[1..], b);
    }
  }

  lemma {:induction false} ThroughStays(s: State, t: nat, events: seq<Event>)
    requires t < |s.threads| && s.threads[t].place == Through && !s.supervisor.Install? && Invariant(s)
    ensures t < |Run(s, events).threads| && Run(s, events).threads[t] == s.threads[t]
    decreases |events|
  {
    if events != [] {
      NextKeepsInvariant(s, events[0]);
      ThroughStays(Next(s, events[0]), t, events[1..]);
    }
  }

  /** Fair scheduling frees every parked thread: if the supervisor gets its 30004 steps and
      the thread is scheduled after that, then whatever else happens before, between and
      afterwards, the thread has left the gate with exactly its own breakpoint cleared. */
  lemma ParkedThreadLeaves(s: State, before: seq<Event>, t: nat, after: seq<Event>)
    requires Initial(s) && Supervised(before) >= GATE_POLLS + 4
    requires t < |s.threads| && |Run(s, before).threads| == |s.threads| && Run(s, before).threads[t].place == Parked
    ensures var parked, r := Run(s, before).threads[t], Run(s, before + [Poll(t)] + after);
            && |r.threads| == |s.threads| && r.threads[t].place == Through
            && r.threads[t].dr0 == 0 && r.threads[t].dr7 == parked.dr7 - parked.dr7 % 2
  {
    var p := Run(s, before);
    RunKeepsInvariant(s, before);
    GateIsReleased(s, before);
    RunThrough(s, before, Poll(t), after);
    FreedForGood(p, t, after);
  }

  lemma RunThrough(s: State, before: seq<Event>, e: Event, after: seq<Event>)
    ensures Run(s, before + [e] + after) == Run(Next(Run(s, before), e), after)
  {
    RunConcat(s, before + [e], after);
    RunConcat(s, before, [e]);
    var one := [e];
    assert one[1..] == [] && Run(Run(s, before), one) == Run(Next(Run(s, before), e), one[1..]);
  }

  lemma FreedForGood(p: State, t: nat, after: seq<Event>)
    requires Invariant(p) && p.release && !p.supervisor.Install? && t < |p.threads| && p.threads[t].place == Parked
    ensures var (parked, r) := (p.threads[t], Run(Next(p, Poll(t)), after));
            && |r.threads| == |p.threads| && r.threads[t].place == Through
            && r.threads[t].dr0 == 0 && r.threads[t].dr7 == parked.dr7 - parked.dr7 % 2
  {
    var q := Next(p, Poll(t));
    NextKeepsInvariant(p, Poll(t));
    RunKeepsInvariant(q, after);
    ThroughStays(q, t, after);
  }

  /** After installation nothing but its own passage changes a thread: over any run in which it
      neither reaches the gate nor polls there, its place and debug registers stay. */
  lemma {:induction false} OnlyOwnRegisters(s: State, events: seq<Event>, t: nat)
    requires !s.supervisor.Install? && t < |s.threads| && Reach(t) !in events && Poll(t) !in events
    ensures var r := Run(s, events); |r.threads| == |s.threads| && r.threads[t] == s.threads[t]
    decreases |events|
  {
    if events != [] {
      assert events[0] in events;
      OthersStep(s, events[0], t);
      OnlyOwnRegisters(Next(s, events[0]), events[1..], t);
    }
  }

  lemma OthersStep(s: State, e: Event, t: nat)
    requires !s.supervisor.Install? && t < |s.threads| && e != Reach(t) && e != Poll(t)
    ensures var u := Next(s, e); !u.supervisor.Install? && |u.threads| == |s.threads| && u.threads[t] == s.threads[t]
  {
  }

  // ---- a thread's whole life ------------------------------------------------------------------

  lemma RunOne(s: State, e: Event)
    ensures Run(s, [e]) == Next(s, e)
  {
    var one := [e];
    assert one[1..] == [];
  }

  lemma RunLast(s: State, events: seq<Event>)
    requires events != []
    ensures Run(s, events) == Next(Run(s, events[..|events| - 1]), events[|events| - 1])
  {
    var front, e := events[..|events| - 1], events[|events| - 1];
    assert events == front + [e];
    RunConcat(s, front, [e]);
    RunOne(Run(s, front), e);
  }

  // The supervisor's first step, which installs the gate.
  function Installation(events: seq<Event>): (i: nat)
    ensures i <= |events| && (i < |events| ==> events[i].Supervise?)
    ensures forall j :: 0 <= j < i ==> !events[j].Supervise?
  {
    if events == [] || events[0].Supervise? then 0 else 1 + Installation(events[1..])
  }

  // That step could arm the thread.
  predicate ArmedBy(events: seq<Event>, t: nat) {
    var i := Installation(events);
    i < |events| && t in events[i].armable
  }

  // Armed while short of the entry point, and come to it since.
  predicate Caught(events: seq<Event>, t: nat) {
    ArmedBy(events, t) && Reach(t) !in events[..Installation(events)] && Reach(t) in events
  }

  // The caught thread looked at the release flag when it was set.
  ghost predicate LetGo(s: State, events: seq<Event>, t: nat) {
    exists k :: 0 <= k < |events| && LetGoAt(s, events, t, k)
  }

  ghost predicate LetGoAt(s: State, events: seq<Event>, t: nat, k: nat)
    requires k < |events|
  {
    events[k] == Poll(t) && Run(s, events[..k]).release && Caught(events[..k], t)
  }

  // What the order of events makes of thread t.
  ghost function Fate(s: State, events: seq<Event>, t: nat): Thread
    requires t < |s.threads|
  {
    var orig := s.threads[t];
    var now := if ArmedBy(events, t) then Armed(orig, s.gateAddress) else orig;
    if Reach(t) !in events then now
    else if !Caught(events, t) then now.(place := Through)
    else if LetGo(s, events, t) then Disarmed(now)
    else now.(place := Parked)
  }

  lemma InstallationLast(events: seq<Event>)
    requires events != []
    ensures var (front, n) := (events[..|events| - 1], |events| - 1);
            Installation(events) == if Installation(front) < n || events[n].Supervise? then Installation(front) else n + 1
  {
    var front := events[..|events| - 1];
    assert forall j :: 0 <= j < |front| ==> front[j] == events[j];
  }

  lemma ReachLast(events: seq<Event>, t: nat)
    requires events != []
    ensures var (front, n) := (events[..|events| - 1], |events| - 1);
            Reach(t) in events <==> Reach(t) in front || events[n] == Reach(t)
  {
    assert events == events[..|events| - 1] + [events[|events| - 1]];
  }

  lemma ArmedLast(events: seq<Event>, t: nat)
    requires events != []
    ensures var (front, n) := (events[..|events| - 1], |events| - 1);
            ArmedBy(events, t) <==> ArmedBy(front, t) || (Installation(front) == n && events[n].Supervise? && t in events[n].armable)
  {
    InstallationLast(events);
  }

  lemma CaughtLast(events: seq<Event>, t: nat)
    requires events != []
    ensures var (front, n) := (events[..|events| - 1], |events| - 1);
            Caught(events, t) <==> Caught(front, t) || (ArmedBy(front, t) && Reach(t) !in front && events[n] == Reach(t))
  {
    var front, n := events[..|events| - 1], |events| - 1;
    InstallationLast(events);
    ReachLast(events, t);
    ArmedLast(events, t);
    if Installation(front) < n {
      assert events[..Installation(front)] == front[..Installation(front)];
      assert Reach(t) in front[..Installation(front)] ==> Reach(t) in front;
    } else if events[n].Supervise? {
      assert events[..n] == front;
    }
  }

  lemma LetGoLast(s: State, events: seq<Event>, t: nat)
    requires events != []
    ensures var (front, n) := (events[..|events| - 1], |events| - 1);
            LetGo(s, events, t) <==> LetGo(s, front, t) || LetGoAt(s, events, t, n)
  {
    var front, n := events[..|events| - 1], |events| - 1;
    forall k | 0 <= k < n
      ensures LetGoAt(s, events, t, k) <==> LetGoAt(s, front, t, k)
    {
      assert front[..k] == events[..k];
    }
  }

  // What one more event adds to all of these.
  lemma StoryLast(s: State, events: seq<Event>, t: nat)
    requires events != []
    ensures var (front, n) := (events[..|events| - 1], |events| - 1);
            var (e, first) := (events[n], Installation(front) == n && events[n].Supervise?);
            && Installation(front) <= n && (Installation(events) == |events| <==> Installation(front) == n && !e.Supervise?)
            && (Reach(t) in events <==> Reach(t) in front || e == Reach(t))
            && (ArmedBy(events, t) <==> ArmedBy(front, t) || (first && t in e.armable))
            && (first ==> !ArmedBy(front, t))
            && (Caught(events, t) <==> Caught(front, t) || (ArmedBy(front, t) && Reach(t) !in front && e == Reach(t)))
            && (LetGo(s, events, t) <==> LetGo(s, front, t) || (e == Poll(t) && Run(s, front).release && Caught(front, t)))
  {
    InstallationLast(events);
    ReachLast(events, t);
    ArmedLast(events, t);
    CaughtLast(events, t);
    LetGoLast(s, events, t);
  }

  // The run so far agrees with the order of events.
  ghost predicate Told(s: State, events: seq<Event>, r: State, t: nat)
    requires t < |s.threads|
  {
    && |r.threads| == |s.threads| && r.gateAddress == s.gateAddress
    && (r.supervisor.Install? <==> Installation(events) == |events|)
    && r.threads[t] == Fate(s, events, t)
  }

  lemma ArmedHas(orig: Thread, address: Register)
    ensures HasBreakpoint(Armed(orig, address), address)
  {
  }

  lemma SuperviseTold(s: State, events: seq<Event>, r: State, t: nat)
    requires events != [] && events[|events| - 1].Supervise? && t < |s.threads| && s.threads[t].place == Before
    requires Told(s, events[..|events| - 1], r, t)
    ensures Told(s, events, Next(r, events[|events| - 1]), t)
  {
    var front, e := events[..|events| - 1], events[|events| - 1];
    StoryLast(s, events, t);
    if r.supervisor.Install? {
      InstallsOne(r, e.armable, t);
      assert !ArmedBy(front, t) && (ArmedBy(events, t) <==> t in e.armable) && !Caught(events, t);
    } else {
      assert (ArmedBy(events, t) <==> ArmedBy(front, t)) && Next(r, e).threads == r.threads;
    }
  }

  lemma InstallsOne(s: State, armable: set<nat>, t: nat)
    requires t < |s.threads|
    ensures var u := InstallGate(s, armable);
            && |u.threads| == |s.threads| && u.gateAddress == s.gateAddress && !u.supervisor.Install?
            && u.threads[t] == if t in armable then Armed(s.threads[t], s.gateAddress) else s.threads[t]
  {
    assert t in Within(armable, |s.threads|) <==> t in armable;
  }

  // Another thread's event, or the loader's, leaves this one as it is.
  lemma OtherTold(s: State, events: seq<Event>, r: State, t: nat)
    requires events != [] && t < |s.threads| && Told(s, events[..|events| - 1], r, t)
    requires var e := events[|events| - 1]; !e.Supervise? && e != Reach(t) && e != Poll(t)
    ensures Told(s, events, Next(r, events[|events| - 1]), t)
  {
    FateStays(s, events, t);
    Untouched(r, events[|events| - 1], t);
  }

  lemma FateStays(s: State, events: seq<Event>, t: nat)
    requires events != [] && t < |s.threads|
    requires var e := events[|events| - 1]; !e.Supervise? && e != Reach(t) && e != Poll(t)
    ensures Fate(s, events, t) == Fate(s, events[..|events| - 1], t)
    ensures Installation(events) == |events| <==> Installation(events[..|events| - 1]) == |events| - 1
  {
    StoryLast(s, events, t);
  }

  lemma Untouched(r: State, e: Event, t: nat)
    requires t < |r.threads| && !e.Supervise? && e != Reach(t) && e != Poll(t)
    ensures var u := Next(r, e);
            && |u.threads| == |r.threads| && u.threads[t] == r.threads[t]
            && u.gateAddress == r.gateAddress && u.supervisor == r.supervisor
  {
  }

  lemma ReachTold(s: State, events: seq<Event>, r: State, t: nat)
    requires events != [] && events[|events| - 1] == Reach(t) && t < |s.threads| && s.threads[t].place == Before
    requires !HasBreakpoint(s.threads[t], s.gateAddress) && Told(s, events[..|events| - 1], r, t)
    ensures Told(s, events, Next(r, events[|events| - 1]), t)
  {
    StoryLast(s, events, t);
    ArmedHas(s.threads[t], s.gateAddress);
    if !Caught(events[..|events| - 1], t) {
      NotLetGo(s, events[..|events| - 1], t);
    }
  }

  lemma PollTold(s: State, events: seq<Event>, r: State, t: nat)
    requires events != [] && events[|events| - 1] == Poll(t) && t < |s.threads| && s.threads[t].place == Before
    requires r == Run(s, events[..|events| - 1]) && Told(s, events[..|events| - 1], r, t)
    ensures Told(s, events, Next(r, events[|events| - 1]), t)
  {
    StoryLast(s, events, t);
  }


  // Only a caught thread is let go.
  lemma {:induction false} NotLetGo(s: State, events: seq<Event>, t: nat)
    requires !Caught(events, t)
    ensures !LetGo(s, events, t)
  {
    if events != [] {
      CaughtLast(events, t);
      LetGoLast(s, events, t);
      NotLetGo(s, events[..|events| - 1], t);
    }
  }

  /** Over every run a thread is what the order of events makes of it. One that was armed short of
      the entry point and has come there stands parked, with the breakpoint, until it looks
      at the release flag when that is set; then exactly the breakpoint is cleared. One that was not
      armed, or armed too late, passes. Nothing else ever happens to a thread. */
  lemma {:induction false} EveryThreadLives(s: State, events: seq<Event>, t: nat)
    requires Initial(s) && t < |s.threads|
    ensures var r := Run(s, events);
            && Told(s, events, r, t)
            && r.threads[t] == Fate(s, events, t)
            && (r.threads[t].place == Parked ==> HasBreakpoint(r.threads[t], s.gateAddress))
    decreases |events|
  {
    ArmedHas(s.threads[t], s.gateAddress);
    if events != [] {
      EveryThreadLives(s, events[..|events| - 1], t);
      RunLast(s, events);
      var r := Run(s, events[..|events| - 1]);
      var e := events[|events| - 1];
      if e.Supervise? {
        SuperviseTold(s, events, r, t);
      } else if e == Reach(t) {
        ReachTold(s, events, r, t);
      } else if e == Poll(t) {
        PollTold(s, events, r, t);
      } else {
        OtherTold(s, events, r, t);
      }
    }
  }

  // DR7 taken apart: bits 20 to 31, 16 to 19, 1 to 15, and 0.
  lemma Digits(high: nat, slot: nat, middle: nat, enable: nat)
    requires slot < 0x10 && middle < 0x8000 && enable < 2
    ensures var d := high * 0x10_0000 + slot * 0x1_0000 + middle * 2 + enable;
            && d / 0x10_0000 == high && d / 0x1_0000 % 0x10 == slot && d / 2 % 0x8000 == middle && d % 2 == enable
            && d % 0x1_0000 == middle * 2 + enable
  {
    var low := middle * 2 + enable;
    assert 0x10_0000 * high + (slot * 0x1_0000 + low) == high * 0x10_0000 + slot * 0x1_0000 + low;
    assert 0x1_0000 * (0x10 * high + slot) + low == high * 0x10_0000 + slot * 0x1_0000 + low;
    assert 2 * (0x8000 * (0x10 * high + slot) + middle) + enable == high * 0x10_0000 + slot * 0x1_0000 + low;
  }

  lemma TakenApart(d: nat)
    ensures d == d / 0x10_0000 * 0x10_0000 + d / 0x1_0000 % 0x10 * 0x1_0000 + d / 2 % 0x8000 * 2 + d % 2
    ensures d % 0x1_0000 == d / 2 % 0x8000 * 2 + d % 2
  {
    var half, word := d / 2, d / 0x1_0000;
    assert word == half / 0x8000;
    assert half == word * 0x8000 + half % 0x8000;
    assert word == word / 0x10 * 0x10 + word % 0x10;
    assert word / 0x10 == d / 0x10_0000;
  }

  lemma ArmingBits(d: Register)
    ensures var a := SetBit0(ClearCondition(d));
            && a % 2 == 1 && a / 0x10000 % 0x10 == 0 && a / 2 % 0x8000 == d / 2 % 0x8000 && a / 0x100000 == d / 0x100000
  {
    var high, middle, enable := d / 0x10_0000, d / 2 % 0x8000, d % 2;
    TakenApart(d);
    assert ClearCondition(d) == high * 0x10_0000 + 0 * 0x1_0000 + middle * 2 + enable;
    Digits(high, 0, middle, enable);
    Digits(high, 0, middle, 1);
  }

  lemma DisarmingBits(d: Register)
    ensures ClearBit0(d) % 2 == 0 && ClearBit0(d) / 2 == d / 2
  {
  }

  /** What arming and disarming do to the debug registers, bit by bit: arming enables slot 0 at the
      address, as an execute watch of one byte, and disarming empties the slot and
      disables it. Every other bit of DR7 stays. */
  lemma BreakpointBits(r: Thread, address: Register)
    ensures var a := Armed(r, address);
            && a.place == r.place && a.dr0 == address && a.dr7 % 2 == 1 && a.dr7 / 0x10000 % 0x10 == 0
            && a.dr7 / 2 % 0x8000 == r.dr7 / 2 % 0x8000 && a.dr7 / 0x100000 == r.dr7 / 0x100000
    ensures var d := Disarmed(r);
            d.place == Through && d.dr0 == 0 && d.dr7 % 2 == 0 && d.dr7 / 2 == r.dr7 / 2
  {
    ArmingBits(r.dr7);
    DisarmingBits(r.dr7);
  }

  lemma AnyArmedLast(events: seq<Event>, n: nat)
    requires events != []
    ensures var (front, e) := (events[..|events| - 1], events[|events| - 1]);
            (exists t :: 0 <= t < n && ArmedBy(events, t)) <==>
              if Installation(front) == |front| && e.Supervise? then exists t :: 0 <= t < n && t in e.armable
              else exists t :: 0 <= t < n && ArmedBy(front, t)
  {
    var front, e := events[..|events| - 1], events[|events| - 1];
    forall t | 0 <= t < n
      ensures ArmedBy(events, t) <==> if Installation(front) == |front| && e.Supervise? then t in e.armable else ArmedBy(front, t)
    {
      ArmedLast(events, t);
    }
  }

  lemma SameThreads(s: State, e: Event)
    ensures |Next(s, e).threads| == |s.threads|
    ensures Next(s, e).supervisor.Install? <==> s.supervisor.Install? && !e.Supervise?
  {
  }

  /** The gate is armed exactly if its installation could arm some thread. */
  lemma {:induction false} GatedExactly(s: State, events: seq<Event>)
    requires Initial(s)
    ensures Run(s, events).gated <==> exists t :: 0 <= t < |s.threads| && ArmedBy(events, t)
    ensures Run(s, events).supervisor.Install? <==> Installation(events) == |events|
    ensures |Run(s, events).threads| == |s.threads|
    decreases |events|
  {
    if events != [] {
      var front, e := events[..|events| - 1], events[|events| - 1];
      GatedExactly(s, front);
      RunLast(s, events);
      InstallationLast(events);
      AnyArmedLast(events, |s.threads|);
      InstallArms(Run(s, front), e);
      SameThreads(Run(s, front), e);
    }
  }

  // Once installation is over, gated stays; installing sets it if a thread could be armed.
  lemma InstallArms(s: State, e: Event)
    requires s.supervisor.Install? ==> !s.gated
    ensures !(s.supervisor.Install? && e.Supervise?) ==> Next(s, e).gated == s.gated
    ensures s.supervisor.Install? && e.Supervise? ==> (Next(s, e).gated <==> exists t :: 0 <= t < |s.threads| && t in e.armable)
  {
    if s.supervisor.Install? && e.Supervise? {
      var armed := Within(e.armable, |s.threads|);
      forall t | 0 <= t < |s.threads| && t in e.armable
        ensures armed != {}
      {
        assert t in armed;
      }
      if armed != {} {
        var t :| t in armed;
        assert 0 <= t < |s.threads| && t in e.armable;
      }
    }
  }

  /** The hit flag is set exactly if some thread has come to the entry point armed. */
  lemma {:induction false} HitExactly(s: State, events: seq<Event>)
    requires Initial(s)
    ensures Run(s, events).hit <==> exists t :: 0 <= t < |s.threads| && Caught(events, t)
    decreases |events|
  {
    if events != [] {
      var front, e := events[..|events| - 1], events[|events| - 1];
      HitExactly(s, front);
      GatedExactly(s, front);
      RunLast(s, events);
      forall t: nat
        ensures Caught(events, t) <==> Caught(front, t) || (ArmedBy(front, t) && Reach(t) !in front && e == Reach(t))
      {
        CaughtLast(events, t);
      }
      if e.Reach? && e.t < |s.threads| {
        EveryThreadLives(s, front, e.t);
        ArmedHas(s.threads[e.t], s.gateAddress);
        AtTheGate(s, front, e.t);
      } else {
        HitOnlyByReach(Run(s, front), e);
      }
    }
  }

  lemma HitOnlyByReach(r: State, e: Event)
    requires !e.Reach? || e.t >= |r.threads|
    ensures Next(r, e).hit == r.hit
  {
  }

  // A thread that is about to fault is one that was armed and had not come yet.
  lemma AtTheGate(s: State, events: seq<Event>, t: nat)
    requires Initial(s) && t < |s.threads| && Told(s, events, Run(s, events), t)
    ensures var r := Run(s, events);
            Next(r, Reach(t)).hit <==> r.hit || (ArmedBy(events, t) && Reach(t) !in events)
  {
    ArmedHas(s.threads[t], s.gateAddress);
  }

  // ---- how long the supervisor waits -------------------------------------------------------------

  /** The supervisor leaves an armed gate only when a thread has been caught or its 30000 polls
      are used up. */
  lemma {:induction false} PatientAtGate(s: State, events: seq<Event>)
    requires Initial(s)
    ensures var (r, n) := (Run(s, events), Supervised(events));
            && (r.supervisor.PollGate? ==> n == r.supervisor.i + 1 <= 30001)
            && (r.supervisor.Install? ==> n == 0)
            && (r.gated && !r.supervisor.PollGate? ==> r.hit || n >= 30002)
    decreases |events|
  {
    if events != [] {
      var front, e := events[..|events| - 1], events[|events| - 1];
      PatientAtGate(s, front);
      RunKeepsInvariant(s, front);
      RunLast(s, events);
      SupervisedLast(events);
    }
  }

  lemma {:induction false} SupervisedLast(events: seq<Event>)
    requires events != []
    ensures Supervised(events) == Supervised(events[..|events| - 1]) + if events[|events| - 1].Supervise? then 1 else 0
  {
    if |events| > 1 {
      SupervisedLast(events[1..]);
      assert events[1..][..|events| - 2] == events[..|events| - 1][1..];
    }
  }

  // Steps from an armed gate with a caught thread to release.
  function Steps(p: Supervisor): nat {
    match p
    case PollGate(_) => 3
    case RegisterNotification => 2
    case Release => 1
    case _ => 0
  }

  lemma {:induction false} SoonReleased(s: State, events: seq<Event>)
    requires Invariant(s) && s.gated && s.hit && Supervised(events) >= Steps(s.supervisor)
    ensures Run(s, events).release
    decreases |events|
  {
    if s.release {
      RunKeepsInvariant(s, events);
    } else {
      NextKeepsInvariant(s, events[0]);
      SoonReleased(Next(s, events[0]), events[1..]);
    }
  }

  /** And when a thread has been caught it does not wait on: three more steps of its own release
      the gate. */
  lemma CaughtMeansSoonReleased(s: State, before: seq<Event>, after: seq<Event>)
    requires Initial(s) && Run(s, before).hit && Supervised(after) >= 3
    ensures Run(s, before + after).release
  {
    RunKeepsInvariant(s, before);
    RunConcat(s, before, after);
    SoonReleased(Run(s, before), after);
  }

  // A supervisor step that is told what it waits for.
  predicate Answered(events: seq<Event>, k: nat)
    requires k < |events|
  {
    events[k].Supervise? && events[k].observed
  }

  // The same, or it is known already that the module is there.
  predicate Announced(loaded: bool, events: seq<Event>, k: nat)
    requires k < |events|
  {
    events[k].Supervise? && (events[k].observed || loaded || ModuleLoaded in events[..k])
  }

  lemma {:induction false} DecryptWait(s: State, events: seq<Event>)
    requires s.supervisor == PollDecrypt(0)
    ensures var r := Run(s, events);
            && (r.supervisor.PollDecrypt? <==> Supervised(events) <= 4000000 && forall k :: 0 <= k < |events| ==> !Answered(events, k))
            && (r.supervisor.PollDecrypt? ==> r.supervisor.i == Supervised(events))
            && !r.supervisor.Install?
    decreases |events|
  {
    if events != [] {
      var front, n := events[..|events| - 1], |events| - 1;
      DecryptWait(s, front);
      RunLast(s, events);
      SupervisedLast(events);
      forall k | 0 <= k < n
        ensures Answered(events, k) <==> Answered(front, k)
      {
        assert front[k] == events[k];
      }
      assert Answered(events, n) <==> events[n].Supervise? && events[n].observed;
    }
  }

  /** If installing could arm nobody, the supervisor goes on exactly when it has seen plaintext or
      polled 4000000 times. */
  lemma DecryptWaitExactly(s: State, armable: set<nat>, observed: bool, events: seq<Event>)
    requires s.supervisor.Install? && forall t :: 0 <= t < |s.threads| ==> t !in armable
    ensures Run(s, [Supervise(armable, observed)] + events).supervisor.PollDecrypt? <==>
              Supervised(events) <= 4000000 && forall k :: 0 <= k < |events| ==> !Answered(events, k)
  {
    assert Within(armable, |s.threads|) == {};
    RunConcat(s, [Supervise(armable, observed)], events);
    RunOne(s, Supervise(armable, observed));
    DecryptWait(Next(s, Supervise(armable, observed)), events);
  }

  lemma {:induction false} ModuleWait(s: State, events: seq<Event>)
    requires s.supervisor == WaitModule(0)
    ensures var r := Run(s, events);
            && (r.supervisor.WaitModule? <==> Supervised(events) <= 60000 && forall k :: 0 <= k < |events| ==> !Announced(s.loaded, events, k))
            && (r.supervisor.WaitModule? ==> r.supervisor.i == Supervised(events))
            && (r.supervisor.WaitModule? || r.supervisor.Initialise?)
            && (r.loaded <==> s.loaded || ModuleLoaded in events)
    decreases |events|
  {
    if events != [] {
      var front, n := events[..|events| - 1], |events| - 1;
      ModuleWait(s, front);
      RunLast(s, events);
      SupervisedLast(events);
      assert events == front + [events[n]];
      forall k | 0 <= k < n
        ensures Announced(s.loaded, events, k) <==> Announced(s.loaded, front, k)
      {
        assert front[k] == events[k] && front[..k] == events[..k];
      }
      assert Announced(s.loaded, events, n) <==> events[n].Supervise? && (events[n].observed || s.loaded || ModuleLoaded in front);
    }
  }

  /** After release the supervisor waits on, and goes no further than the wait, exactly until a step
      of its own finds the module, or finds it known already, or 60000 polls have found neither. */
  lemma ModuleWaitExactly(s: State, e: Event, events: seq<Event>)
    requires s.supervisor == Release && e.Supervise?
    ensures var r := Run(s, [e] + events);
            && (r.supervisor.WaitModule? || r.supervisor.Initialise?)
            && (r.supervisor.WaitModule? <==>
                 Supervised(events) <= 60000 && forall k :: 0 <= k < |events| ==> !Announced(s.loaded, events, k))
  {
    RunConcat(s, [e], events);
    RunOne(s, e);
    ModuleWait(Next(s, e), events);
  }

  // The module is there when the notification is registered.
  ghost predicate FoundAt(s: State, events: seq<Event>, k: nat)
    requires k < |events|
  {
    Run(s, events[..k]).supervisor.RegisterNotification? && Answered(events, k)
  }

  /** The module counts as known exactly if the loader has announced it or registering the notification
      found it there. */
  lemma {:induction false} LoadedExactly(s: State, events: seq<Event>)
    ensures Run(s, events).loaded <==> s.loaded || ModuleLoaded in events || exists k :: 0 <= k < |events| && FoundAt(s, events, k)
    decreases |events|
  {
    if events != [] {
      var front, n := events[..|events| - 1], |events| - 1;
      LoadedExactly(s, front);
      RunLast(s, events);
      assert events == front + [events[n]];
      forall k | 0 <= k < n
        ensures FoundAt(s, events, k) <==> FoundAt(s, front, k)
      {
        assert front[k] == events[k] && front[..k] == events[..k];
      }
      assert FoundAt(s, events, n) <==> Run(s, front).supervisor.RegisterNotification? && events[n].Supervise? && events[n].observed;
    }
  }

  /** Why the supervisor must release before it waits: no event but the supervisor's own
      release step can free a parked thread. */
  lemma {:induction false} OnlyReleaseFrees(s: State, t: nat, events: seq<Event>)
    requires Invariant(s) && t < |s.threads| && s.threads[t].place == Parked && !s.release
    requires Supervised(events) == 0
    ensures t < |Run(s, events).threads| && Run(s, events).threads[t].place == Parked
    decreases |events|
  {
    if events != [] {
      NextKeepsInvariant(s, events[0]);
      OnlyReleaseFrees(Next(s, events[0]), t, events[1..]);
    }
  }
}
