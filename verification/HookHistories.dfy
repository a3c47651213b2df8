/** Whatever the interleaving, once nobody is in flight the registry is as some sequential
    history of its own operations would have left it, up to the order of the target records. */
module HookHistories {
  import opened CodeMemory
  import opened HookProtocol
  import opened HookRefinement
  import opened Options
  import R = HookRegistry

  // ---- the order of adoption ---------------------------------------------------------------

  // The installers in the order in which they were adopted.
  function LogOf(s: State, events: seq<Event>): seq<nat> {
    if events == [] then []
    else
      var front, e := events[..|events| - 1], events[|events| - 1];
      LogOf(s, front) + if Adopts(Run(s, front), e) then [e.i] else []
  }

  predicate Adopts(s: State, e: Event) {
    e.Adopt? && Alive(s) && Adoptable(s, e.i)
  }

  ghost predicate LogIn(s: State, log: seq<nat>) {
    forall k :: 0 <= k < |log| ==> s.At(log[k], Adopted)
  }

  // The inline installers, or the mid ones, of a log.
  function Sel(s: State, log: seq<nat>, mid: bool): (r: seq<nat>)
    ensures forall i :: i in r <==> i in log && i < |s.installers| && s.installers[i].req.mid == mid
  {
    if log == [] then []
    else
      var n := |log| - 1;
      Sel(s, log[..n], mid) + if log[n] < |s.installers| && s.installers[log[n]].req.mid == mid then [log[n]] else []
  }

  // ---- what one step does to one installer ------------------------------------------------------

  predicate Settled(x: Installer) {
    x.stage == Recorded || x.stage == Adopted
  }

  // A hook is made, stays, or is disabled.
  predicate HookMoves(g: Hook, h: Hook, stage: Stage) {
    h == g || (h.Active() && stage == Cleared) || (g.Active() && h == g.(enabled := false))
  }

  predicate Installs(e: Event) {
    e.Check? || e.CheckOwner? || e.WriteJump? || e.Record? || e.Adopt?
  }

  // What becomes of installer k's request and hook.
  predicate Moves(s: State, u: State, k: nat) {
    && k < |s.installers| == |u.installers| && u.installers[k].req == s.installers[k].req
    && HookMoves(s.installers[k].hook, u.installers[k].hook, s.installers[k].stage)
  }

  lemma DisableMoves(s: State, i: nat, ok: bool, k: nat)
    requires i < |s.installers| && k < |s.installers|
    ensures var u := DisableStep(s, i, ok); Moves(s, u, k) && u.installers[k].stage == s.installers[k].stage && u.targets == s.targets
  {
  }

  lemma EffectOfInstall(s: State, e: Event, k: nat)
    requires k < |s.installers| && Installs(e)
    ensures Moves(s, Next(s, e), k)
  {
  }

  lemma EffectOfRetire(s: State, e: Event, k: nat)
    requires k < |s.installers| && !Installs(e)
    ensures Moves(s, Next(s, e), k) && Next(s, e).installers[k].stage == s.installers[k].stage
  {
    if e.RetireOne? {
      var p, q := Position(s, s.inline, e.name), Position(s, s.mids, e.name);
      if p < |s.inline| {
        DisableMoves(s, s.inline[p], e.ok, k);
      } else if q < |s.mids| {
        DisableMoves(s, s.mids[q], e.ok, k);
      }
    } else if e.RetireNext? && s.Locked() && s.shutdown.next < |s.Order()| && s.Order()[s.shutdown.next] < |s.installers| {
      DisableMoves(s, s.Order()[s.shutdown.next], e.ok, k);
    }
  }

  lemma Effect(s: State, e: Event, k: nat)
    requires k < |s.installers|
    ensures Moves(s, Next(s, e), k)
  {
    if Installs(e) {
      EffectOfInstall(s, e, k);
    } else {
      EffectOfRetire(s, e, k);
    }
  }

  // What becomes of its stage.
  predicate StageMoves(s: State, u: State, e: Event, k: nat) {
    && k < |s.installers| == |u.installers|
    && (s.At(k, Adopted) ==> u.At(k, Adopted))
    && (u.At(k, Adopted) && !s.At(k, Adopted) ==> Adopts(s, e) && e.i == k)
    && (Adopts(s, e) ==> u.At(e.i, Adopted) && !s.At(e.i, Adopted))
    && (Settled(s.installers[k]) ==> Settled(u.installers[k]))
    && (Settled(u.installers[k]) && !Settled(s.installers[k]) ==> s.At(k, Patched) && (e == Record(k) || s.installers[k].req.mid))
  }

  lemma StageOfInstall(s: State, e: Event, k: nat)
    requires k < |s.installers| && Installs(e)
    ensures StageMoves(s, Next(s, e), e, k)
  {
  }

  lemma StageEffect(s: State, e: Event, k: nat)
    requires k < |s.installers|
    ensures StageMoves(s, Next(s, e), e, k)
  {
    if Installs(e) {
      StageOfInstall(s, e, k);
    } else {
      EffectOfRetire(s, e, k);
    }
  }

  lemma TargetsEffect(s: State, e: Event)
    ensures Next(s, e).targets == s.targets
            || (e.Record? && e.i < |s.installers| && !s.installers[e.i].req.mid && s.At(e.i, Patched) && Next(s, e).At(e.i, Recorded)
                && Next(s, e).targets == s.targets + [R.Target(s.installers[e.i].req.name, s.installers[e.i].req.target)])
  {
  }

  // Recording is the only way to become settled inline, and it makes the record.
  lemma RecordEffect(s: State, e: Event, k: nat)
    requires k < |s.installers| && !s.installers[k].req.mid && !Settled(s.installers[k])
    requires |Next(s, e).installers| == |s.installers| && Settled(Next(s, e).installers[k])
    ensures Next(s, e).targets == s.targets + [R.Target(s.installers[k].req.name, s.installers[k].req.target)]
  {
    StageEffect(s, e, k);
    RecordOnly(s, k);
  }

  lemma RecordOnly(s: State, k: nat)
    requires k < |s.installers| && s.At(k, Patched) && Next(s, Record(k)) != s && !Next(s, Record(k)).crashed
    ensures Next(s, Record(k)).targets == s.targets + [R.Target(s.installers[k].req.name, s.installers[k].req.target)]
  {
  }

  // ---- the lists ----------------------------------------------------------------------------------

  ghost predicate ListsFollow(s: State, log: seq<nat>) {
    LogIn(s, log) && s.inline == Sel(s, log, false) && s.mids == Sel(s, log, true)
  }

  lemma {:induction false} SelSame(s: State, u: State, log: seq<nat>, mid: bool)
    requires |u.installers| == |s.installers| && forall k :: 0 <= k < |s.installers| ==> u.installers[k].req == s.installers[k].req
    ensures Sel(u, log, mid) == Sel(s, log, mid)
    decreases |log|
  {
    if log != [] {
      SelSame(s, u, log[..|log| - 1], mid);
    }
  }

  // The log after one more event.
  function LogNext(s: State, log: seq<nat>, e: Event): seq<nat> {
    log + if Adopts(s, e) then [e.i] else []
  }

  lemma SelAppend(s: State, log: seq<nat>, i: nat, mid: bool)
    requires i < |s.installers|
    ensures Sel(s, log + [i], mid) == Sel(s, log, mid) + if s.installers[i].req.mid == mid then [i] else []
  {
    assert (log + [i])[..|log|] == log;
  }

  lemma LogStays(s: State, log: seq<nat>, e: Event)
    requires LogIn(s, log)
    ensures LogIn(Next(s, e), LogNext(s, log, e))
  {
    var u, next := Next(s, e), LogNext(s, log, e);
    forall k | 0 <= k < |next|
      ensures u.At(next[k], Adopted)
    {
      if k < |log| {
        assert s.At(log[k], Adopted);
        StageEffect(s, e, log[k]);
      } else {
        StageEffect(s, e, e.i);
      }
    }
  }

  lemma ReqsStay(s: State, e: Event)
    ensures |Next(s, e).installers| == |s.installers|
    ensures forall k :: 0 <= k < |s.installers| ==> Next(s, e).installers[k].req == s.installers[k].req
  {
    SameCount(s, e);
    forall k | 0 <= k < |s.installers|
      ensures Next(s, e).installers[k].req == s.installers[k].req
    {
      Effect(s, e, k);
    }
  }

  lemma AdoptAppends(s: State, e: Event)
    requires Adopts(s, e)
    ensures var u := Next(s, e);
            && e.i < |s.installers|
            && u.inline == (if s.installers[e.i].req.mid then s.inline else s.inline + [e.i])
            && u.mids == (if s.installers[e.i].req.mid then s.mids + [e.i] else s.mids)
  {
  }

  lemma ListsStep(s: State, log: seq<nat>, e: Event)
    requires ListsFollow(s, log)
    ensures ListsFollow(Next(s, e), LogNext(s, log, e))
  {
    var u := Next(s, e);
    LogStays(s, log, e);
    ReqsStay(s, e);
    SelSame(s, u, log, false);
    SelSame(s, u, log, true);
    if Adopts(s, e) {
      AdoptAppends(s, e);
      SelAppend(u, log, e.i, false);
      SelAppend(u, log, e.i, true);
    } else {
      ListsStay(s, e);
      assert LogNext(s, log, e) == log;
    }
  }

  lemma SameCount(s: State, e: Event)
    ensures |Next(s, e).installers| == |s.installers|
  {
  }

  // ---- the hooks ----------------------------------------------------------------------------------

  // A hook's saved bytes are the original ones, active or not.
  ghost predicate Shaped(h: Hook, original: Memory) {
    h.Hook? ==>
      && 0 < |h.patch| == |h.saved| && Mapped(original, h.target, |h.patch|)
      && h.saved == Peek(original, h.target, |h.patch|)
  }

  ghost predicate AllShaped(s: State, original: Memory) {
    forall i :: 0 <= i < |s.installers| ==> Shaped(s.installers[i].hook, original)
  }

  lemma ShapedStep(s: State, e: Event, original: Memory)
    requires AllShaped(s, original) && Invariant(Next(s, e), original)
    ensures AllShaped(Next(s, e), original)
  {
    var u := Next(s, e);
    SameCount(s, e);
    forall i | 0 <= i < |u.installers|
      ensures Shaped(u.installers[i].hook, original)
    {
      Effect(s, e, i);
      assert InPlace(HooksIn(u)[i], u.code, original);
    }
  }

  // The patches do not overlap, active or not.
  predicate Apart(g: Hook, h: Hook) {
    g.Hook? && h.Hook? ==> g.target + |g.patch| <= h.target || h.target + |h.patch| <= g.target
  }

  // A hook that is no longer active kept clear of every active one adopted before it.
  ghost predicate EarlierClear(s: State, log: seq<nat>) {
    forall p, q :: 0 <= p < q < |log| && log[p] < |s.installers| && log[q] < |s.installers| && s.installers[log[p]].hook.Active()
      ==> Apart(s.installers[log[p]].hook, s.installers[log[q]].hook)
  }

  lemma ClearPair(s: State, log: seq<nat>, e: Event, original: Memory, p: nat, q: nat)
    requires Invariant(s, original) && LogIn(s, log) && EarlierClear(s, log)
    requires p < q < |LogNext(s, log, e)|
    requires var (i, j, u) := (LogNext(s, log, e)[p], LogNext(s, log, e)[q], Next(s, e));
             i < |s.installers| == |u.installers| && j < |u.installers| && u.installers[i].hook.Active()
    ensures var (i, j, u) := (LogNext(s, log, e)[p], LogNext(s, log, e)[q], Next(s, e));
            Apart(u.installers[i].hook, u.installers[j].hook)
  {
    var i, j := LogNext(s, log, e)[p], LogNext(s, log, e)[q];
    assert i == log[p] && s.At(i, Adopted);
    Effect(s, e, i);
    Effect(s, e, j);
    if q < |log| {
      assert s.At(log[q], Adopted);
    } else {
      assert StageFits(s.installers[j]);
      BothClear(s, original, i, j);
    }
  }

  lemma EarlierClearStep(s: State, log: seq<nat>, e: Event, original: Memory)
    requires Invariant(s, original) && LogIn(s, log) && EarlierClear(s, log)
    ensures EarlierClear(Next(s, e), LogNext(s, log, e))
  {
    var u, next := Next(s, e), LogNext(s, log, e);
    SameCount(s, e);
    forall p, q | 0 <= p < q < |next| && next[p] < |u.installers| && next[q] < |u.installers| && u.installers[next[p]].hook.Active()
      ensures Apart(u.installers[next[p]].hook, u.installers[next[q]].hook)
    {
      ClearPair(s, log, e, original, p, q);
    }
  }

  lemma BothClear(s: State, original: Memory, i: nat, j: nat)
    requires Overlaid(HooksIn(s), s.code, original) && i < |s.installers| && j < |s.installers|
    requires i != j && s.installers[i].hook.Active() && s.installers[j].hook.Active()
    ensures Apart(s.installers[i].hook, s.installers[j].hook)
  {
    var hs := HooksIn(s);
    assert Disjoint(hs[if i < j then i else j], hs[if i < j then j else i]);
  }

  // ---- targets and records --------------------------------------------------------------------------

  // An inline installer whose target is recorded.
  predicate Owning(x: Installer) {
    Settled(x) && !x.req.mid
  }

  // No two of them share a target.
  ghost predicate TargetsApart(s: State) {
    forall i, j :: 0 <= i < j < |s.installers| && Owning(s.installers[i]) && Owning(s.installers[j])
      ==> s.installers[i].req.target != s.installers[j].req.target
  }

  lemma TargetsApartStep(s: State, e: Event)
    requires OneOwner(s) && TargetsApart(s)
    ensures TargetsApart(Next(s, e))
  {
    var u := Next(s, e);
    ReqsStay(s, e);
    forall i, j | 0 <= i < j < |u.installers| && Owning(u.installers[i]) && Owning(u.installers[j])
      ensures u.installers[i].req.target != u.installers[j].req.target
    {
      StageEffect(s, e, i);
      StageEffect(s, e, j);
      assert RecordFits(s.targets, s.installers[i]) && RecordFits(s.targets, s.installers[j]);
    }
  }

  function RecordOf(x: Installer): R.Target {
    R.Target(x.req.name, x.req.target)
  }

  predicate HasRecord(s: State, i: nat, t: R.Target) {
    i < |s.installers| && Owning(s.installers[i]) && RecordOf(s.installers[i]) == t
  }

  // The records are exactly theirs.
  ghost predicate RecordsExact(s: State) {
    && (forall t :: t in s.targets ==> exists i: nat :: HasRecord(s, i, t))
    && (forall i :: 0 <= i < |s.installers| && Owning(s.installers[i]) ==> RecordOf(s.installers[i]) in s.targets)
  }

  lemma RecordsStep(s: State, e: Event)
    requires RecordsExact(s)
    ensures RecordsExact(Next(s, e))
  {
    var u := Next(s, e);
    ReqsStay(s, e);
    TargetsEffect(s, e);
    forall t | t in u.targets
      ensures exists i: nat :: HasRecord(u, i, t)
    {
      if t in s.targets {
        var i: nat :| HasRecord(s, i, t);
        StageEffect(s, e, i);
        assert HasRecord(u, i, t);
      } else {
        assert HasRecord(u, e.i, t);
      }
    }
    forall i | 0 <= i < |u.installers| && Owning(u.installers[i])
      ensures RecordOf(u.installers[i]) in u.targets
    {
      if Settled(s.installers[i]) {
        assert RecordOf(s.installers[i]) in s.targets;
      } else {
        RecordEffect(s, e, i);
      }
    }
  }

  // ---- which hooks have been retired by name ----------------------------------------------------------

  // Before retirement has begun, a hook that is no longer active was the first of its name to be
  // adopted, among those that are looked for before it.
  ghost predicate FirstOfName(s: State, log: seq<nat>, q: nat)
    requires q < |log| && log[q] < |s.installers|
  {
    forall p :: 0 <= p < q && log[p] < |s.installers| && (s.installers[log[q]].req.mid || !s.installers[log[p]].req.mid)
      ==> s.installers[log[p]].req.name != s.installers[log[q]].req.name
  }

  ghost predicate RetiredByName(s: State, log: seq<nat>) {
    forall q :: 0 <= q < |log| && log[q] < |s.installers| && !s.installers[log[q]].hook.Active() ==> FirstOfName(s, log, q)
  }

  // The first installer of a name in a selection is the first of that name in the log.
  lemma {:induction false} FirstInSel(s: State, log: seq<nat>, mid: bool, name: string, q: nat)
    requires q < |log| && log[q] < |s.installers| && s.installers[log[q]].req.mid == mid && s.installers[log[q]].req.name == name
    requires var p := Position(s, Sel(s, log, mid), name); p < |Sel(s, log, mid)| && Sel(s, log, mid)[p] == log[q]
    requires forall k, l :: 0 <= k < l < |log| ==> log[k] != log[l]
    ensures forall p :: 0 <= p < q && log[p] < |s.installers| && s.installers[log[p]].req.mid == mid ==> s.installers[log[p]].req.name != name
    decreases |log|
  {
    var n := |log| - 1;
    var front := Sel(s, log[..n], mid);
    PositionAppend(s, front, Sel(s, log, mid)[|front|..], name);
    assert Sel(s, log, mid) == front + Sel(s, log, mid)[|front|..];
    if q == n {
      forall p | 0 <= p < q && log[p] < |s.installers| && s.installers[log[p]].req.mid == mid
        ensures s.installers[log[p]].req.name != name
      {
        assert log[p] in log[..n] && log[p] in front;
        NamedOtherwise(s, front, name, log[p]);
      }
    } else {
      assert log[q] in log[..n] && log[q] in front;
      FoundBefore(s, front, name, log[q]);
      FirstInSel(s, log[..n], mid, name, q);
    }
  }

  lemma {:induction false} PositionAppend(s: State, a: seq<nat>, b: seq<nat>, name: string)
    ensures var p := Position(s, a, name);
            Position(s, a + b, name) == if p < |a| then p else |a| + Position(s, b, name)
    decreases |a|
  {
    if a == [] {
      assert a + b == b;
    } else {
      PositionAppend(s, a[1..], b, name);
      assert (a + b)[1..] == a[1..] + b;
    }
  }

  lemma {:induction false} FoundBefore(s: State, list: seq<nat>, name: string, i: nat)
    requires i in list && i < |s.installers| && s.installers[i].req.name == name
    ensures Position(s, list, name) < |list|
    decreases |list|
  {
    if list[0] != i {
      FoundBefore(s, list[1..], name, i);
    }
  }

  lemma NamedOtherwise(s: State, list: seq<nat>, name: string, i: nat)
    requires i in list && i < |s.installers| && Position(s, list, name) >= |list|
    ensures s.installers[i].req.name != name
  {
    if s.installers[i].req.name == name {
      FoundBefore(s, list, name, i);
    }
  }

  lemma AdoptLeaves(s: State, e: Event, j: nat)
    requires Installs(e) && j < |s.installers| && s.At(j, Adopted)
    ensures j < |Next(s, e).installers| && Next(s, e).installers[j] == s.installers[j]
  {
  }

  lemma OnlyByName(s: State, e: Event, j: nat)
    requires j < |s.installers| && s.installers[j].hook.Active() && !Next(s, e).RetireStarted() && s.At(j, Adopted)
    requires j < |Next(s, e).installers| && !Next(s, e).installers[j].hook.Active()
    ensures e.RetireOne?
  {
    if Installs(e) {
      AdoptLeaves(s, e, j);
    }
  }

  // Which step disables a hook before retirement has begun: retiring by its name.
  lemma DisabledByName(s: State, e: Event, j: nat)
    requires j < |s.installers| && s.installers[j].hook.Active() && !Next(s, e).RetireStarted() && s.At(j, Adopted)
    requires j < |Next(s, e).installers| && !Next(s, e).installers[j].hook.Active()
    ensures e.RetireOne? && s.installers[j].req.name == e.name
    ensures var (p, q) := (Position(s, s.inline, e.name), Position(s, s.mids, e.name));
            || (p < |s.inline| && s.inline[p] == j)
            || (p == |s.inline| && q < |s.mids| && s.mids[q] == j)
  {
    OnlyByName(s, e, j);
    PositionNames(s, s.inline, e.name);
    PositionNames(s, s.mids, e.name);
  }

  lemma {:induction false} PositionNames(s: State, list: seq<nat>, name: string)
    ensures var p := Position(s, list, name); p < |list| ==> list[p] < |s.installers| && s.installers[list[p]].req.name == name
    decreases |list|
  {
    if list != [] {
      PositionNames(s, list[1..], name);
    }
  }

  ghost predicate OnceInLog(log: seq<nat>) {
    forall k, l :: 0 <= k < l < |log| ==> log[k] != log[l]
  }

  lemma OnceStep(s: State, log: seq<nat>, e: Event)
    requires LogIn(s, log) && OnceInLog(log)
    ensures OnceInLog(LogNext(s, log, e))
  {
    if Adopts(s, e) {
      StageEffect(s, e, e.i);
      forall k | 0 <= k < |log|
        ensures log[k] != e.i
      {
        assert s.At(log[k], Adopted);
      }
    }
  }

  // The one retired by name is the first of its name.
  lemma RetiredIsFirst(s: State, log: seq<nat>, name: string, q: nat)
    requires ListsFollow(s, log) && OnceInLog(log) && q < |log| && log[q] < |s.installers| && s.installers[log[q]].req.name == name
    requires var (p, m) := (Position(s, s.inline, name), Position(s, s.mids, name));
             || (p < |s.inline| && s.inline[p] == log[q])
             || (p == |s.inline| && m < |s.mids| && s.mids[m] == log[q])
    ensures FirstOfName(s, log, q)
  {
    var p := Position(s, s.inline, name);
    if p < |s.inline| {
      assert log[q] in s.inline;
      FirstInSel(s, log, false, name, q);
    } else {
      assert log[q] in s.mids;
      FirstInSel(s, log, true, name, q);
      forall k | 0 <= k < q && log[k] < |s.installers| && !s.installers[log[k]].req.mid
        ensures s.installers[log[k]].req.name != name
      {
        assert log[k] in s.inline;
        if s.installers[log[k]].req.name == name {
          FoundBefore(s, s.inline, name, log[k]);
        }
      }
    }
  }

  lemma StillFirst(s: State, log: seq<nat>, e: Event, q: nat)
    requires q < |log| && log[q] < |s.installers| && FirstOfName(s, log, q)
    ensures var (u, next) := (Next(s, e), LogNext(s, log, e));
            q < |next| && next[q] == log[q] < |u.installers| && FirstOfName(u, next, q)
  {
    ReqsStay(s, e);
  }

  lemma OneRetiredByName(s: State, log: seq<nat>, e: Event, original: Memory, q: nat)
    requires Invariant(s, original) && ListsFollow(s, log) && OnceInLog(log)
    requires !s.RetireStarted() && !Next(s, e).RetireStarted() && RetiredByName(s, log) && q < |log|
    requires log[q] < |Next(s, e).installers| == |s.installers| && !Next(s, e).installers[log[q]].hook.Active()
    ensures FirstOfName(s, log, q)
  {
    assert s.At(log[q], Adopted);
    if s.installers[log[q]].hook.Active() {
      DisabledByName(s, e, log[q]);
      RetiredIsFirst(s, log, e.name, q);
    }
  }

  lemma NewIsActive(s: State, e: Event, original: Memory)
    requires Invariant(s, original) && Adopts(s, e) && !s.RetireStarted() && e.i < |s.installers|
    ensures e.i < |Next(s, e).installers| && Next(s, e).installers[e.i].hook.Active()
  {
    assert StageFits(s.installers[e.i]);
    StaysActive(s, e);
  }

  lemma RetiredByNameStep(s: State, log: seq<nat>, e: Event, original: Memory)
    requires Invariant(s, original) && ListsFollow(s, log) && OnceInLog(log)
    requires !s.RetireStarted() && !Next(s, e).RetireStarted() && RetiredByName(s, log)
    ensures RetiredByName(Next(s, e), LogNext(s, log, e))
  {
    var u, next := Next(s, e), LogNext(s, log, e);
    SameCount(s, e);
    if Adopts(s, e) {
      NewIsActive(s, e, original);
    }
    forall q | 0 <= q < |next| && next[q] < |u.installers| && !u.installers[next[q]].hook.Active()
      ensures FirstOfName(u, next, q)
    {
      OneRetiredByName(s, log, e, original, q);
      StillFirst(s, log, e, q);
    }
  }

  lemma StartedStays(s: State, e: Event)
    ensures s.RetireStarted() ==> Next(s, e).RetireStarted()
  {
  }

  // Before retirement adoption leaves the hook as it is.
  lemma StaysActive(s: State, e: Event)
    requires Adopts(s, e) && !s.RetireStarted() && e.i < |s.installers|
    ensures e.i < |Next(s, e).installers| && Next(s, e).installers[e.i].hook == s.installers[e.i].hook
  {
  }

  // ---- all of it, over a run --------------------------------------------------------------------------

  ghost predicate Chronicle(s: State, log: seq<nat>, original: Memory) {
    && Invariant(s, original) && ListsFollow(s, log) && OnceInLog(log)
    && AllShaped(s, original) && EarlierClear(s, log) && TargetsApart(s) && RecordsExact(s)
    && (!s.RetireStarted() ==> RetiredByName(s, log))
  }

  lemma ChronicleStep(s: State, log: seq<nat>, e: Event, original: Memory)
    requires Chronicle(s, log, original) && Disciplined(s, e)
    ensures Chronicle(Next(s, e), LogNext(s, log, e), original)
  {
    NextKeeps(s, e, original);
    ListsStep(s, log, e);
    OnceStep(s, log, e);
    ShapedStep(s, e, original);
    EarlierClearStep(s, log, e, original);
    TargetsApartStep(s, e);
    RecordsStep(s, e);
    StartedStays(s, e);
    if !Next(s, e).RetireStarted() {
      RetiredByNameStep(s, log, e, original);
    }
  }

  lemma {:induction false} RunChronicle(original: Memory, requests: seq<Request>, events: seq<Event>)
    requires DisciplinedRun(Start(original, requests), events)
    ensures Chronicle(Run(Start(original, requests), events), LogOf(Start(original, requests), events), original)
  {
    var s := Start(original, requests);
    if events == [] {
      StartInvariant(original, requests);
    } else {
      var front, e := events[..|events| - 1], events[|events| - 1];
      RunChronicle(original, requests, front);
      ChronicleStep(Run(s, front), LogOf(s, front), e, original);
    }
  }
}
