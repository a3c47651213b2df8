/** Code memory and the patches hooks put into it. */
module CodeMemory {
  import opened Options

  // Code bytes by address. An address that is missing is not mapped.
  type Memory = map<int, int>

  predicate Mapped(m: Memory, at: int, n: nat) {
    forall a :: at <= a < at + n ==> a in m
  }

  function Peek(m: Memory, at: int, n: nat): (bytes: seq<int>)
    requires Mapped(m, at, n)
    ensures |bytes| == n && forall i :: 0 <= i < n ==> bytes[i] == m[at + i]
  {
    seq(n, i requires 0 <= i < n => m[at + i])
  }

  function Poke(m: Memory, at: int, bytes: seq<int>): (r: Memory)
    ensures r.Keys == m.Keys
    ensures forall a :: a in m ==> r[a] == if at <= a < at + |bytes| then bytes[a - at] else m[a]
  {
    map a | a in m :: if at <= a < at + |bytes| then bytes[a - at] else m[a]
  }

  // A hook: what it overwrote and what it wrote. Empty is a moved-from hook object.
  datatype Hook = Empty | Hook(target: int, saved: seq<int>, patch: seq<int>, enabled: bool) {
    predicate Active() {
      Hook? && enabled
    }

    // The hook has this address under its patch.
    predicate Covers(a: int) {
      Active() && target <= a < target + |patch|
    }
  }

  /** The hook factory: saves the bytes at the target and writes a jump over them. It fails
      when it has no jump to write, or cannot reach the bytes it must save. */
  function Create(m: Memory, target: int, jump: seq<int>): (r: Option<(Hook, Memory)>) {
    if jump == [] || !Mapped(m, target, |jump|) then None
    else Some((Hook(target, Peek(m, target, |jump|), jump, true), Poke(m, target, jump)))
  }

  // Disabling writes the saved bytes back, unless the system refuses.
  function Disable(m: Memory, h: Hook, ok: bool): (Hook, Memory) {
    if h.Active() && ok then (h.(enabled := false), Poke(m, h.target, h.saved)) else (h, m)
  }

  predicate Disjoint(g: Hook, h: Hook) {
    !g.Active() || !h.Active() || g.target + |g.patch| <= h.target || h.target + |h.patch| <= g.target
  }

  // The patch is in place, and its saved bytes are the original ones.
  ghost predicate InPlace(h: Hook, code: Memory, original: Memory) {
    h.Active() ==>
      && 0 < |h.patch| == |h.saved|
      && Mapped(code, h.target, |h.patch|) && Mapped(original, h.target, |h.patch|)
      && h.saved == Peek(original, h.target, |h.patch|)
      && h.patch == Peek(code, h.target, |h.patch|)
  }

  /** Code memory is the original under these hooks' patches: the active patches are in
      place and pairwise disjoint, and everything else is untouched. */
  ghost predicate Overlaid(hooks: seq<Hook>, code: Memory, original: Memory) {
    && code.Keys == original.Keys
    && (forall i :: 0 <= i < |hooks| ==> InPlace(hooks[i], code, original))
    && (forall i, j :: 0 <= i < j < |hooks| ==> Disjoint(hooks[i], hooks[j]))
    && (forall a :: a in code && (forall i :: 0 <= i < |hooks| ==> !hooks[i].Covers(a)) ==> code[a] == original[a])
  }

  ghost predicate NoneActive(hooks: seq<Hook>) {
    forall i :: 0 <= i < |hooks| ==> !hooks[i].Active()
  }

  lemma OverlaidByNothing(hooks: seq<Hook>, code: Memory, original: Memory)
    requires Overlaid(hooks, code, original) && NoneActive(hooks)
    ensures code == original
  {
    forall a | a in code
      ensures code[a] == original[a]
    {
      assert forall i :: 0 <= i < |hooks| ==> !hooks[i].Covers(a);
    }
  }

  // A patch that really changed something.
  predicate Changes(h: Hook) {
    h.Active() ==> h.patch != h.saved
  }

  /** Under patches that each changed something, code is the original exactly when no hook
      is active. */
  lemma RestoredExactly(hooks: seq<Hook>, code: Memory, original: Memory)
    requires Overlaid(hooks, code, original) && forall i :: 0 <= i < |hooks| ==> Changes(hooks[i])
    ensures code == original <==> NoneActive(hooks)
  {
    if NoneActive(hooks) {
      OverlaidByNothing(hooks, code, original);
    } else {
      var i :| 0 <= i < |hooks| && hooks[i].Active();
      assert InPlace(hooks[i], code, original) && Changes(hooks[i]);
    }
  }

  // Writing beside a patch leaves it in place.
  lemma PokeElsewhere(h: Hook, code: Memory, original: Memory, at: int, bytes: seq<int>)
    requires InPlace(h, code, original)
    requires h.Active() ==> h.target + |h.patch| <= at || at + |bytes| <= h.target
    ensures InPlace(h, Poke(code, at, bytes), original)
  {
  }

  // Bytes no active patch covers are the original ones.
  lemma UncoveredRange(hooks: seq<Hook>, code: Memory, original: Memory, h: Hook)
    requires Overlaid(hooks, code, original) && h.Active() && Mapped(code, h.target, |h.patch|)
    requires forall i :: 0 <= i < |hooks| ==> Disjoint(h, hooks[i])
    ensures Mapped(original, h.target, |h.patch|) && Peek(code, h.target, |h.patch|) == Peek(original, h.target, |h.patch|)
  {
    forall a | h.target <= a < h.target + |h.patch|
      ensures a in original && code[a] == original[a]
    {
      assert a in code.Keys;
      assert forall i :: 0 <= i < |hooks| ==> Disjoint(h, hooks[i]) ==> !hooks[i].Covers(a);
    }
  }

  lemma NewInPlace(code: Memory, original: Memory, target: int, jump: seq<int>)
    requires Create(code, target, jump).Some? && Mapped(original, target, |jump|)
    requires Peek(code, target, |jump|) == Peek(original, target, |jump|)
    ensures var (h, m) := Create(code, target, jump).value; InPlace(h, m, original)
    ensures var (h, m) := Create(code, target, jump).value; forall a :: a in m && !h.Covers(a) ==> m[a] == code[a]
  {
    var (h, m) := Create(code, target, jump).value;
    assert Peek(m, target, |jump|) == jump;
  }

  /** A new patch clear of every active one extends the overlay, wherever its hook is listed. */
  lemma OverlayGrows(hooks: seq<Hook>, k: nat, code: Memory, original: Memory, target: int, jump: seq<int>)
    requires Overlaid(hooks, code, original) && k < |hooks| && !hooks[k].Active()
    requires Create(code, target, jump).Some?
    requires forall i :: 0 <= i < |hooks| ==> Disjoint(Create(code, target, jump).value.0, hooks[i])
    ensures var (h, m) := Create(code, target, jump).value; Overlaid(hooks[k := h], m, original)
  {
    var (h, m) := Create(code, target, jump).value;
    UncoveredRange(hooks, code, original, h);
    NewInPlace(code, original, target, jump);
    forall i | 0 <= i < |hooks| && i != k
      ensures InPlace(hooks[i], m, original)
    {
      assert Disjoint(h, hooks[i]);
      PokeElsewhere(hooks[i], code, original, target, jump);
    }
    Replaced(hooks, k, h, code, m, original);
  }

  /** Disabling any hook of an overlay leaves an overlay. */
  lemma OverlayShrinks(hooks: seq<Hook>, k: nat, code: Memory, original: Memory, ok: bool)
    requires Overlaid(hooks, code, original) && k < |hooks|
    ensures var (h, m) := Disable(code, hooks[k], ok); Overlaid(hooks[k := h], m, original)
  {
    var (h, m) := Disable(code, hooks[k], ok);
    if hooks[k].Active() && ok {
      assert InPlace(hooks[k], code, original);
      forall i | 0 <= i < |hooks| && i != k
        ensures InPlace(hooks[i], m, original)
      {
        assert Disjoint(hooks[if i < k then i else k], hooks[if i < k then k else i]);
        PokeElsewhere(hooks[i], code, original, hooks[k].target, hooks[k].saved);
      }
      assert forall i :: 0 <= i < |hooks| && i != k ==> Disjoint(h, hooks[i]);
      Replaced(hooks, k, h, code, m, original);
    } else {
      assert hooks[k := h] == hooks;
    }
  }

  // Changing hook k, and memory only under its old or new patch.
  lemma Replaced(hooks: seq<Hook>, k: nat, h: Hook, code: Memory, m: Memory, original: Memory)
    requires Overlaid(hooks, code, original) && k < |hooks| && m.Keys == code.Keys
    requires InPlace(h, m, original) && forall i :: 0 <= i < |hooks| && i != k ==> InPlace(hooks[i], m, original) && Disjoint(h, hooks[i])
    requires forall a :: a in m && !h.Covers(a) ==> m[a] == if hooks[k].Covers(a) then original[a] else code[a]
    ensures Overlaid(hooks[k := h], m, original)
  {
    var after := hooks[k := h];
    assert forall i :: 0 <= i < |hooks| && i != k ==> after[i] == hooks[i];
    forall a | a in m && (forall i :: 0 <= i < |after| ==> !after[i].Covers(a))
      ensures m[a] == original[a]
    {
      assert !after[k].Covers(a);
      if !hooks[k].Covers(a) {
        assert forall i :: 0 <= i < |hooks| ==> i != k ==> !after[i].Covers(a);
      }
    }
    forall i, j | 0 <= i < j < |after|
      ensures Disjoint(after[i], after[j])
    {
      assert Disjoint(hooks[i], hooks[j]);
    }
  }
}
