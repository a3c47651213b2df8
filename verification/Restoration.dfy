/** Disabling hooks one after the other: when that puts every byte of code memory back. The
    hooks may overlap, and be disabled in any order. */
module Restoration {
  import opened CodeMemory

  // Disabling h puts its saved byte back at this address.
  predicate Restores(h: Hook, a: int) {
    h.Active() && h.target <= a < h.target + |h.saved|
  }

  // Code memory after every hook has been disabled, in this order.
  function RestoreAll(hooks: seq<Hook>, code: Memory): (m: Memory)
    ensures m.Keys == code.Keys
  {
    if hooks == [] then code
    else
      var n := |hooks| - 1;
      Disable(RestoreAll(hooks[..n], code), hooks[n], true).1
  }

  // Hook i is the last in order over this address.
  ghost predicate LastOver(hooks: seq<Hook>, i: nat, a: int) {
    i < |hooks| && Restores(hooks[i], a) && forall j :: i < j < |hooks| ==> !Restores(hooks[j], a)
  }

  ghost predicate Uncovered(hooks: seq<Hook>, a: int) {
    forall i :: 0 <= i < |hooks| ==> !Restores(hooks[i], a)
  }

  // The byte an address ends with is the original one: the last hook over it saved that
  // byte, or no hook is over it and it has that byte already.
  ghost predicate EndsOriginal(hooks: seq<Hook>, code: Memory, original: Memory, a: int)
    requires a in original && a in code
  {
    && (forall i: nat :: LastOver(hooks, i, a) ==> hooks[i].saved[a - hooks[i].target] == original[a])
    && (Uncovered(hooks, a) ==> code[a] == original[a])
  }

  /** The last active hook over each address saved the original byte. */
  ghost predicate Recoverable(hooks: seq<Hook>, code: Memory, original: Memory)
    requires code.Keys == original.Keys
  {
    forall a :: a in original ==> a in code && EndsOriginal(hooks, code, original, a)
  }

  lemma LastOfMore(hooks: seq<Hook>, h: Hook, a: int)
    ensures Restores(h, a) ==> forall i: nat :: LastOver(hooks + [h], i, a) <==> i == |hooks|
    ensures !Restores(h, a) ==> forall i: nat :: LastOver(hooks + [h], i, a) <==> LastOver(hooks, i, a)
    ensures Uncovered(hooks + [h], a) <==> Uncovered(hooks, a) && !Restores(h, a)
  {
    var all := hooks + [h];
    assert all[|hooks|] == h && forall j :: 0 <= j < |hooks| ==> all[j] == hooks[j];
    if !Restores(h, a) {
      forall i: nat
        ensures LastOver(all, i, a) <==> LastOver(hooks, i, a)
      {
        if LastOver(all, i, a) {
          assert i != |hooks|;
        }
      }
    }
  }

  lemma {:induction false} RestoredAt(hooks: seq<Hook>, code: Memory, original: Memory, a: int)
    requires a in code && a in original
    ensures a in RestoreAll(hooks, code)
    ensures RestoreAll(hooks, code)[a] == original[a] <==> EndsOriginal(hooks, code, original, a)
  {
    assert a in RestoreAll(hooks, code).Keys;
    if hooks == [] {
      assert Uncovered(hooks, a);
    } else {
      var n := |hooks| - 1;
      RestoredAt(hooks[..n], code, original, a);
      LastOfMore(hooks[..n], hooks[n], a);
      assert hooks == hooks[..n] + [hooks[n]];
      AtStep(hooks[..n], hooks[n], code, a);
      if Restores(hooks[n], a) {
        assert LastOver(hooks, n, a);
      }
    }
  }

  lemma AtStep(hooks: seq<Hook>, h: Hook, code: Memory, a: int)
    requires a in code
    ensures var m := RestoreAll(hooks, code);
            a in m && Disable(m, h, true).1[a] == if Restores(h, a) then h.saved[a - h.target] else m[a]
  {
    assert a in RestoreAll(hooks, code).Keys;
  }

  /** Whatever the hooks and the order, disabling them all puts everything back exactly if the
      last active hook over each address saved the original byte. */
  lemma RestoresExactly(hooks: seq<Hook>, code: Memory, original: Memory)
    requires code.Keys == original.Keys
    ensures RestoreAll(hooks, code) == original <==> Recoverable(hooks, code, original)
  {
    var m := RestoreAll(hooks, code);
    forall a | a in original
      ensures a in code && a in m && (m[a] == original[a] <==> EndsOriginal(hooks, code, original, a))
    {
      assert a in code.Keys;
      RestoredAt(hooks, code, original, a);
    }
    assert m.Keys == original.Keys;
    if Recoverable(hooks, code, original) {
      forall a | a in original
        ensures m[a] == original[a]
      {
        assert a in code && EndsOriginal(hooks, code, original, a);
      }
      assert m == original;
    }
  }

  /** Disjoint patches in place are recoverable. */
  lemma OverlaidRecoverable(hooks: seq<Hook>, code: Memory, original: Memory)
    requires Overlaid(hooks, code, original)
    ensures Recoverable(hooks, code, original)
  {
    forall a | a in original
      ensures a in code && EndsOriginal(hooks, code, original, a)
    {
      assert a in code.Keys;
      forall i | 0 <= i < |hooks|
        ensures Restores(hooks[i], a) <==> hooks[i].Covers(a)
        ensures Restores(hooks[i], a) ==> hooks[i].saved[a - hooks[i].target] == original[a]
      {
        assert InPlace(hooks[i], code, original);
      }
    }
  }

  lemma {:induction false} RestoreInTwo(a: seq<Hook>, b: seq<Hook>, code: Memory)
    ensures RestoreAll(a + b, code) == RestoreAll(b, RestoreAll(a, code))
    decreases |b|
  {
    if b == [] {
      assert a + b == a;
    } else {
      var n := |b| - 1;
      RestoreInTwo(a, b[..n], code);
      assert (a + b)[..|a| + n] == a + b[..n] && (a + b)[|a| + n] == b[n];
    }
  }

  lemma RestoreTwo(g: Hook, h: Hook, code: Memory)
    ensures RestoreAll([g, h], code) == Disable(Disable(code, g, true).1, h, true).1
  {
    assert [g, h][..1] == [g] && [g][..0] == [];
    assert RestoreAll([g], code) == Disable(code, g, true).1;
  }

  // ---- two hooks, one patched over the other ------------------------------------------------

  ghost predicate Stackable(original: Memory, t: int, first: seq<int>, u: int, second: seq<int>) {
    first != [] && second != [] && Mapped(original, t, |first|) && Mapped(original, u, |second|)
  }

  // Wherever the second patch lies over the first, the first had left the original byte.
  ghost predicate Harmless(original: Memory, t: int, first: seq<int>, u: int, second: seq<int>)
    requires Stackable(original, t, first, u, second)
  {
    forall a :: t <= a < t + |first| && u <= a < u + |second| ==> first[a - t] == original[a]
  }

  function LowerHook(original: Memory, t: int, first: seq<int>): Hook
    requires Mapped(original, t, |first|)
  {
    Hook(t, Peek(original, t, |first|), first, true)
  }

  function UpperHook(original: Memory, t: int, first: seq<int>, u: int, second: seq<int>): Hook
    requires Stackable(original, t, first, u, second)
  {
    Hook(u, Peek(Poke(original, t, first), u, |second|), second, true)
  }

  // Memory under both patches.
  function Stacked(original: Memory, t: int, first: seq<int>, u: int, second: seq<int>): Memory {
    Poke(Poke(original, t, first), u, second)
  }

  // Which of two hooks is the last over an address.
  lemma LastOfTwo(g: Hook, h: Hook, a: int)
    ensures forall i: nat :: LastOver([g, h], i, a) <==> (i == 1 && Restores(h, a)) || (i == 0 && Restores(g, a) && !Restores(h, a))
    ensures Uncovered([g, h], a) <==> !Restores(g, a) && !Restores(h, a)
  {
    var hs := [g, h];
    assert hs[0] == g && hs[1] == h;
  }

  lemma TwoEndOriginal(g: Hook, h: Hook, code: Memory, original: Memory, a: int)
    requires a in code && a in original
    ensures EndsOriginal([g, h], code, original, a) <==>
            original[a] == if Restores(h, a) then h.saved[a - h.target] else if Restores(g, a) then g.saved[a - g.target] else code[a]
  {
    LastOfTwo(g, h, a);
    var hs := [g, h];
    if Restores(h, a) {
      assert LastOver(hs, 1, a);
    } else if Restores(g, a) {
      assert LastOver(hs, 0, a);
    }
  }

  lemma StackedAt(original: Memory, t: int, first: seq<int>, u: int, second: seq<int>, a: int)
    requires Stackable(original, t, first, u, second) && a in original
    ensures var (g, h) := (LowerHook(original, t, first), UpperHook(original, t, first, u, second));
            && a in Stacked(original, t, first, u, second)
            && (Restores(g, a) <==> t <= a < t + |first|) && (Restores(h, a) <==> u <= a < u + |second|)
            && (Restores(g, a) ==> g.saved[a - t] == original[a])
            && (Restores(h, a) ==> h.saved[a - u] == if Restores(g, a) then first[a - t] else original[a])
            && (!Restores(g, a) && !Restores(h, a) ==> Stacked(original, t, first, u, second)[a] == original[a])
  {
    assert a in Stacked(original, t, first, u, second).Keys;
    assert a in Poke(original, t, first).Keys;
  }

  lemma InOrderAt(original: Memory, t: int, first: seq<int>, u: int, second: seq<int>, a: int)
    requires Stackable(original, t, first, u, second) && a in original
    ensures a in Stacked(original, t, first, u, second)
    ensures EndsOriginal([LowerHook(original, t, first), UpperHook(original, t, first, u, second)], Stacked(original, t, first, u, second), original, a)
            <==> (t <= a < t + |first| && u <= a < u + |second| ==> first[a - t] == original[a])
  {
    StackedAt(original, t, first, u, second, a);
    TwoEndOriginal(LowerHook(original, t, first), UpperHook(original, t, first, u, second), Stacked(original, t, first, u, second), original, a);
  }

  lemma InReverseAt(original: Memory, t: int, first: seq<int>, u: int, second: seq<int>, a: int)
    requires Stackable(original, t, first, u, second) && a in original
    ensures a in Stacked(original, t, first, u, second)
    ensures EndsOriginal([UpperHook(original, t, first, u, second), LowerHook(original, t, first)], Stacked(original, t, first, u, second), original, a)
  {
    StackedAt(original, t, first, u, second, a);
    TwoEndOriginal(UpperHook(original, t, first, u, second), LowerHook(original, t, first), Stacked(original, t, first, u, second), original, a);
  }

  lemma InOrderRecoverable(original: Memory, t: int, first: seq<int>, u: int, second: seq<int>, hooks: seq<Hook>, code: Memory)
    requires Stackable(original, t, first, u, second) && code == Stacked(original, t, first, u, second)
    requires hooks == [LowerHook(original, t, first), UpperHook(original, t, first, u, second)]
    ensures code.Keys == original.Keys
    ensures Recoverable(hooks, code, original) <==> Harmless(original, t, first, u, second)
  {
    forall a | a in original
      ensures a in code
      ensures EndsOriginal(hooks, code, original, a) <==> (t <= a < t + |first| && u <= a < u + |second| ==> first[a - t] == original[a])
    {
      InOrderAt(original, t, first, u, second, a);
    }
  }

  /** Disabled in the order of installation, two hooks leave the lower one's jump behind under
      the upper one's range, unless it is harmless there. */
  lemma InOrderExactly(original: Memory, t: int, first: seq<int>, u: int, second: seq<int>)
    requires Stackable(original, t, first, u, second)
    ensures RestoreAll([LowerHook(original, t, first), UpperHook(original, t, first, u, second)], Stacked(original, t, first, u, second)) == original
            <==> Harmless(original, t, first, u, second)
  {
    var hooks, code := [LowerHook(original, t, first), UpperHook(original, t, first, u, second)], Stacked(original, t, first, u, second);
    InOrderRecoverable(original, t, first, u, second, hooks, code);
    RestoresExactly(hooks, code, original);
  }

  /** Disabled in reverse order, they leave nothing behind. */
  lemma InReverseAlways(original: Memory, t: int, first: seq<int>, u: int, second: seq<int>)
    requires Stackable(original, t, first, u, second)
    ensures RestoreAll([UpperHook(original, t, first, u, second), LowerHook(original, t, first)], Stacked(original, t, first, u, second)) == original
  {
    var hooks, code := [UpperHook(original, t, first, u, second), LowerHook(original, t, first)], Stacked(original, t, first, u, second);
    forall a | a in original
      ensures a in code && EndsOriginal(hooks, code, original, a)
    {
      InReverseAt(original, t, first, u, second, a);
    }
    RestoresExactly(hooks, code, original);
  }
}
