/** Counting distinct values by counting where neighbours differ. */
module Grouping {

  // Values that differ from the value before them.
  function Transitions<T(==)>(s: seq<T>): nat {
    if s == [] then 0
    else
      var n := |s| - 1;
      Transitions(s[..n]) + if n == 0 || s[n] != s[n - 1] then 1 else 0
  }

  lemma TransitionsNext<T>(s: seq<T>, i: nat)
    requires i < |s|
    ensures Transitions(s[..i + 1]) == Transitions(s[..i]) + if i == 0 || s[i] != s[i - 1] then 1 else 0
  {
    assert s[..i + 1][..i] == s[..i];
  }

  ghost function Elements<T>(s: seq<T>): set<T> {
    set x | x in s
  }

  // Equal values stand next to each other.
  ghost predicate Grouped<T>(s: seq<T>) {
    forall i, j, k :: 0 <= i < j < k < |s| && s[i] == s[k] ==> s[i] == s[j]
  }

  ghost predicate PairwiseDifferent<T>(s: seq<T>) {
    forall i, j :: 0 <= i < j < |s| ==> s[i] != s[j]
  }

  lemma DifferentAppend<T>(s: seq<T>, x: T)
    requires PairwiseDifferent(s) && x !in s
    ensures PairwiseDifferent(s + [x])
  {
    forall i, j | 0 <= i < j < |s| + 1
      ensures (s + [x])[i] != (s + [x])[j]
    {
      assert (s + [x])[i] == s[i] && s[i] in s;
    }
  }

  lemma GroupedFront<T>(s: seq<T>, front: seq<T>, x: T)
    requires s == front + [x]
    ensures Grouped(s) <==> Grouped(front) && (x in front ==> x == front[|front| - 1])
    ensures Elements(s) == Elements(front) + {x}
  {
    var n := |front|;
    assert forall i :: 0 <= i < n ==> front[i] == s[i];
    if Grouped(s) {
      assert Grouped(front);
      if x in front {
        var i :| 0 <= i < n && front[i] == x;
        assert s[i] == s[n];
        assert s[n - 1] == x;
      }
    }
    if Grouped(front) && (x in front ==> x == front[n - 1]) {
      forall i, j, k | 0 <= i < j < k < n + 1 && s[i] == s[k]
        ensures s[i] == s[j]
      {
        if k == n && j < n - 1 {
          assert front[i] == x && x in front;
          assert front[i] == front[n - 1] && front[i] == front[j];
        } else if k == n {
          assert front[i] == x && x in front;
        } else {
          assert front[i] == front[k];
        }
      }
    }
  }

  lemma AddOne<T>(s: set<T>, x: T)
    ensures |s + {x}| == |s| + if x in s then 0 else 1
  {
    if x in s {
      assert s + {x} == s;
    }
  }

  /** Counting transitions never undercounts the distinct values, and is right exactly when
      equal values stand together. */
  lemma {:induction false} TransitionsExact<T>(s: seq<T>)
    ensures Transitions(s) >= |Elements(s)|
    ensures Transitions(s) == |Elements(s)| <==> Grouped(s)
  {
    if s == [] {
      assert Elements(s) == {};
    } else {
      var n := |s| - 1;
      var front, x := s[..n], s[n];
      assert s == front + [x];
      TransitionsExact(front);
      GroupedFront(s, front, x);
      AddOne(Elements(front), x);
    }
  }

  lemma {:induction false} ElementsAsMany<T>(s: seq<T>)
    ensures |Elements(s)| <= |s|
    ensures |Elements(s)| == |s| <==> PairwiseDifferent(s)
  {
    if s == [] {
      assert Elements(s) == {};
    } else {
      var n := |s| - 1;
      var front, x := s[..n], s[n];
      assert s == front + [x];
      ElementsAsMany(front);
      GroupedFront(s, front, x);
      AddOne(Elements(front), x);
      assert forall i :: 0 <= i < n ==> front[i] == s[i];
      if x in front {
        var i :| 0 <= i < n && front[i] == x;
        assert s[i] == s[n];
      }
    }
  }
}
