/** Lookup by name in the game database: the engine's binary search on a stored hash,
    and the diagnostics that say when that search can be trusted. */
module NameIndexing {
  import opened Options
  import opened NameHash
  import opened Grouping

  // One record (or category): the name its reader returns, empty when that read fails,
  // and its stored hash.
  datatype Entry = Entry(name: Name, hash: Option<Word>)

  // An array of entries. Not mapped: the array's base pointer is null or unreadable.
  datatype Index = Index(mapped: bool, entries: seq<Entry>)

  function At(c: Index, i: nat): Option<Entry> {
    if i < |c.entries| && c.mapped then Some(c.entries[i]) else None
  }

  function NameAt(c: Index, i: nat): Name {
    if At(c, i).Some? then c.entries[i].name else []
  }

  function Key(c: Index, i: nat): Option<Word> {
    if At(c, i).Some? then c.entries[i].hash else None
  }

  function Keys(c: Index): (keys: seq<Option<Word>>)
    ensures |keys| == |c.entries| && forall i :: 0 <= i < |keys| ==> keys[i] == Key(c, i)
  {
    seq(|c.entries|, i requires 0 <= i < |c.entries| => Key(c, i))
  }

  // ---- the binary search -----------------------------------------------------------

  function Search(keys: seq<Option<Word>>, want: Word, lo: nat, hi: nat): Option<nat>
    requires lo <= hi <= |keys|
    decreases hi - lo
  {
    if lo == hi then None
    else
      var mid := lo + (hi - lo) / 2;
      if keys[mid].None? then None
      else if keys[mid].value == want then Some(mid)
      else if keys[mid].value < want then Search(keys, want, mid + 1, hi)
      else Search(keys, want, lo, mid)
  }

  method BinarySearchByHash(keys: seq<Option<Word>>, want: Word) returns (r: Option<nat>)
    ensures r == Search(keys, want, 0, |keys|)
    ensures r.Some? ==> r.value < |keys| && keys[r.value] == Some(want)
  {
    var lo, hi := 0, |keys|;
    while lo < hi
      invariant 0 <= lo <= hi <= |keys|
      invariant Search(keys, want, lo, hi) == Search(keys, want, 0, |keys|)
    {
      var mid := lo + (hi - lo) / 2;
      var key := keys[mid];
      if key.None? {
        return None;
      }
      if key.value == want {
        return Some(mid);
      }
      if key.value < want {
        lo := mid + 1;
      } else {
        hi := mid;
      }
    }
    r := None;
  }

  ghost predicate Ascending(keys: seq<Option<Word>>) {
    && (forall i :: 0 <= i < |keys| ==> keys[i].Some?)
    && (forall i, j :: 0 <= i < j < |keys| ==> keys[i].Some? && keys[j].Some? && keys[i].value <= keys[j].value)
  }

  lemma {:induction false} SearchSound(keys: seq<Option<Word>>, want: Word, lo: nat, hi: nat)
    requires lo <= hi <= |keys|
    ensures var r := Search(keys, want, lo, hi); r.Some? ==> lo <= r.value < hi && keys[r.value] == Some(want)
    decreases hi - lo
  {
    if lo < hi {
      var mid := lo + (hi - lo) / 2;
      SearchSound(keys, want, mid + 1, hi);
      SearchSound(keys, want, lo, mid);
    }
  }

  /** Over ascending keys the search finds a key exactly when it is there. */
  lemma {:induction false} SearchComplete(keys: seq<Option<Word>>, want: Word, lo: nat, hi: nat)
    requires lo <= hi <= |keys| && Ascending(keys)
    ensures Search(keys, want, lo, hi).Some? <==> exists i :: lo <= i < hi && keys[i] == Some(want)
    decreases hi - lo
  {
    SearchSound(keys, want, lo, hi);
    if lo < hi {
      var mid := lo + (hi - lo) / 2;
      SearchComplete(keys, want, mid + 1, hi);
      SearchComplete(keys, want, lo, mid);
    }
  }

  // ---- lookup ----------------------------------------------------------------------

  function Find(table: FoldTable, c: Index, name: Name): Option<nat> {
    var want := Hash(table, name);
    if want.None? || |c.entries| == 0 || !c.mapped then None
    else
      var hit := Search(Keys(c), want.value, 0, |c.entries|);
      if hit.Some? && NameAt(c, hit.value) != name then None else hit
  }

  /** The lookup by name. On any data at all, sorted or not, what it returns carries the
      name asked for. */
  method FindRecord(table: FoldTable, c: Index, name: Name) returns (r: Option<nat>)
    ensures r == Find(table, c, name)
    ensures r.Some? ==> r.value < |c.entries| && c.entries[r.value].name == name
  {
    var want := HashName(table, name);
    if want.None? {
      return None;
    }
    if |c.entries| == 0 || !c.mapped {
      return None;
    }
    r := BinarySearchByHash(Keys(c), want.value);
    if r.Some? && NameAt(c, r.value) != name {
      r := None;
    }
  }

  // What a linear scan over the names would answer.
  ghost predicate HasName(c: Index, name: Name) {
    exists i :: 0 <= i < |c.entries| && c.entries[i].name == name
  }

  // ---- diagnostic 1: is the array sorted by hash? ----------------------------------------

  method RecordsSortedByHash(c: Index) returns (r: bool)
    ensures r <==> Ascending(Keys(c))
  {
    var prev: Word, first := 0, true;
    for i := 0 to |c.entries|
      invariant first <==> i == 0
      invariant i > 0 ==> Key(c, i - 1) == Some(prev)
      invariant Ascending(Keys(c)[..i])
    {
      var rec := At(c, i);
      if rec.None? || rec.value.hash.None? {
        assert Keys(c)[i].None?;
        return false;
      }
      var h := rec.value.hash.value;
      if !first && h < prev {
        assert Keys(c)[i - 1] == Some(prev) && Keys(c)[i] == Some(h);
        return false;
      }
      assert Keys(c)[..i + 1] == Keys(c)[..i] + [Some(h)];
      prev := h;
      first := false;
    }
    assert Keys(c)[..|c.entries|] == Keys(c);
    r := true;
  }

  // ---- diagnostic 2: does every stored hash agree with its name? -------------------------

  function HashMatches(table: FoldTable, rec: Option<Entry>): Option<bool> {
    if rec.None? || rec.value.name == [] || Hash(table, rec.value.name).None? || rec.value.hash.None? then None
    else Some(rec.value.hash == Hash(table, rec.value.name))
  }

  datatype HashAgreement = HashAgreement(compared: nat, agreeing: nat, skipped: nat) {
    predicate Unanimous() {
      compared > 0 && agreeing == compared
    }
  }

  // The tally over the first n entries of c, added to start.
  function Tally(table: FoldTable, c: Index, n: nat, start: HashAgreement): HashAgreement {
    if n == 0 then start
    else
      var t := Tally(table, c, n - 1, start);
      match HashMatches(table, At(c, n - 1))
      case None => t.(skipped := t.skipped + 1)
      case Some(ok) => t.(compared := t.compared + 1, agreeing := t.agreeing + if ok then 1 else 0)
  }

  function TallyAll(table: FoldTable, db: seq<Index>, m: nat): HashAgreement
    requires m <= |db|
  {
    if m == 0 then HashAgreement(0, 0, 0)
    else Tally(table, db[m - 1], |db[m - 1].entries|, TallyAll(table, db, m - 1))
  }

  method RecordHashAgreement(table: FoldTable, db: seq<Index>) returns (r: HashAgreement)
    ensures r == TallyAll(table, db, |db|)
  {
    var compared, agreeing, skipped := 0, 0, 0;
    for i := 0 to |db|
      invariant HashAgreement(compared, agreeing, skipped) == TallyAll(table, db, i)
    {
      var c := db[i];
      for j := 0 to |c.entries|
        invariant HashAgreement(compared, agreeing, skipped) == Tally(table, c, j, TallyAll(table, db, i))
      {
        var ok := HashMatches(table, At(c, j));
        if ok.None? {
          skipped := skipped + 1;
          continue;
        }
        compared := compared + 1;
        if ok.value {
          agreeing := agreeing + 1;
        }
      }
    }
    r := HashAgreement(compared, agreeing, skipped);
  }

  // Every entry's name and hash can be read, and they agree.
  ghost predicate Agrees(table: FoldTable, c: Index) {
    forall i :: 0 <= i < |c.entries| ==> HashMatches(table, At(c, i)) == Some(true)
  }

  lemma {:induction false} TallyClean(table: FoldTable, c: Index, n: nat, start: HashAgreement)
    requires n <= |c.entries| && start.agreeing <= start.compared
    ensures var t := Tally(table, c, n, start);
            && t.compared + t.skipped == start.compared + start.skipped + n
            && t.agreeing <= t.compared
            && (t.skipped == 0 && t.agreeing == t.compared <==>
                && start.skipped == 0 && start.agreeing == start.compared
                && forall i :: 0 <= i < n ==> HashMatches(table, At(c, i)) == Some(true))
  {
    if n > 0 {
      TallyClean(table, c, n - 1, start);
    }
  }

  /** Nothing skipped and everything agreeing means exactly that every entry agrees. */
  lemma {:induction false} TallyAllClean(table: FoldTable, db: seq<Index>, m: nat)
    requires m <= |db|
    ensures var t := TallyAll(table, db, m);
            && t.agreeing <= t.compared
            && (t.skipped == 0 && t.agreeing == t.compared <==> forall i :: 0 <= i < m ==> Agrees(table, db[i]))
  {
    if m > 0 {
      TallyAllClean(table, db, m - 1);
      TallyClean(table, db[m - 1], |db[m - 1].entries|, TallyAll(table, db, m - 1));
    }
  }

  function Entries(db: seq<Index>, m: nat): nat
    requires m <= |db|
  {
    if m == 0 then 0 else Entries(db, m - 1) + |db[m - 1].entries|
  }

  lemma {:induction false} TallyAllCounts(table: FoldTable, db: seq<Index>, m: nat)
    requires m <= |db|
    ensures var t := TallyAll(table, db, m); t.compared + t.skipped == Entries(db, m)
  {
    if m > 0 {
      TallyAllCounts(table, db, m - 1);
      TallyAllClean(table, db, m - 1);
      TallyClean(table, db[m - 1], |db[m - 1].entries|, TallyAll(table, db, m - 1));
    }
  }

  /** Every entry is either compared or skipped, so a unanimous tally without skips means that there are
      entries, and that all of them agree. */
  lemma UnanimousExactly(table: FoldTable, db: seq<Index>)
    ensures var t := TallyAll(table, db, |db|);
            && t.compared + t.skipped == Entries(db, |db|)
            && (t.skipped == 0 && t.Unanimous() <==>
                 Entries(db, |db|) > 0 && forall i :: 0 <= i < |db| ==> Agrees(table, db[i]))
  {
    TallyAllCounts(table, db, |db|);
    TallyAllClean(table, db, |db|);
  }

  // ---- diagnostic 3: do differently named neighbours share a hash? ---------------------------

  datatype CollisionReport = CollisionReport(names: nat, collisions: nat, duplicates: nat)

  // The entries the scan examines: those whose hash can be read.
  function Readable(c: Index, n: nat): seq<Entry>
    requires n <= |c.entries|
  {
    if n == 0 then []
    else if Key(c, n - 1).None? then Readable(c, n - 1)
    else Readable(c, n - 1) + [c.entries[n - 1]]
  }

  // Adjacent pairs sharing a hash, with the same name or with different names.
  function Neighbours(s: seq<Entry>, sameName: bool): nat {
    if |s| < 2 then 0
    else
      var a, b := s[|s| - 2], s[|s| - 1];
      Neighbours(s[..|s| - 1], sameName) + if a.hash == b.hash && (a.name == b.name) == sameName then 1 else 0
  }

  function ReportAll(db: seq<Index>, m: nat): CollisionReport
    requires m <= |db|
  {
    if m == 0 then CollisionReport(0, 0, 0)
    else Add(ReportAll(db, m - 1), Readable(db[m - 1], |db[m - 1].entries|))
  }

  function Add(r: CollisionReport, s: seq<Entry>): CollisionReport {
    CollisionReport(r.names + |s|, r.collisions + Neighbours(s, false), r.duplicates + Neighbours(s, true))
  }

  lemma AddNext(r: CollisionReport, s: seq<Entry>, e: Entry)
    ensures var (was, next) := (Add(r, s), Add(r, s + [e]));
            var pair := s != [] && s[|s| - 1].hash == e.hash;
            && next.names == was.names + 1
            && next.collisions == was.collisions + (if pair && s[|s| - 1].name != e.name then 1 else 0)
            && next.duplicates == was.duplicates + (if pair && s[|s| - 1].name == e.name then 1 else 0)
  {
    assert (s + [e])[..|s|] == s;
  }

  lemma ReadableNext(c: Index, j: nat)
    requires j < |c.entries|
    ensures var s := Readable(c, j);
            Readable(c, j + 1) == if At(c, j).None? || At(c, j).value.hash.None? then s else s + [c.entries[j]]
  {
  }

  // The scan over one category, added to what was counted before.
  method ScanCategory(c: Index, start: CollisionReport) returns (r: CollisionReport)
    ensures r == Add(start, Readable(c, |c.entries|))
  {
    var names, collisions, duplicates := start.names, start.collisions, start.duplicates;
    var prevName: Name, prevHash: Word, havePrev := [], 0, false;
    for j := 0 to |c.entries|
      invariant CollisionReport(names, collisions, duplicates) == Add(start, Readable(c, j))
      invariant havePrev <==> Readable(c, j) != []
      invariant havePrev ==> var last := Readable(c, j)[|Readable(c, j)| - 1]; last == Entry(prevName, Some(prevHash))
    {
      var rec := At(c, j);
      ReadableNext(c, j);
      if rec.None? || rec.value.hash.None? {
        continue;
      }
      AddNext(start, Readable(c, j), c.entries[j]);
      var h := rec.value.hash.value;
      var name := rec.value.name;
      names := names + 1;
      if havePrev && h == prevHash {
        if name == prevName {
          duplicates := duplicates + 1;
        } else {
          collisions := collisions + 1;
        }
      }
      prevHash, prevName, havePrev := h, name, true;
    }
    r := CollisionReport(names, collisions, duplicates);
  }

  method HashCollisions(db: seq<Index>) returns (r: CollisionReport)
    ensures r == ReportAll(db, |db|)
  {
    r := CollisionReport(0, 0, 0);
    for i := 0 to |db|
      invariant r == ReportAll(db, i)
    {
      r := ScanCategory(db[i], r);
    }
  }

  lemma {:induction false} ReportAllZero(db: seq<Index>, m: nat)
    requires m <= |db|
    ensures ReportAll(db, m).collisions == 0 <==> forall i :: 0 <= i < m ==> CollisionFree(db[i])
  {
    if m > 0 {
      ReportAllZero(db, m - 1);
    }
  }

  ghost predicate CollisionFree(c: Index) {
    Neighbours(Readable(c, |c.entries|), false) == 0
  }

  lemma {:induction false} ReadableAll(c: Index, n: nat)
    requires n <= |c.entries| && forall i :: 0 <= i < n ==> Key(c, i).Some?
    ensures Readable(c, n) == c.entries[..n]
  {
    if n > 0 {
      ReadableAll(c, n - 1);
      assert c.entries[..n] == c.entries[..n - 1] + [c.entries[n - 1]];
    }
  }

  lemma {:induction false} NeighboursZero(s: seq<Entry>)
    ensures Neighbours(s, false) == 0 <==> forall i :: 0 < i < |s| ==> s[i - 1].hash == s[i].hash ==> s[i - 1].name == s[i].name
  {
    if |s| >= 2 {
      var front := s[..|s| - 1];
      NeighboursZero(front);
      assert forall i :: 0 <= i < |front| ==> front[i] == s[i];
      assert s[|s| - 1 - 1] == s[|s| - 2];
    }
  }

  // ---- the certificate ----------------------------------------------------------------

  // Sorted by hash, and every hash readable and agreeing with its readable name.
  ghost predicate Sound(table: FoldTable, c: Index) {
    Ascending(Keys(c)) && Agrees(table, c)
  }

  // In a sound index the scan sees every entry.
  lemma SoundScan(table: FoldTable, c: Index)
    requires Sound(table, c)
    ensures Readable(c, |c.entries|) == c.entries
    ensures forall i :: 0 <= i < |c.entries| ==> c.mapped && c.entries[i].hash == Hash(table, c.entries[i].name) && c.entries[i].hash.Some?
    ensures forall i, j :: 0 <= i < j < |c.entries| ==> c.entries[i].hash.value <= c.entries[j].hash.value
  {
    assert forall i :: 0 <= i < |c.entries| ==> Keys(c)[i].Some?;
    ReadableAll(c, |c.entries|);
    assert c.entries[..|c.entries|] == c.entries;
    forall i | 0 <= i < |c.entries|
      ensures c.mapped && c.entries[i].hash == Hash(table, c.entries[i].name) && c.entries[i].hash.Some?
    {
      assert HashMatches(table, At(c, i)) == Some(true);
    }
    forall i, j | 0 <= i < j < |c.entries|
      ensures c.entries[i].hash.value <= c.entries[j].hash.value
    {
      assert Keys(c)[i].value <= Keys(c)[j].value;
    }
  }

  /** Sortedness carries the adjacent-only scan to all pairs: without a reported collision,
      any two entries sharing a hash share their name. */
  lemma {:induction false} NoCollisionAnywhere(table: FoldTable, c: Index, i: nat, j: nat)
    requires Sound(table, c) && CollisionFree(c)
    requires i <= j < |c.entries| && c.entries[i].hash == c.entries[j].hash
    ensures forall k :: i <= k <= j ==> c.entries[k].name == c.entries[i].name
    decreases j - i
  {
    SoundScan(table, c);
    NeighboursZero(c.entries);
    if i < j {
      assert c.entries[j - 1].hash == c.entries[j].hash;
      NoCollisionAnywhere(table, c, i, j - 1);
    }
  }

  lemma SearchInSound(table: FoldTable, c: Index, name: Name)
    requires Sound(table, c)
    ensures Find(table, c, name).Some? ==> HasName(c, name)
    ensures HasName(c, name) ==>
              && Hash(table, name).Some?
              && var hit := Search(Keys(c), Hash(table, name).value, 0, |c.entries|);
              && hit.Some? && hit.value < |c.entries|
              && c.entries[hit.value].hash == Hash(table, name)
              && (Find(table, c, name).Some? <==> c.entries[hit.value].name == name)
  {
    SoundScan(table, c);
    var want := Hash(table, name);
    if want.Some? {
      SearchSound(Keys(c), want.value, 0, |c.entries|);
      SearchComplete(Keys(c), want.value, 0, |c.entries|);
    }
    if HasName(c, name) {
      var i :| 0 <= i < |c.entries| && c.entries[i].name == name;
      assert Keys(c)[i] == want;
    }
  }

  // A collision makes one of the two names unfindable.
  lemma CollisionHidesAName(table: FoldTable, c: Index) returns (lost: Name)
    requires Sound(table, c) && !CollisionFree(c)
    ensures HasName(c, lost) && Find(table, c, lost).None?
  {
    SoundScan(table, c);
    NeighboursZero(c.entries);
    var i :| 0 < i < |c.entries| && c.entries[i - 1].hash == c.entries[i].hash && c.entries[i - 1].name != c.entries[i].name;
    var a, b := c.entries[i - 1].name, c.entries[i].name;
    SearchInSound(table, c, a);
    SearchInSound(table, c, b);
    lost := if Find(table, c, a).None? then a else b;
  }

  /** In a sorted index whose hashes all agree, lookup answers every query as a linear
      scan would exactly when the adjacent-only scan reports no collision. */
  lemma CertificateExact(table: FoldTable, c: Index)
    requires Sound(table, c)
    ensures CollisionFree(c) <==> forall name :: Find(table, c, name).Some? <==> HasName(c, name)
  {
    forall name
      ensures Find(table, c, name).Some? ==> HasName(c, name)
      ensures CollisionFree(c) && HasName(c, name) ==> Find(table, c, name).Some?
    {
      SearchInSound(table, c, name);
      if CollisionFree(c) && HasName(c, name) {
        SoundScan(table, c);
        var i :| 0 <= i < |c.entries| && c.entries[i].name == name;
        var m := Search(Keys(c), Hash(table, name).value, 0, |c.entries|).value;
        NoCollisionAnywhere(table, c, if i < m then i else m, if i < m then m else i);
      }
    }
    if !CollisionFree(c) {
      var lost := CollisionHidesAName(table, c);
    }
  }

  /** The three database-wide measurements together certify lookup in every category. */
  lemma DatabaseCertificate(table: FoldTable, db: seq<Index>)
    requires forall i :: 0 <= i < |db| ==> Ascending(Keys(db[i]))
    requires TallyAll(table, db, |db|).Unanimous() && TallyAll(table, db, |db|).skipped == 0
    requires ReportAll(db, |db|).collisions == 0
    ensures forall i, name :: 0 <= i < |db| ==> (Find(table, db[i], name).Some? <==> HasName(db[i], name))
  {
    TallyAllClean(table, db, |db|);
    ReportAllZero(db, |db|);
    forall i, name | 0 <= i < |db|
      ensures Find(table, db[i], name).Some? <==> HasName(db[i], name)
    {
      CertificateExact(table, db[i]);
    }
  }

  // ---- none of the three measurements can be dropped -------------------------------------

  const Plain: FoldTable := Some(map b: Byte | 0 <= b < 256 :: b)

  /** Unsorted, every hash right, no collision: a present name is not found. */
  lemma SortednessNeeded() returns (c: Index)
    ensures Agrees(Plain, c) && CollisionFree(c) && HasName(c, [9]) && Find(Plain, c, [9]).None?
  {
    c := Index(true, [Entry([9], Some(9)), Entry([5], Some(5)), Entry([3], Some(3))]);
    forall d: Byte
      ensures Hash(Plain, [d]) == Some(d)
    {
      assert [d][1..] == [];
      assert d in Plain.value && Plain.value[d] == d;
      assert HashFrom(Plain, 0, [d]) == HashFrom(Plain, d, []);
    }
    ReadableAll(c, 3);
    NeighboursZero(c.entries);
    assert c.entries[..3] == c.entries && c.entries[0].name == [9];
    var keys := Keys(c);
    assert keys == [Some(9), Some(5), Some(3)];
    assert Search(keys, 9, 0, 3) == Search(keys, 9, 2, 3) == Search(keys, 9, 3, 3);
  }

  /** Sorted and collision-free with a stale hash: a present name is not found. */
  lemma AgreementNeeded() returns (c: Index)
    ensures Ascending(Keys(c)) && CollisionFree(c) && HasName(c, [1]) && Find(Plain, c, [1]).None?
  {
    c := Index(true, [Entry([1], Some(7))]);
    assert [1][1..] == [];
    assert Hash(Plain, [1]) == Some(1);
    assert c.entries[0].name == [1];
    var keys := Keys(c);
    assert keys == [Some(7)];
    assert Search(keys, 1, 0, 1) == Search(keys, 1, 0, 0);
  }

  // ---- counting distinct names ------------------------------------------------------------

  function Names(c: Index): (names: seq<Name>)
    ensures |names| == |c.entries| && forall i :: 0 <= i < |names| ==> names[i] == NameAt(c, i)
  {
    seq(|c.entries|, i requires 0 <= i < |c.entries| => NameAt(c, i))
  }

  method DistinctNameCount(c: Index) returns (distinct: nat)
    ensures distinct == Transitions(Names(c))
  {
    if |c.entries| == 0 {
      return 0;
    }
    distinct := 0;
    ghost var names := Names(c);
    var prev: Name, havePrev := [], false;
    for i := 0 to |c.entries|
      invariant havePrev <==> i > 0
      invariant i > 0 ==> prev == names[i - 1]
      invariant distinct == Transitions(names[..i])
    {
      var name := NameAt(c, i);
      TransitionsNext(names, i);
      if !havePrev || name != prev {
        distinct := distinct + 1;
      }
      prev, havePrev := name, true;
    }
    assert names[..|c.entries|] == names;
  }

  method NameIsUniqueKey(c: Index) returns (r: bool)
    ensures r <==> Transitions(Names(c)) == |c.entries|
  {
    if |c.entries| == 0 {
      return true;
    }
    var distinct := DistinctNameCount(c);
    r := distinct == |c.entries|;
  }

  /** On a sorted, agreeing, collision-free index the transition count is the number of
      distinct names, and equals the record count exactly when no two names are equal. */
  lemma DistinctNamesExact(table: FoldTable, c: Index)
    requires Sound(table, c) && CollisionFree(c)
    ensures Transitions(Names(c)) == |Elements(Names(c))|
    ensures Transitions(Names(c)) == |c.entries| <==> PairwiseDifferent(Names(c))
  {
    SoundScan(table, c);
    var names, n := Names(c), |c.entries|;
    forall i, j, k | 0 <= i < j < k < n && names[i] == names[k]
      ensures names[i] == names[j]
    {
      NoCollisionAnywhere(table, c, i, k);
    }
    TransitionsExact(names);
    ElementsAsMany(names);
  }

  // ---- both levels -------------------------------------------------------------------------

  // A database: its category index and, beside each category, that category's records.
  datatype Database = Database(categories: Index, records: seq<Index>)

  function FindInDatabase(table: FoldTable, db: Database, category: Name, name: Name): Option<(nat, nat)>
    requires |db.records| == |db.categories.entries|
  {
    var c := Find(table, db.categories, category);
    if c.None? || c.value >= |db.records| then None
    else
      var r := Find(table, db.records[c.value], name);
      if r.None? then None else Some((c.value, r.value))
  }

  lemma FindNeverWrong(table: FoldTable, c: Index, name: Name)
    ensures var r := Find(table, c, name); r.Some? ==> r.value < |c.entries| && c.entries[r.value].name == name
  {
    if Hash(table, name).Some? {
      SearchSound(Keys(c), Hash(table, name).value, 0, |c.entries|);
    }
  }

  /** On any data a two-level hit names both levels correctly. */
  lemma FindInDatabaseNeverWrong(table: FoldTable, db: Database, category: Name, name: Name)
    requires |db.records| == |db.categories.entries|
    ensures var r := FindInDatabase(table, db, category, name);
            r.Some? ==> && r.value.0 < |db.records| && db.categories.entries[r.value.0].name == category
                        && r.value.1 < |db.records[r.value.0].entries| && db.records[r.value.0].entries[r.value.1].name == name
  {
    FindNeverWrong(table, db.categories, category);
    var c := Find(table, db.categories, category);
    if c.Some? {
      FindNeverWrong(table, db.records[c.value], name);
    }
  }

  /** With both levels sound and collision-free and category names unique, there is a hit
      exactly when some category of that name holds a record of that name. */
  lemma FindInDatabaseExact(table: FoldTable, db: Database, category: Name, name: Name)
    requires |db.records| == |db.categories.entries|
    requires Sound(table, db.categories) && CollisionFree(db.categories)
    requires Transitions(Names(db.categories)) == |db.records|
    requires forall i :: 0 <= i < |db.records| ==> Sound(table, db.records[i]) && CollisionFree(db.records[i])
    ensures FindInDatabase(table, db, category, name).Some? <==>
            exists i :: 0 <= i < |db.records| && db.categories.entries[i].name == category && HasName(db.records[i], name)
  {
    var c := Find(table, db.categories, category);
    forall i | 0 <= i < |db.records| && db.categories.entries[i].name == category
      ensures c == Some(i)
    {
      UniqueNameFound(table, db.categories, i);
    }
    FindNeverWrong(table, db.categories, category);
    if c.Some? {
      CertificateExact(table, db.records[c.value]);
    }
  }

  /** Where names are a unique key, looking up an entry's name finds that entry. */
  lemma UniqueNameFound(table: FoldTable, c: Index, i: nat)
    requires Sound(table, c) && CollisionFree(c) && Transitions(Names(c)) == |c.entries| && i < |c.entries|
    ensures Find(table, c, c.entries[i].name) == Some(i)
  {
    var name := c.entries[i].name;
    assert HasName(c, name);
    CertificateExact(table, c);
    FindNeverWrong(table, c, name);
    DistinctNamesExact(table, c);
    SoundScan(table, c);
    var names, j := Names(c), Find(table, c, name).value;
    assert names[i] == names[j] == name;
  }
}
