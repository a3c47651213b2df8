/** Recovering attribute names from their hashes: every printable run in a module's data
    sections is hashed, together with a few of its suffixes. */
module NameRecovery {
  import opened Options
  import opened NameHash

  const MIN_RUN := 3
  const MAX_RUN := 96

  // One section of the module. A byte that cannot be read is None.
  datatype Section = Section(data: bool, bytes: seq<Option<Byte>>)

  datatype Image = Image(table: FoldTable, sections: seq<Section>)

  predicate Printable(b: Option<Byte>) {
    b.Some? && 0x20 <= b.value <= 0x7E
  }

  // The run in progress after one more byte: one printable byte too many discards it.
  function Feed(run: Name, b: Option<Byte>): Name {
    if Printable(b) && |run| < MAX_RUN then run + [b.value] else []
  }

  // The run in progress after the first p bytes.
  function RunAt(bytes: seq<Option<Byte>>, p: nat): (run: Name)
    requires p <= |bytes|
    ensures |run| <= MAX_RUN
  {
    if p == 0 then [] else Feed(RunAt(bytes, p - 1), bytes[p - 1])
  }

  // A finished run and its suffixes that drop up to three bytes and keep at least three.
  function Suffixes(run: Name, skip: nat): seq<Name>
    decreases |run| - skip
  {
    if skip > 3 || |run| < MIN_RUN + skip then [] else [run[skip..]] + Suffixes(run, skip + 1)
  }

  function EmittedAt(bytes: seq<Option<Byte>>, p: nat): seq<Name>
    requires p < |bytes|
  {
    if bytes[p] == Some(0) then Suffixes(RunAt(bytes, p), 0) else []
  }

  // Everything hashed in the first p bytes of a section, in order.
  function Emitted(bytes: seq<Option<Byte>>, p: nat): seq<Name>
    requires p <= |bytes|
  {
    if p == 0 then [] else Emitted(bytes, p - 1) + EmittedAt(bytes, p - 1)
  }

  function EmittedAll(sections: seq<Section>, m: nat): seq<Name>
    requires m <= |sections|
  {
    if m == 0 then []
    else EmittedAll(sections, m - 1) + if sections[m - 1].data then Emitted(sections[m - 1].bytes, |sections[m - 1].bytes|) else []
  }

  // The first name seen for a hash is kept.
  function Put(table: FoldTable, m: map<Word, Name>, name: Name): map<Word, Name> {
    var h := Hash(table, name);
    if h.None? || h.value in m then m else m[h.value := name]
  }

  function PutAll(table: FoldTable, m: map<Word, Name>, names: seq<Name>): map<Word, Name> {
    if names == [] then m else Put(table, PutAll(table, m, names[..|names| - 1]), names[|names| - 1])
  }

  lemma {:induction false} PutAllAppend(table: FoldTable, m: map<Word, Name>, a: seq<Name>, b: seq<Name>)
    ensures PutAll(table, m, a + b) == PutAll(table, PutAll(table, m, a), b)
  {
    if b == [] {
      assert a + b == a;
    } else {
      PutAllAppend(table, m, a, b[..|b| - 1]);
      assert (a + b)[..|a + b| - 1] == a + b[..|b| - 1];
    }
  }

  lemma EmittedStep(before: seq<Name>, bytes: seq<Option<Byte>>, p: nat)
    requires p < |bytes|
    ensures var after := before + Emitted(bytes, p);
            before + Emitted(bytes, p + 1) == if bytes[p] == Some(0) then after + Suffixes(RunAt(bytes, p), 0) else after
    ensures RunAt(bytes, p + 1) == Feed(RunAt(bytes, p), bytes[p])
  {
  }

  lemma PutOne(table: FoldTable, m: map<Word, Name>, name: Name)
    ensures PutAll(table, m, [name]) == Put(table, m, name)
  {
    var one := [name];
    assert one[..0] == [];
  }

  /** The index and its cache. */
  class NameIndex {
    var names: map<Word, Name>
    var distinctHashes: nat
    ghost var table: FoldTable  // the fold table of the build

    ghost predicate Valid()
      reads this
    {
      && distinctHashes == |names|
      && forall h :: h in names ==> Hash(table, names[h]) == Some(h)
    }

    constructor ()
      ensures Valid() && names == map[]
    {
      names, distinctHashes := map[], 0;
      table := None;
    }

    /** Builds the index unless a build already found something. Without a mapped module
        nothing happens, and a later call may still build. */
    method Build(image: Option<Image>)
      requires Valid()
      modifies this
      ensures Valid()
      ensures old(names) != map[] || image.None? ==> names == old(names) && distinctHashes == old(distinctHashes) && table == old(table)
      ensures old(names) == map[] && image.Some? ==>
                table == image.value.table && names == PutAll(table, map[], EmittedAll(image.value.sections, |image.value.sections|))
    {
      if distinctHashes != 0 || image.None? {
        return;
      }
      assert names == map[];
      var sections := image.value.sections;
      table := image.value.table;
      for i := 0 to |sections|
        invariant table == image.value.table
        invariant names == PutAll(table, map[], EmittedAll(sections, i))
      {
        if sections[i].data {
          ScanSection(image.value.table, sections[i].bytes, EmittedAll(sections, i));
        } else {
          assert EmittedAll(sections, i) + [] == EmittedAll(sections, i);
        }
      }
      PutAllHashes(table, EmittedAll(sections, |sections|));
      distinctHashes := |names|;
    }

    // Scans one data section for runs ended by NUL.
    method ScanSection(fold: FoldTable, bytes: seq<Option<Byte>>, ghost before: seq<Name>)
      requires names == PutAll(fold, map[], before)
      modifies this`names
      ensures names == PutAll(fold, map[], before + Emitted(bytes, |bytes|))
    {
      var current: Name := [];
      ghost var all := before;
      assert before + [] == before;
      for p := 0 to |bytes|
        invariant current == RunAt(bytes, p)
        invariant all == before + Emitted(bytes, p)
        invariant names == PutAll(fold, map[], all)
      {
        var ch := bytes[p];
        EmittedStep(before, bytes, p);
        if ch == Some(0) {
          IndexRun(fold, current, all);
          all := all + Suffixes(current, 0);
        }
        current := Collect(current, ch);
      }
    }

    // The run in progress after one more byte.
    method Collect(current: Name, ch: Option<Byte>) returns (next: Name)
      ensures next == Feed(current, ch)
    {
      if ch.None? {
        return [];
      }
      if 0x20 <= ch.value <= 0x7E {
        if |current| < MAX_RUN {
          return current + [ch.value];
        }
        return [];
      }
      return [];
    }

    // Hashes a finished run and its first few suffixes.
    method IndexRun(fold: FoldTable, current: Name, ghost before: seq<Name>)
      requires names == PutAll(fold, map[], before)
      modifies this`names
      ensures names == PutAll(fold, map[], before + Suffixes(current, 0))
    {
      var skip := 0;
      PutAllAppend(fold, map[], before, Suffixes(current, 0));
      while skip <= 3 && |current| >= skip + MIN_RUN
        invariant skip <= 4
        invariant PutAll(fold, names, Suffixes(current, skip)) == PutAll(fold, map[], before + Suffixes(current, 0))
      {
        var candidate := current[skip..];
        var hash := HashName(fold, candidate);
        PutAllAppend(fold, names, [candidate], Suffixes(current, skip + 1));
        PutOne(fold, names, candidate);
        if hash.Some? && hash.value !in names {
          names := names[hash.value := candidate];
        }
        skip := skip + 1;
      }
    }

    /** The name recovered for a hash, building the index if need be. */
    method NameForHash(image: Option<Image>, hash: Word) returns (r: Option<Name>)
      requires Valid()
      modifies this
      ensures Valid()
      ensures r == if hash in names then Some(names[hash]) else None
      ensures r.Some? ==> Hash(table, r.value) == Some(hash)
      ensures old(names) == map[] && image.Some? ==> r == Lookup(image.value, hash)
    {
      Build(image);
      r := if hash in names then Some(names[hash]) else None;
    }
  }

  // What a fresh index over this image answers.
  function Lookup(image: Image, hash: Word): Option<Name> {
    var m := PutAll(image.table, map[], EmittedAll(image.sections, |image.sections|));
    if hash in m then Some(m[hash]) else None
  }

  // ---- what the index resolves ------------------------------------------------------

  // The index holds names of their own hashes, among these, and one for each hash of these.
  ghost predicate Indexes(table: FoldTable, m: map<Word, Name>, names: seq<Name>) {
    && (forall h :: h in m ==> Hash(table, m[h]) == Some(h) && m[h] in names)
    && (forall x :: x in names && Hash(table, x).Some? ==> Hash(table, x).value in m)
  }

  lemma PutKeeps(table: FoldTable, m: map<Word, Name>, names: seq<Name>, name: Name)
    requires Indexes(table, m, names)
    ensures Indexes(table, Put(table, m, name), names + [name])
  {
    var n := Put(table, m, name);
    forall h | h in n
      ensures Hash(table, n[h]) == Some(h) && n[h] in names + [name]
    {
      if h in m {
        assert n[h] == m[h] && m[h] in names;
      }
    }
    forall x | x in names + [name] && Hash(table, x).Some?
      ensures Hash(table, x).value in n
    {
      assert x in names || x == name;
    }
  }

  lemma {:induction false} PutAllHashes(table: FoldTable, names: seq<Name>)
    ensures Indexes(table, PutAll(table, map[], names), names)
  {
    if names != [] {
      var front, name := names[..|names| - 1], names[|names| - 1];
      PutAllHashes(table, front);
      assert names == front + [name];
      PutKeeps(table, PutAll(table, map[], front), front, name);
    }
  }

  /** A hash resolves exactly when some hashed candidate has it, and what it resolves to is
      such a candidate: every recovered name hashes back to the hash asked for. */
  lemma LookupExact(image: Image, hash: Word)
    ensures var names := EmittedAll(image.sections, |image.sections|);
            var r := Lookup(image, hash);
            && (r.Some? <==> exists x :: x in names && Hash(image.table, x) == Some(hash))
            && (r.Some? ==> r.value in names && Hash(image.table, r.value) == Some(hash))
  {
    PutAllHashes(image.table, EmittedAll(image.sections, |image.sections|));
  }

  // bytes[a..a + n] is a maximal printable run ended by NUL.
  ghost predicate MaximalRun(bytes: seq<Option<Byte>>, a: nat, n: nat) {
    && a + n < |bytes|
    && (a == 0 || !Printable(bytes[a - 1]))
    && (forall i :: a <= i < a + n ==> Printable(bytes[i]))
    && bytes[a + n] == Some(0)
  }

  // x stands directly before position p.
  ghost predicate EndsAt(bytes: seq<Option<Byte>>, p: nat, x: Name)
    requires p <= |bytes|
  {
    |x| <= p && forall i :: 0 <= i < |x| ==> bytes[p - |x| + i] == Some(x[i])
  }

  lemma EndsAtNext(bytes: seq<Option<Byte>>, p: nat, run: Name)
    requires 0 < p <= |bytes| && EndsAt(bytes, p - 1, run) && bytes[p - 1].Some?
    ensures EndsAt(bytes, p, run + [bytes[p - 1].value])
  {
    forall i | 0 <= i < |run|
      ensures bytes[p - (|run| + 1) + i] == Some(run[i])
    {
      assert bytes[p - 1 - |run| + i] == Some(run[i]);
    }
  }

  lemma EndsAtSuffix(bytes: seq<Option<Byte>>, p: nat, run: Name, x: Name)
    requires p <= |bytes| && EndsAt(bytes, p, run) && |x| <= |run|
    ensures EndsAt(bytes, p, x) <==> x == run[|run| - |x|..]
  {
    var d := |run| - |x|;
    forall i | 0 <= i < |x|
      ensures bytes[p - |x| + i] == Some(run[d..][i])
    {
      assert bytes[p - |run| + (d + i)] == Some(run[d + i]);
    }
    if EndsAt(bytes, p, x) {
      assert forall i :: 0 <= i < |x| ==> bytes[p - |x| + i] == Some(x[i]);
      assert x == run[d..];
    }
  }

  lemma {:induction false} RunEndsHere(bytes: seq<Option<Byte>>, p: nat)
    requires p <= |bytes|
    ensures EndsAt(bytes, p, RunAt(bytes, p))
    ensures forall i :: 0 <= i < |RunAt(bytes, p)| ==> 0x20 <= RunAt(bytes, p)[i] <= 0x7E
  {
    if p > 0 {
      RunEndsHere(bytes, p - 1);
      if Printable(bytes[p - 1]) {
        EndsAtNext(bytes, p, RunAt(bytes, p - 1));
      }
    }
  }

  lemma NextRemainder(n: nat)
    ensures (n + 1) % (MAX_RUN + 1) == if n % (MAX_RUN + 1) == MAX_RUN then 0 else n % (MAX_RUN + 1) + 1
  {
  }

  // Every 97th byte of a run discards what was collected.
  lemma {:induction false} RunInProgress(bytes: seq<Option<Byte>>, a: nat, n: nat)
    requires a + n <= |bytes| && (a == 0 || !Printable(bytes[a - 1])) && forall i :: a <= i < a + n ==> Printable(bytes[i])
    ensures |RunAt(bytes, a + n)| == n % (MAX_RUN + 1)
  {
    if n > 0 {
      RunInProgress(bytes, a, n - 1);
      assert Printable(bytes[a + n - 1]);
      NextRemainder(n - 1);
    }
  }

  lemma {:induction false} SuffixesExact(run: Name, skip: nat, x: Name)
    requires skip <= 4
    ensures x in Suffixes(run, skip) <==> MIN_RUN <= |x| && |x| + skip <= |run| <= |x| + 3 && x == run[|run| - |x|..]
    decreases 4 - skip
  {
    if skip <= 3 && |run| >= MIN_RUN + skip {
      SuffixesExact(run, skip + 1, x);
    }
  }

  lemma EmittedAtExact(bytes: seq<Option<Byte>>, p: nat, x: Name)
    requires p < |bytes| && bytes[p] == Some(0)
    ensures x in EmittedAt(bytes, p) <==> EndsAt(bytes, p, x) && MIN_RUN <= |x| <= |RunAt(bytes, p)| <= |x| + 3
  {
    var run := RunAt(bytes, p);
    RunEndsHere(bytes, p);
    SuffixesExact(run, 0, x);
    if |x| <= |run| {
      EndsAtSuffix(bytes, p, run, x);
    }
  }

  /** What a maximal run of n bytes contributes: only its last n % 97 bytes, because the
      97th byte throws away the 96 before it and itself. That tail and its suffixes dropping
      up to three bytes are hashed if at least three bytes remain, and nothing else is. */
  lemma MaximalRunEmits(bytes: seq<Option<Byte>>, a: nat, n: nat, x: Name)
    requires MaximalRun(bytes, a, n)
    ensures x in EmittedAt(bytes, a + n) <==>
            EndsAt(bytes, a + n, x) && 3 <= |x| <= n % 97 <= |x| + 3
  {
    RunInProgress(bytes, a, n);
    EmittedAtExact(bytes, a + n, x);
  }

  lemma {:induction false} EmittedIncludes(bytes: seq<Option<Byte>>, p: nat, q: nat, x: Name)
    requires p < q <= |bytes| && x in EmittedAt(bytes, p)
    ensures x in Emitted(bytes, q)
  {
    if p < q - 1 {
      EmittedIncludes(bytes, p, q - 1, x);
    }
  }

  lemma {:induction false} EmittedAllIncludes(sections: seq<Section>, k: nat, m: nat, x: Name)
    requires k < m <= |sections| && sections[k].data && x in Emitted(sections[k].bytes, |sections[k].bytes|)
    ensures x in EmittedAll(sections, m)
  {
    if k < m - 1 {
      EmittedAllIncludes(sections, k, m - 1, x);
    }
  }

  lemma RunEmitted(bytes: seq<Option<Byte>>, a: nat, n: nat, x: Name)
    requires MaximalRun(bytes, a, n)
    requires EndsAt(bytes, a + n, x) && 3 <= |x| <= n % 97 <= |x| + 3
    ensures x in Emitted(bytes, |bytes|)
  {
    MaximalRunEmits(bytes, a, n, x);
    EmittedIncludes(bytes, a + n, |bytes|, x);
  }

  /** The documented reach: every maximal run of 3 to 96 bytes ended by NUL in a data section
      resolves, and so does each suffix of it that drops up to three bytes and keeps three.
      A longer run of n bytes resolves as a run of n % 97 bytes would. */
  lemma RunsResolve(image: Image, k: nat, a: nat, n: nat, x: Name)
    requires k < |image.sections| && image.sections[k].data
    requires MaximalRun(image.sections[k].bytes, a, n)
    requires EndsAt(image.sections[k].bytes, a + n, x) && 3 <= |x| <= n % 97 <= |x| + 3
    requires Foldable(image.table, x)
    ensures Hash(image.table, x).Some? && Lookup(image, Hash(image.table, x).value).Some?
  {
    HashIsPolynomial(image.table, x);
    RunEmitted(image.sections[k].bytes, a, n, x);
    EmittedAllIncludes(image.sections, k, |image.sections|, x);
    LookupExact(image, Hash(image.table, x).value);
  }

  // x is printable, 3 to 96 bytes long, and ended by NUL somewhere in the section.
  ghost predicate StandsBeforeNul(bytes: seq<Option<Byte>>, x: Name) {
    && 3 <= |x| <= 96
    && (forall i :: 0 <= i < |x| ==> 0x20 <= x[i] <= 0x7E)
    && exists p: nat :: p < |bytes| && bytes[p] == Some(0) && EndsAt(bytes, p, x)
  }

  lemma CandidateHere(bytes: seq<Option<Byte>>, p: nat, x: Name)
    requires p < |bytes| && x in EmittedAt(bytes, p)
    ensures StandsBeforeNul(bytes, x)
  {
    var run := RunAt(bytes, p);
    RunEndsHere(bytes, p);
    SuffixesExact(run, 0, x);
    EndsAtSuffix(bytes, p, run, x);
    assert forall i :: 0 <= i < |x| ==> x[i] == run[|run| - |x| + i];
  }

  lemma {:induction false} CandidatesAreText(bytes: seq<Option<Byte>>, q: nat, x: Name)
    requires q <= |bytes| && x in Emitted(bytes, q)
    ensures StandsBeforeNul(bytes, x)
  {
    if x in EmittedAt(bytes, q - 1) {
      CandidateHere(bytes, q - 1, x);
    } else {
      CandidatesAreText(bytes, q - 1, x);
    }
  }

  /** Whatever a hash resolves to is text of the module: 3 to 96 printable bytes ended by
      NUL in one of its data sections. */
  lemma RecoveredNamesAreText(image: Image, hash: Word) returns (k: nat)
    requires Lookup(image, hash).Some?
    ensures k < |image.sections| && image.sections[k].data && StandsBeforeNul(image.sections[k].bytes, Lookup(image, hash).value)
  {
    LookupExact(image, hash);
    k := SectionOf(image.sections, |image.sections|, Lookup(image, hash).value);
  }

  lemma {:induction false} SectionOf(sections: seq<Section>, m: nat, x: Name) returns (k: nat)
    requires m <= |sections| && x in EmittedAll(sections, m)
    ensures k < m && sections[k].data && StandsBeforeNul(sections[k].bytes, x)
  {
    if x in EmittedAll(sections, m - 1) {
      k := SectionOf(sections, m - 1, x);
    } else {
      k := m - 1;
      CandidatesAreText(sections[k].bytes, |sections[k].bytes|, x);
    }
  }
}
