/** The node checker's hash test. It has no hash function of its own: it keeps a bounded
    table of the names seen so far and compares every stored hash with the one first seen
    for the same name. */
module NodeNames {
  import opened Options
  import opened Grouping

  const MAX_NAME := 128

  type Word = n: nat | n < WORDS

  const WORDS := 0x1_0000_0000

  // A decoded node name: printable, and shorter than the decoder's limit.
  predicate Printable(s: string) {
    0 < |s| < MAX_NAME && forall i :: 0 <= i < |s| ==> ' ' <= s[i] <= '~'
  }

  type Name = s: string | Printable(s) witness "x"

  // A node: its name, unless it lies outside the blob or does not decode, and its stored hash.
  datatype Node = Node(name: Option<Name>, hash: Word)

  // ---- comparing names ----------------------------------------------------------------

  function Lower(c: char): char {
    if 'A' <= c <= 'Z' then (c as int + 32) as char else c
  }

  function Fold(s: string): (r: string)
    ensures |r| == |s|
  {
    seq(|s|, i requires 0 <= i < |s| => Lower(s[i]))
  }

  // The same character, or one letter in its two cases.
  predicate SameLetter(c: char, d: char) {
    || c == d
    || ('A' <= c <= 'Z' && d as int == c as int + 32)
    || ('A' <= d <= 'Z' && c as int == d as int + 32)
  }

  predicate SameButCase(a: string, b: string) {
    |a| == |b| && forall i :: 0 <= i < |a| ==> SameLetter(a[i], b[i])
  }

  lemma FoldsAlike(a: string, b: string)
    ensures Fold(a) == Fold(b) <==> SameButCase(a, b)
  {
    forall i | 0 <= i < |a| && i < |b|
      ensures Fold(a)[i] == Fold(b)[i] <==> SameLetter(a[i], b[i])
    {
      assert Fold(a)[i] == Lower(a[i]) && Fold(b)[i] == Lower(b[i]);
    }
  }

  // The C string's character i, its terminator included.
  function CharAt(s: string, i: nat): char {
    if i < |s| then s[i] else '\0'
  }

  /** The comparison of two C strings: they are equal in all but letter case, and shorter than
      the limit. */
  method NameEqualsI(a: string, b: string, cap: nat) returns (r: bool)
    requires '\0' !in a && '\0' !in b
    ensures r <==> SameButCase(a, b) && |a| < cap
    ensures r <==> Fold(a) == Fold(b) && |a| < cap
  {
    FoldsAlike(a, b);
    for i := 0 to cap
      invariant i <= |a| && i <= |b|
      invariant forall k :: 0 <= k < i ==> Lower(a[k]) == Lower(b[k])
    {
      var ca, cb := Lower(CharAt(a, i)), Lower(CharAt(b, i));
      if ca != cb {
        assert i < |a| && i < |b| ==> Fold(a)[i] != Fold(b)[i];
        assert i == |a| < |b| || i == |b| < |a| || (i < |a| && i < |b|);
        return false;
      }
      if ca == '\0' {
        assert i == |a| && i == |b|;
        assert Fold(a) == Fold(b);
        return true;
      }
    }
    return false;
  }

  // ---- the table and the tallies ----------------------------------------------------------

  // What the table sees of a node: the name up to case, and the hash.
  datatype Sighting<K> = Sighting(key: Option<K>, hash: Word)

  function Sightings(nodes: seq<Node>): (s: seq<Sighting<string>>)
    ensures |s| == |nodes|
    ensures forall i :: 0 <= i < |s| ==> s[i].hash == nodes[i].hash && s[i].key == if nodes[i].name.None? then None else Some(Fold(nodes[i].name.value))
  {
    seq(|nodes|, i requires 0 <= i < |nodes| =>
      Sighting(if nodes[i].name.None? then None else Some(Fold(nodes[i].name.value)), nodes[i].hash))
  }

  // A name in the table, the hash it was first seen with, and how often it was seen.
  datatype Row<K> = Row(key: K, hash: Word, count: nat)

  datatype State<K> = State(rows: seq<Row<K>>, printable: nat, consistent: nat)

  // The first row for this key, or the number of rows.
  function Slot<K(==)>(rows: seq<Row<K>>, key: K): (k: nat)
    ensures k <= |rows| && (k < |rows| ==> rows[k].key == key)
    ensures forall i :: 0 <= i < k ==> rows[i].key != key
  {
    if rows == [] || rows[0].key == key then 0 else 1 + Slot(rows[1..], key)
  }

  function Visit<K(==)>(s: State<K>, x: Sighting<K>, cap: nat): State<K> {
    if x.key.None? then s
    else
      var k := Slot(s.rows, x.key.value);
      if k < |s.rows| then
        State(s.rows[k := s.rows[k].(count := s.rows[k].count + 1)], s.printable + 1,
              s.consistent + if s.rows[k].hash == x.hash then 1 else 0)
      else
        State(if |s.rows| < cap then s.rows + [Row(x.key.value, x.hash, 1)] else s.rows,
              s.printable + 1, s.consistent + 1)
  }

  // The state after the first n sightings.
  function Run<K(==)>(xs: seq<Sighting<K>>, n: nat, cap: nat): State<K>
    requires n <= |xs|
  {
    if n == 0 then State([], 0, 0) else Visit(Run(xs, n - 1, cap), xs[n - 1], cap)
  }

  function Repeated<K>(rows: seq<Row<K>>): nat {
    if rows == [] then 0
    else Repeated(rows[..|rows| - 1]) + if rows[|rows| - 1].count > 1 then 1 else 0
  }

  // Rows after row i, among the first m, that share its hash.
  function EqualPartners<K>(rows: seq<Row<K>>, i: nat, m: nat): nat
    requires i < |rows| && m <= |rows|
    decreases m
  {
    if m <= i + 1 then 0 else EqualPartners(rows, i, m - 1) + if rows[i].hash == rows[m - 1].hash then 1 else 0
  }

  function Collisions<K>(rows: seq<Row<K>>, n: nat): nat
    requires n <= |rows|
  {
    if n == 0 then 0 else Collisions(rows, n - 1) + EqualPartners(rows, n - 1, |rows|)
  }

  datatype Tallies = Tallies(total: nat, printable: nat, distinct: nat, repeated: nat, consistent: nat, collisions: nat)

  // The search for a name among the first used table entries.
  method FindName(names: array<Name>, used: nat, name: Name, ghost rows: seq<Row<string>>) returns (slot: nat)
    requires used == |rows| <= names.Length && forall k :: 0 <= k < used ==> Fold(names[k]) == rows[k].key
    ensures slot == Slot(rows, Fold(name))
  {
    slot := used;
    for i := 0 to used
      invariant slot == used
      invariant forall k :: 0 <= k < i ==> rows[k].key != Fold(name)
    {
      NoNul(names[i]);
      NoNul(name);
      var same := NameEqualsI(names[i], name, MAX_NAME);
      if same {
        slot := i;
        break;
      }
    }
  }

  lemma NoNul(s: Name)
    ensures '\0' !in s
  {
    assert Printable(s);
  }

  // The arrays hold these rows.
  ghost predicate Holds(names: array<Name>, hashes: array<Word>, counts: array<nat>, rows: seq<Row<string>>)
    reads names, hashes, counts
  {
    && |rows| <= names.Length == hashes.Length == counts.Length
    && forall k :: 0 <= k < |rows| ==> Fold(names[k]) == rows[k].key && hashes[k] == rows[k].hash && counts[k] == rows[k].count
  }

  // One printable node: its name is looked up, and recorded or compared.
  method VisitNode(names: array<Name>, hashes: array<Word>, counts: array<nat>, used: nat, name: Name, h: Word, ghost s: State<string>)
    returns (now: nat, consistent: bool)
    requires Holds(names, hashes, counts, s.rows) && used == |s.rows| && hashes != counts as object
    modifies names, hashes, counts
    ensures var r := Visit(s, Sighting(Some(Fold(name)), h), names.Length);
            && Holds(names, hashes, counts, r.rows) && now == |r.rows|
            && r.printable == s.printable + 1 && r.consistent == s.consistent + if consistent then 1 else 0
  {
    now := used;
    var slot := FindName(names, used, name, s.rows);
    if slot == used {
      if used < names.Length {
        names[used], hashes[used], counts[used] := name, h, 1;
        now := used + 1;
      }
      consistent := true;
    } else {
      counts[slot] := counts[slot] + 1;
      consistent := hashes[slot] == h;
    }
  }

  // The closing pass over the table.
  method CountRows(hashes: array<Word>, counts: array<nat>, used: nat, ghost rows: seq<Row<string>>) returns (repeated: nat, collisions: nat)
    requires used == |rows| <= hashes.Length == counts.Length
    requires forall k :: 0 <= k < used ==> hashes[k] == rows[k].hash && counts[k] == rows[k].count
    ensures repeated == Repeated(rows) && collisions == Collisions(rows, used)
  {
    repeated, collisions := 0, 0;
    for i := 0 to used
      invariant repeated == Repeated(rows[..i]) && collisions == Collisions(rows, i)
    {
      assert rows[..i + 1][..i] == rows[..i];
      if counts[i] > 1 {
        repeated := repeated + 1;
      }
      for j := i + 1 to used
        invariant collisions == Collisions(rows, i) + EqualPartners(rows, i, j)
      {
        if hashes[i] == hashes[j] {
          collisions := collisions + 1;
        }
      }
    }
    assert rows[..used] == rows;
  }

  /** The checker's loop over every node of every asset, with its fixed-size table. */
  method CheckHashes(nodes: seq<Node>, cap: nat) returns (t: Tallies)
    ensures var s := Run(Sightings(nodes), |nodes|, cap);
            t == Tallies(|nodes|, s.printable, |s.rows|, Repeated(s.rows), s.consistent, Collisions(s.rows, |s.rows|))
  {
    var names := new Name[cap](_ => "x");
    var hashes := new Word[cap];
    var counts := new nat[cap];
    ghost var xs, s := Sightings(nodes), Run(Sightings(nodes), 0, cap);
    var used, total, printable, consistent := 0, 0, 0, 0;
    for n := 0 to |nodes|
      invariant total == n && used == |s.rows|
      invariant s == Run(xs, n, cap) && printable == s.printable && consistent == s.consistent
      invariant Holds(names, hashes, counts, s.rows)
    {
      total := total + 1;
      ghost var before := s;
      s := Visit(s, xs[n], cap);
      if nodes[n].name.None? {
        continue;
      }
      var name := nodes[n].name.value;
      printable := printable + 1;
      assert xs[n] == Sighting(Some(Fold(name)), nodes[n].hash);
      var ok;
      used, ok := VisitNode(names, hashes, counts, used, name, nodes[n].hash, before);
      if ok {
        consistent := consistent + 1;
      }
    }
    var repeated, collisions := CountRows(hashes, counts, used, s.rows);
    t := Tallies(total, printable, used, repeated, consistent, collisions);
  }

  // ---- what the tallies establish ---------------------------------------------------------------

  // The table as a map from names to first-seen hashes.
  function Table<K>(rows: seq<Row<K>>): map<K, Word> {
    if rows == [] then map[] else Table(rows[..|rows| - 1])[rows[|rows| - 1].key := rows[|rows| - 1].hash]
  }

  // No two rows for one name.
  ghost predicate Different<K>(rows: seq<Row<K>>) {
    forall k, l :: 0 <= k < l < |rows| ==> rows[k].key != rows[l].key
  }

  lemma {:induction false} TableOfRows<K>(rows: seq<Row<K>>)
    requires Different(rows)
    ensures forall k :: 0 <= k < |rows| ==> rows[k].key in Table(rows) && Table(rows)[rows[k].key] == rows[k].hash
    ensures forall key :: key in Table(rows) ==> exists k :: 0 <= k < |rows| && rows[k].key == key
  {
    if rows != [] {
      var front := rows[..|rows| - 1];
      TableOfRows(front);
      assert forall k :: 0 <= k < |front| ==> front[k] == rows[k];
    }
  }

  lemma {:induction false} TableIgnoresCounts<K>(rows: seq<Row<K>>, k: nat, n: nat)
    requires k < |rows|
    ensures Table(rows[k := rows[k].(count := n)]) == Table(rows)
  {
    var after, m := rows[k := rows[k].(count := n)], |rows| - 1;
    if k < m {
      TableIgnoresCounts(rows[..m], k, n);
      assert after[..m] == rows[..m][k := rows[k].(count := n)];
    } else {
      assert after[..m] == rows[..m];
    }
  }

  // Every entry is one of the first n sightings.
  ghost predicate Seen<K>(t: map<K, Word>, xs: seq<Sighting<K>>, n: nat)
    requires n <= |xs|
  {
    forall key :: key in t ==> exists j :: 0 <= j < n && xs[j] == Sighting(Some(key), t[key])
  }

  // Every sighting among the first n of a name with an entry carries the entry's hash.
  ghost predicate AsFirstSeen<K>(t: map<K, Word>, xs: seq<Sighting<K>>, n: nat)
    requires n <= |xs|
  {
    forall j :: 0 <= j < n && xs[j].key.Some? && xs[j].key.value in t ==> xs[j].hash == t[xs[j].key.value]
  }

  // Every name among the first n sightings has an entry.
  ghost predicate Complete<K>(t: map<K, Word>, xs: seq<Sighting<K>>, n: nat)
    requires n <= |xs|
  {
    forall j :: 0 <= j < n && xs[j].key.Some? ==> xs[j].key.value in t
  }

  lemma {:induction false} RunBounds<K>(xs: seq<Sighting<K>>, n: nat, cap: nat)
    requires n <= |xs|
    ensures var s := Run(xs, n, cap); |s.rows| <= cap && s.consistent <= s.printable && Different(s.rows)
    decreases n
  {
    if n > 0 {
      RunBounds(xs, n - 1, cap);
    }
  }

  // How one sighting changes the table: it is known, or new and remembered, or new and lost.
  lemma VisitTable<K>(s: State<K>, x: Sighting<K>, cap: nat)
    requires Different(s.rows) && |s.rows| <= cap
    ensures var (t, r) := (Table(s.rows), Visit(s, x, cap));
            && (x.key.None? ==> r == s)
            && (x.key.Some? ==> r.printable == s.printable + 1)
            && (x.key.Some? && x.key.value in t ==>
                 Table(r.rows) == t && |r.rows| == |s.rows| && r.consistent == s.consistent + if x.hash == t[x.key.value] then 1 else 0)
            && (x.key.Some? && x.key.value !in t && |s.rows| < cap ==>
                 Table(r.rows) == t[x.key.value := x.hash] && |r.rows| == |s.rows| + 1 && r.consistent == s.consistent + 1)
            && (x.key.Some? && x.key.value !in t && |s.rows| == cap ==>
                 r.rows == s.rows && r.consistent == s.consistent + 1)
  {
    if x.key.Some? {
      TableOfRows(s.rows);
      var k := Slot(s.rows, x.key.value);
      if k < |s.rows| {
        TableIgnoresCounts(s.rows, k, s.rows[k].count + 1);
      } else if |s.rows| < cap {
        var after := s.rows + [Row(x.key.value, x.hash, 1)];
        assert after[..|after| - 1] == s.rows;
      }
    }
  }

  // The table speaks for the first n sightings, and the counts for whether those of the names
  // it holds agree with it.
  ghost predicate Faithful<K>(s: State<K>, xs: seq<Sighting<K>>, n: nat)
    requires n <= |xs|
  {
    Seen(Table(s.rows), xs, n) && (s.consistent == s.printable <==> AsFirstSeen(Table(s.rows), xs, n))
  }

  // Nothing is lost while the table has room.
  ghost predicate NothingLost<K>(s: State<K>, xs: seq<Sighting<K>>, n: nat, cap: nat)
    requires n <= |xs|
  {
    |s.rows| < cap ==> Complete(Table(s.rows), xs, n)
  }

  // All of it, together with the bounds the table keeps.
  ghost predicate Steady<K>(s: State<K>, xs: seq<Sighting<K>>, n: nat, cap: nat)
    requires n <= |xs|
  {
    && Faithful(s, xs, n) && NothingLost(s, xs, n, cap)
    && Different(s.rows) && |s.rows| <= cap && s.consistent <= s.printable
  }

  lemma NothingSeen<K>(xs: seq<Sighting<K>>, cap: nat)
    ensures Steady(Run(xs, 0, cap), xs, 0, cap)
  {
  }

  lemma {:induction false} RunSteady<K>(xs: seq<Sighting<K>>, n: nat, cap: nat)
    requires n <= |xs|
    ensures Steady(Run(xs, n, cap), xs, n, cap)
    decreases n
  {
    if n == 0 {
      NothingSeen(xs, cap);
    } else {
      RunSteady(xs, n - 1, cap);
      VisitSteady(Run(xs, n - 1, cap), xs, n - 1, cap, Run(xs, n, cap));
    }
  }

  lemma RunFaithful<K>(xs: seq<Sighting<K>>, n: nat, cap: nat)
    requires n <= |xs|
    ensures Faithful(Run(xs, n, cap), xs, n) && NothingLost(Run(xs, n, cap), xs, n, cap)
  {
    RunSteady(xs, n, cap);
  }

  lemma VisitSteady<K>(s: State<K>, xs: seq<Sighting<K>>, n: nat, cap: nat, r: State<K>)
    requires n < |xs| && Steady(s, xs, n, cap) && r == Visit(s, xs[n], cap)
    ensures Steady(r, xs, n + 1, cap)
  {
    VisitTable(s, xs[n], cap);
    var t, x := Table(s.rows), xs[n];
    if x.key.Some? && x.key.value !in t && |s.rows| < cap {
      Remember(t, xs, n);
    } else {
      PassOver(t, xs, n);
    }
  }

  // The next sighting is of a new name, which is remembered.
  lemma Remember<K>(t: map<K, Word>, xs: seq<Sighting<K>>, n: nat)
    requires n < |xs| && xs[n].key.Some? && xs[n].key.value !in t && Seen(t, xs, n) && Complete(t, xs, n)
    ensures var u := t[xs[n].key.value := xs[n].hash];
            && Seen(u, xs, n + 1) && Complete(u, xs, n + 1)
            && (AsFirstSeen(u, xs, n + 1) <==> AsFirstSeen(t, xs, n))
  {
    var key, hash := xs[n].key.value, xs[n].hash;
    var u := t[key := hash];
    forall k | k in u
      ensures exists j :: 0 <= j < n + 1 && xs[j] == Sighting(Some(k), u[k])
    {
      if k in t {
        var j :| 0 <= j < n && xs[j] == Sighting(Some(k), t[k]);
        assert k != key;
      } else {
        assert xs[n] == Sighting(Some(k), u[k]);
      }
    }
    assert forall j :: 0 <= j < n && xs[j].key.Some? ==> xs[j].key.value in t && u[xs[j].key.value] == t[xs[j].key.value];
  }

  // The next sighting leaves the table as it is.
  lemma PassOver<K>(t: map<K, Word>, xs: seq<Sighting<K>>, n: nat)
    requires n < |xs| && Seen(t, xs, n)
    ensures Seen(t, xs, n + 1)
    ensures AsFirstSeen(t, xs, n + 1) <==>
            AsFirstSeen(t, xs, n) && (xs[n].key.Some? && xs[n].key.value in t ==> xs[n].hash == t[xs[n].key.value])
    ensures Complete(t, xs, n) && (xs[n].key.Some? ==> xs[n].key.value in t) ==> Complete(t, xs, n + 1)
  {
    forall key | key in t
      ensures exists j :: 0 <= j < n + 1 && xs[j] == Sighting(Some(key), t[key])
    {
      var j :| 0 <= j < n && xs[j] == Sighting(Some(key), t[key]);
    }
  }

  // Sighting i is of a name the table holds in the end.
  ghost predicate Kept<K>(xs: seq<Sighting<K>>, i: nat, cap: nat)
    requires i < |xs|
  {
    xs[i].key.Some? && xs[i].key.value in Table(Run(xs, |xs|, cap).rows)
  }

  // Two sightings of one name carry one hash.
  ghost predicate SameNameSameHash<K>(xs: seq<Sighting<K>>) {
    forall i, j :: 0 <= i < |xs| && 0 <= j < |xs| && xs[i].key.Some? && xs[i].key == xs[j].key ==> xs[i].hash == xs[j].hash
  }

  // Two named sightings carrying one hash are of one name.
  ghost predicate SameHashSameName<K>(xs: seq<Sighting<K>>) {
    forall i, j :: 0 <= i < |xs| && 0 <= j < |xs| && xs[i].key.Some? && xs[j].key.Some? && xs[i].hash == xs[j].hash ==> xs[i].key == xs[j].key
  }

  // The same two, for the names the table holds.
  ghost predicate KeptNamesOneHash<K>(xs: seq<Sighting<K>>, cap: nat) {
    forall i, j :: 0 <= i < |xs| && 0 <= j < |xs| && Kept(xs, i, cap) && xs[i].key == xs[j].key ==> xs[i].hash == xs[j].hash
  }

  ghost predicate KeptHashesOneName<K>(xs: seq<Sighting<K>>, cap: nat) {
    forall i, j :: 0 <= i < |xs| && 0 <= j < |xs| && Kept(xs, i, cap) && Kept(xs, j, cap) && xs[i].hash == xs[j].hash ==> xs[i].key == xs[j].key
  }

  /** Comparing only with the first sighting settles every pair of a name in the table, full or
      not: all printable names count as consistent exactly when any two sightings of one such
      name carry one hash. */
  lemma ConsistencyExact<K>(xs: seq<Sighting<K>>, cap: nat)
    ensures var s := Run(xs, |xs|, cap); s.consistent == s.printable <==> KeptNamesOneHash(xs, cap)
  {
    var t := Table(Run(xs, |xs|, cap).rows);
    RunFaithful(xs, |xs|, cap);
    if KeptNamesOneHash(xs, cap) {
      forall j | 0 <= j < |xs| && xs[j].key.Some? && xs[j].key.value in t
        ensures xs[j].hash == t[xs[j].key.value]
      {
        var i :| 0 <= i < |xs| && xs[i] == Sighting(Some(xs[j].key.value), t[xs[j].key.value]);
        assert Kept(xs, j, cap);
      }
    }
    if AsFirstSeen(t, xs, |xs|) {
      forall i, j | 0 <= i < |xs| && 0 <= j < |xs| && Kept(xs, i, cap) && xs[i].key == xs[j].key
        ensures xs[i].hash == xs[j].hash
      {
        assert xs[i].hash == t[xs[i].key.value] && xs[j].hash == t[xs[i].key.value];
      }
    }
  }

  lemma {:induction false} NoEqualPartners<K>(rows: seq<Row<K>>, i: nat, m: nat)
    requires i < |rows| && m <= |rows|
    ensures EqualPartners(rows, i, m) == 0 <==> forall j :: i < j < m ==> rows[i].hash != rows[j].hash
    decreases m
  {
    if m > i + 1 {
      NoEqualPartners(rows, i, m - 1);
    }
  }

  lemma {:induction false} NoCollisions<K>(rows: seq<Row<K>>, n: nat)
    requires n <= |rows|
    ensures Collisions(rows, n) == 0 <==> forall i, j :: 0 <= i < n && i < j < |rows| ==> rows[i].hash != rows[j].hash
  {
    if n > 0 {
      NoCollisions(rows, n - 1);
      NoEqualPartners(rows, n - 1, |rows|);
    }
  }

  // Different names in the table, different hashes.
  ghost predicate Injective<K>(t: map<K, Word>) {
    forall k, l :: k in t && l in t && t[k] == t[l] ==> k == l
  }

  lemma CollisionFreeTable<K>(rows: seq<Row<K>>)
    requires Different(rows)
    ensures Collisions(rows, |rows|) == 0 <==> Injective(Table(rows))
  {
    NoCollisions(rows, |rows|);
    TableOfRows(rows);
  }

  lemma InjectiveTable<K>(t: map<K, Word>, xs: seq<Sighting<K>>, cap: nat)
    requires t == Table(Run(xs, |xs|, cap).rows) && Seen(t, xs, |xs|)
    ensures KeptHashesOneName(xs, cap) ==> Injective(t)
    ensures Injective(t) && AsFirstSeen(t, xs, |xs|) ==> KeptHashesOneName(xs, cap)
  {
    if KeptHashesOneName(xs, cap) {
      forall k, l | k in t && l in t && t[k] == t[l]
        ensures k == l
      {
        var i :| 0 <= i < |xs| && xs[i] == Sighting(Some(k), t[k]);
        var j :| 0 <= j < |xs| && xs[j] == Sighting(Some(l), t[l]);
        assert Kept(xs, i, cap) && Kept(xs, j, cap);
      }
    }
    if Injective(t) && AsFirstSeen(t, xs, |xs|) {
      forall i, j | 0 <= i < |xs| && 0 <= j < |xs| && Kept(xs, i, cap) && Kept(xs, j, cap) && xs[i].hash == xs[j].hash
        ensures xs[i].key == xs[j].key
      {
        assert t[xs[i].key.value] == t[xs[j].key.value];
      }
    }
  }

  /** All names consistent and no collision reported, full table or not, means exactly that
      among the names in the table, equal names have equal hashes and equal hashes are of
      equal names. */
  lemma HashesIdentifyNames<K>(xs: seq<Sighting<K>>, cap: nat)
    ensures var s := Run(xs, |xs|, cap);
            s.consistent == s.printable && Collisions(s.rows, |s.rows|) == 0 <==> KeptNamesOneHash(xs, cap) && KeptHashesOneName(xs, cap)
  {
    var s := Run(xs, |xs|, cap);
    ConsistencyExact(xs, cap);
    RunFaithful(xs, |xs|, cap);
    RunBounds(xs, |xs|, cap);
    CollisionFreeTable(s.rows);
    InjectiveTable(Table(s.rows), xs, cap);
  }

  // ---- names up to case ---------------------------------------------------------------------------

  // Two nodes with readable names that differ in nothing but letter case.
  predicate Namesakes(x: Node, y: Node) {
    x.name.Some? && y.name.Some? && SameButCase(x.name.value, y.name.value)
  }

  lemma NamesakesShareKey(nodes: seq<Node>, i: nat, j: nat)
    requires i < |nodes| && j < |nodes| && nodes[i].name.Some? && nodes[j].name.Some?
    ensures Sightings(nodes)[i].key == Sightings(nodes)[j].key <==> Namesakes(nodes[i], nodes[j])
  {
    FoldsAlike(nodes[i].name.value, nodes[j].name.value);
  }

  /** Two nodes of which the table holds the first share their row exactly if their names differ in
      nothing but letter case. */
  lemma NamesakesShareRow(nodes: seq<Node>, cap: nat, i: nat, j: nat)
    requires i < |nodes| && j < |nodes| && nodes[i].name.Some? && nodes[j].name.Some?
    requires Slot(Run(Sightings(nodes), |nodes|, cap).rows, Fold(nodes[i].name.value)) < |Run(Sightings(nodes), |nodes|, cap).rows|
    ensures var rows := Run(Sightings(nodes), |nodes|, cap).rows;
            Slot(rows, Fold(nodes[i].name.value)) == Slot(rows, Fold(nodes[j].name.value)) <==> Namesakes(nodes[i], nodes[j])
  {
    FoldsAlike(nodes[i].name.value, nodes[j].name.value);
  }

  // With room for every node nothing is lost.
  lemma {:induction false} RoomForAll<K>(xs: seq<Sighting<K>>, n: nat, cap: nat)
    requires n <= |xs| && n <= cap
    ensures |Run(xs, n, cap).rows| <= n && Complete(Table(Run(xs, n, cap).rows), xs, n)
    decreases n
  {
    if n > 0 {
      RoomForAll(xs, n - 1, cap);
      RunBounds(xs, n - 1, cap);
      RoomStep(Run(xs, n - 1, cap), xs, n - 1, cap);
    }
  }

  lemma RoomStep<K>(s: State<K>, xs: seq<Sighting<K>>, n: nat, cap: nat)
    requires n < |xs| && |s.rows| <= n < cap && Different(s.rows) && Complete(Table(s.rows), xs, n)
    ensures var r := Visit(s, xs[n], cap); |r.rows| <= n + 1 && Complete(Table(r.rows), xs, n + 1)
  {
    VisitTable(s, xs[n], cap);
  }

  /** With room for every node, all names count as consistent exactly if any two nodes whose names
      differ in nothing but letter case carry one hash. */
  lemma ConsistencyUpToCase(nodes: seq<Node>, cap: nat)
    requires |nodes| <= cap
    ensures var s := Run(Sightings(nodes), |nodes|, cap);
            s.consistent == s.printable <==>
              forall i, j :: 0 <= i < |nodes| && 0 <= j < |nodes| && Namesakes(nodes[i], nodes[j]) ==> nodes[i].hash == nodes[j].hash
  {
    var xs := Sightings(nodes);
    ConsistencyExact(xs, cap);
    RoomForAll(xs, |nodes|, cap);
    forall i, j | 0 <= i < |nodes| && 0 <= j < |nodes|
      ensures Kept(xs, i, cap) && xs[i].key == xs[j].key <==> Namesakes(nodes[i], nodes[j])
    {
      if nodes[i].name.Some? && nodes[j].name.Some? {
        NamesakesShareKey(nodes, i, j);
      }
    }
  }

  /** What the check reports of two nodes with readable names. */
  lemma TwoNodes(a: Node, b: Node, cap: nat)
    requires a.name.Some? && b.name.Some? && cap >= 2
    ensures var s := Run(Sightings([a, b]), 2, cap);
            && s.printable == 2
            && |s.rows| == (if Namesakes(a, b) then 1 else 2)
            && s.consistent == if Namesakes(a, b) && a.hash != b.hash then 1 else 2
  {
    var xs := Sightings([a, b]);
    NamesakesShareKey([a, b], 0, 1);
    assert Run(xs, 1, cap) == Visit(Run(xs, 0, cap), xs[0], cap);
    assert Run(xs, 1, cap).rows == [Row(xs[0].key.value, a.hash, 1)];
    assert Run(xs, 2, cap) == Visit(Run(xs, 1, cap), xs[1], cap);
  }

  // ---- for which names the readings can be trusted ----------------------------------------------

  // Sightings of these names with these hashes.
  function Zip<K>(names: seq<Option<K>>, hashes: seq<Word>): (xs: seq<Sighting<K>>)
    requires |names| == |hashes|
    ensures |xs| == |names| && forall i :: 0 <= i < |xs| ==> xs[i] == Sighting(names[i], hashes[i])
  {
    seq(|names|, i requires 0 <= i < |names| => Sighting(names[i], hashes[i]))
  }

  /** The first cap distinct names among the first n. */
  function FirstNames<K(==)>(names: seq<Option<K>>, n: nat, cap: nat): (r: seq<K>)
    requires n <= |names|
    ensures |r| <= cap
  {
    if n == 0 then []
    else
      var r, x := FirstNames(names, n - 1, cap), names[n - 1];
      if x.None? || x.value in r || |r| == cap then r else r + [x.value]
  }

  lemma {:induction false} FirstNamesDistinct<K>(names: seq<Option<K>>, n: nat, cap: nat)
    requires n <= |names|
    ensures PairwiseDifferent(FirstNames(names, n, cap))
    decreases n
  {
    if n > 0 {
      FirstNamesDistinct(names, n - 1, cap);
      var r, x := FirstNames(names, n - 1, cap), names[n - 1];
      if x.Some? && x.value !in r {
        DifferentAppend(r, x.value);
      }
    }
  }

  // Whatever the hashes, the table holds those names.
  lemma {:induction false} TableOfFirst<K>(names: seq<Option<K>>, hashes: seq<Word>, n: nat, cap: nat)
    requires n <= |names| == |hashes|
    ensures var s := Run(Zip(names, hashes), n, cap);
            && |s.rows| == |FirstNames(names, n, cap)|
            && forall key :: key in Table(s.rows) <==> key in FirstNames(names, n, cap)
    decreases n
  {
    if n > 0 {
      TableOfFirst(names, hashes, n - 1, cap);
      var xs := Zip(names, hashes);
      RunBounds(xs, n - 1, cap);
      VisitTable(Run(xs, n - 1, cap), xs[n - 1], cap);
    }
  }

  ghost predicate ReadsConsistent<K>(xs: seq<Sighting<K>>, cap: nat) {
    var s := Run(xs, |xs|, cap);
    s.consistent == s.printable
  }

  ghost predicate ReadsClean<K>(xs: seq<Sighting<K>>, cap: nat) {
    var s := Run(xs, |xs|, cap);
    s.consistent == s.printable && Collisions(s.rows, |s.rows|) == 0
  }

  // Every name sighted more than once is among the first cap.
  ghost predicate RepeatsFirst<K>(names: seq<Option<K>>, cap: nat) {
    forall i, j :: 0 <= i < j < |names| && names[i].Some? && names[i] == names[j] ==> names[i].value in FirstNames(names, |names|, cap)
  }

  // The check answers right whatever the stored hashes are.
  ghost predicate ConsistencySound<K>(names: seq<Option<K>>, cap: nat) {
    forall hashes: seq<Word> :: |hashes| == |names| ==>
      (ReadsConsistent(Zip(names, hashes), cap) <==> SameNameSameHash(Zip(names, hashes)))
  }

  // One sighting's hash is off.
  function OneOff(n: nat, i: nat): (hashes: seq<Word>)
    ensures |hashes| == n && forall k :: 0 <= k < n ==> hashes[k] == if k == i then 1 else 0
  {
    seq(n, k requires 0 <= k < n => if k == i then 1 else 0)
  }

  lemma LostRepeat<K>(names: seq<Option<K>>, cap: nat, i: nat, j: nat)
    requires i < j < |names| && names[i].Some? && names[i] == names[j] && names[i].value !in FirstNames(names, |names|, cap)
    ensures !ConsistencySound(names, cap)
  {
    var hashes := OneOff(|names|, i);
    var xs := Zip(names, hashes);
    TableOfFirst(names, hashes, |names|, cap);
    ConsistencyExact(xs, cap);
    assert forall k :: 0 <= k < |xs| && Kept(xs, k, cap) ==> k != i && xs[k].key != names[i];
    assert KeptNamesOneHash(xs, cap);
    assert xs[i].hash != xs[j].hash && xs[i].key == xs[j].key;
    assert ReadsConsistent(xs, cap) && !SameNameSameHash(xs);
  }

  /** The consistency check is right for every way to assign hashes to the nodes exactly if
      every name sighted more than once is among the first cap distinct names. */
  lemma ConsistencySoundExactly<K>(names: seq<Option<K>>, cap: nat)
    ensures ConsistencySound(names, cap) <==> RepeatsFirst(names, cap)
  {
    if RepeatsFirst(names, cap) {
      forall hashes: seq<Word> | |hashes| == |names|
        ensures ReadsConsistent(Zip(names, hashes), cap) <==> SameNameSameHash(Zip(names, hashes))
      {
        RepeatsSettle(names, hashes, cap);
      }
    } else {
      var i, j :| 0 <= i < j < |names| && names[i].Some? && names[i] == names[j] && names[i].value !in FirstNames(names, |names|, cap);
      LostRepeat(names, cap, i, j);
    }
  }

  lemma RepeatsSettle<K>(names: seq<Option<K>>, hashes: seq<Word>, cap: nat)
    requires |names| == |hashes| && RepeatsFirst(names, cap)
    ensures ReadsConsistent(Zip(names, hashes), cap) <==> SameNameSameHash(Zip(names, hashes))
  {
    var xs := Zip(names, hashes);
    TableOfFirst(names, hashes, |names|, cap);
    ConsistencyExact(xs, cap);
    if KeptNamesOneHash(xs, cap) {
      forall i, j | 0 <= i < |xs| && 0 <= j < |xs| && xs[i].key.Some? && xs[i].key == xs[j].key
        ensures xs[i].hash == xs[j].hash
      {
        if i != j {
          assert names[if i < j then i else j] == names[if i < j then j else i];
          assert Kept(xs, i, cap);
        }
      }
    }
  }

  // Both readings answer right whatever the stored hashes are.
  ghost predicate IdentitySound<K>(names: seq<Option<K>>, cap: nat) {
    forall hashes: seq<Word> :: |hashes| == |names| ==>
      (ReadsClean(Zip(names, hashes), cap) <==> SameNameSameHash(Zip(names, hashes)) && SameHashSameName(Zip(names, hashes)))
  }

  ghost predicate AllFirst<K>(names: seq<Option<K>>, cap: nat) {
    forall i :: 0 <= i < |names| && names[i].Some? ==> names[i].value in FirstNames(names, |names|, cap)
  }

  ghost predicate AtMostOneName<K>(names: seq<Option<K>>) {
    forall i, j :: 0 <= i < |names| && 0 <= j < |names| && names[i].Some? && names[j].Some? ==> i == j
  }

  // Each remembered name its own hash, every other sighting the hash lost.
  function Numbered<K(==)>(names: seq<Option<K>>, r: seq<K>, lost: Word): (hashes: seq<Word>)
    requires |r| <= WORDS
    ensures |hashes| == |names|
    ensures forall k :: 0 <= k < |names| ==>
              if names[k].Some? && names[k].value in r then hashes[k] < |r| && r[hashes[k]] == names[k].value else hashes[k] == lost
  {
    seq(|names|, k requires 0 <= k < |names| => if names[k].Some? && names[k].value in r then IndexIn(r, names[k].value) else lost)
  }

  function IndexIn<K(==)>(r: seq<K>, key: K): (p: nat)
    requires key in r
    ensures p < |r| && r[p] == key
  {
    if r[0] == key then 0 else 1 + IndexIn(r[1..], key)
  }

  // Numbered hashes read clean, whatever the sightings of lost names carry.
  lemma NumberedReadsClean<K>(names: seq<Option<K>>, hashes: seq<Word>, cap: nat)
    requires |hashes| == |names|
    requires var r := FirstNames(names, |names|, cap);
             forall k :: 0 <= k < |names| && names[k].Some? && names[k].value in r ==> hashes[k] < |r| && r[hashes[k]] == names[k].value
    ensures ReadsClean(Zip(names, hashes), cap)
  {
    var xs, r := Zip(names, hashes), FirstNames(names, |names|, cap);
    TableOfFirst(names, hashes, |names|, cap);
    FirstNamesDistinct(names, |names|, cap);
    forall i, j | 0 <= i < |xs| && 0 <= j < |xs| && Kept(xs, i, cap) && xs[i].key == xs[j].key
      ensures xs[i].hash == xs[j].hash
    {
      assert r[hashes[i]] == r[hashes[j]];
    }
    HashesIdentifyNames(xs, cap);
  }

  lemma LostName<K>(names: seq<Option<K>>, cap: nat, i: nat, j: nat)
    requires cap <= WORDS && i < |names| && j < |names| && i != j && names[i].Some? && names[j].Some?
    requires names[i].value !in FirstNames(names, |names|, cap)
    ensures !IdentitySound(names, cap)
  {
    var r := FirstNames(names, |names|, cap);
    var lost := if names[j].value in r then IndexIn(r, names[j].value) else 0;
    var hashes := Numbered(names, r, lost);
    if names[i] == names[j] {
      hashes := hashes[i := 1];
      assert hashes[j] == 0;
    } else if names[j].value in r {
      FirstNamesDistinct(names, |names|, cap);
      assert r[hashes[j]] == r[lost];
    }
    var xs := Zip(names, hashes);
    NumberedReadsClean(names, hashes, cap);
    assert xs[i] == Sighting(names[i], hashes[i]) && xs[j] == Sighting(names[j], hashes[j]);
    assert !(SameNameSameHash(xs) && SameHashSameName(xs));
  }

  /** Both readings together are right for every way to assign hashes exactly if every sighted
      name is among the first cap distinct ones, or there is but one sighting of a name. A
      table of more names than there are hashes could not read clean at all. */
  lemma IdentitySoundExactly<K>(names: seq<Option<K>>, cap: nat)
    requires cap <= WORDS
    ensures IdentitySound(names, cap) <==> AllFirst(names, cap) || AtMostOneName(names)
  {
    if AllFirst(names, cap) || AtMostOneName(names) {
      forall hashes: seq<Word> | |hashes| == |names|
        ensures ReadsClean(Zip(names, hashes), cap) <==> SameNameSameHash(Zip(names, hashes)) && SameHashSameName(Zip(names, hashes))
      {
        FirstSettle(names, hashes, cap);
      }
    } else {
      var i :| 0 <= i < |names| && names[i].Some? && names[i].value !in FirstNames(names, |names|, cap);
      var k, l :| 0 <= k < |names| && 0 <= l < |names| && names[k].Some? && names[l].Some? && k != l;
      LostName(names, cap, i, if k == i then l else k);
    }
  }

  lemma FirstSettle<K>(names: seq<Option<K>>, hashes: seq<Word>, cap: nat)
    requires |names| == |hashes| && (AllFirst(names, cap) || AtMostOneName(names))
    ensures ReadsClean(Zip(names, hashes), cap) <==> SameNameSameHash(Zip(names, hashes)) && SameHashSameName(Zip(names, hashes))
  {
    var xs := Zip(names, hashes);
    TableOfFirst(names, hashes, |names|, cap);
    HashesIdentifyNames(xs, cap);
    if AllFirst(names, cap) {
      assert forall i :: 0 <= i < |xs| && xs[i].key.Some? ==> Kept(xs, i, cap);
    } else {
      assert forall i, j :: 0 <= i < |xs| && 0 <= j < |xs| && xs[i].key.Some? && xs[j].key.Some? ==> i == j;
    }
  }

  /** Why the table must not fill: once it has, an unseen name is counted as consistent
      whatever its hash, and is not remembered. */
  lemma FullTableHidesMismatch<K>(xs: seq<Sighting<K>>, key: K, cap: nat, g: Word, h: Word)
    requires var s := Run(xs, |xs|, cap); |s.rows| == cap && s.consistent == s.printable && Slot(s.rows, key) == cap
    requires g != h
    ensures var more := xs + [Sighting(Some(key), g), Sighting(Some(key), h)];
            var s := Run(more, |more|, cap);
            s.consistent == s.printable && !SameNameSameHash(more)
  {
    var n := |xs|;
    var more := xs + [Sighting(Some(key), g), Sighting(Some(key), h)];
    RunPrefix(xs, more, n, cap);
    assert Run(more, n + 1, cap) == Visit(Run(more, n, cap), more[n], cap);
    assert Run(more, n + 2, cap) == Visit(Run(more, n + 1, cap), more[n + 1], cap);
    assert more[n].key == more[n + 1].key && more[n].hash != more[n + 1].hash;
  }

  lemma {:induction false} RunPrefix<K>(xs: seq<Sighting<K>>, more: seq<Sighting<K>>, n: nat, cap: nat)
    requires n <= |xs| && xs <= more
    ensures Run(more, n, cap) == Run(xs, n, cap)
  {
    if n > 0 {
      RunPrefix(xs, more, n - 1, cap);
      assert more[n - 1] == xs[n - 1];
    }
  }
}
