/** A record's attributes: lookup by hash, and elements packed into the value blob. */
module Attributes {
  import opened Options
  import opened NameHash
  import NameIndexing

  type Half = n: int | 0 <= n < 0x1_0000

  const TYPE_BOOL := 1
  const TYPE_RECORD_LINK := 9
  const TYPE_RECORD_LINK_ALT := 10
  const MAX_ATTRIBUTES := 4096

  // The readable dwords of memory. Address 0 is never read.
  type Memory = map<Word, Word>

  datatype Attribute = Attribute(kind: Byte, numValues: Byte, valueIndex: Half, blob: Word) {
    predicate IsBit() {
      kind == TYPE_BOOL
    }

    predicate IsLink() {
      kind == TYPE_RECORD_LINK || kind == TYPE_RECORD_LINK_ALT
    }

    // The blob address of element i, in 32-bit arithmetic. None: i is out of range.
    function ElementAddress(i: nat): Option<Word> {
      if i >= numValues || blob == 0 then None
      else if IsBit() then Some((blob + 4 * ((valueIndex + i) / 32)) % WORDS)
      else Some((blob + 4 * (valueIndex + i)) % WORDS)
    }

    function ElementBit(i: nat): nat {
      (valueIndex + i) % 32
    }
  }

  function Read(mem: Memory, at: Word): Option<Word> {
    if at != 0 && at in mem then Some(mem[at]) else None
  }

  function PowerOfTwo(n: nat): (p: nat)
    ensures p > 0
  {
    if n == 0 then 1 else 2 * PowerOfTwo(n - 1)
  }

  // Shift right by b and keep the lowest bit.
  predicate BitOf(w: nat, b: nat) {
    (w / PowerOfTwo(b)) % 2 == 1
  }

  function AttributeBool(mem: Memory, a: Attribute, i: nat): Option<bool> {
    if !a.IsBit() || a.ElementAddress(i).None? then None
    else
      var word := Read(mem, a.ElementAddress(i).value);
      if word.None? then None else Some(BitOf(word.value, a.ElementBit(i)))
  }

  // A link to another record: a dword element, null when it leads nowhere.
  function AttributeRecord(mem: Memory, a: Attribute, i: nat): Option<Word> {
    if !a.IsLink() || a.ElementAddress(i).None? then None
    else
      var word := Read(mem, a.ElementAddress(i).value);
      if word.None? || word.value == 0 then None else word
  }

  // ---- packing --------------------------------------------------------------------

  // The number whose binary digits, lowest first, are bits.
  function Pack(bits: seq<bool>): (w: nat)
    ensures w < PowerOfTwo(|bits|)
  {
    if bits == [] then 0 else (if bits[0] then 1 else 0) + 2 * Pack(bits[1..])
  }

  // The bits that go into dword k of a blob.
  function Chunk(bits: seq<bool>, k: nat): seq<bool>
    requires 32 * k < |bits|
  {
    if |bits| < 32 * k + 32 then bits[32 * k..] else bits[32 * k..32 * k + 32]
  }

  // Dword k of a blob, in 32-bit arithmetic.
  function DwordAddress(blob: Word, k: nat): Word {
    (blob + 4 * k) % WORDS
  }

  // Memory at blob holds these bits, 32 to a dword.
  ghost predicate Holds(mem: Memory, blob: Word, bits: seq<bool>) {
    && blob != 0
    && forall k: nat :: 32 * k < |bits| ==>
         Read(mem, DwordAddress(blob, k)) == Some(Pack(Chunk(bits, k)))
  }

  lemma DivideTwice(x: nat, m: nat)
    requires m > 0
    ensures x / (2 * m) == (x / 2) / m
  {
    var q, r := x / 2, x % 2;
    var s, t := q / m, q % m;
    assert q == m * s + t;
    assert x == (2 * m) * s + (2 * t + r);
    QuotientIs(x, 2 * m, s, 2 * t + r);
  }

  lemma QuotientIs(x: nat, d: nat, s: nat, rest: nat)
    requires d > 0 && x == d * s + rest && rest < d
    ensures x / d == s
  {
    var q := x / d;
    assert x == d * q + x % d;
    if q > s {
      StepUp(d, s, q);
    } else if q < s {
      StepUp(d, q, s);
    }
  }

  lemma StepUp(d: nat, a: nat, b: nat)
    requires a < b
    ensures d * a + d <= d * b
  {
    assert d * b == d * (a + 1) + d * (b - a - 1);
  }

  lemma {:induction false} PackedBit(bits: seq<bool>, b: nat)
    requires b < |bits|
    ensures BitOf(Pack(bits), b) == bits[b]
  {
    if b > 0 {
      PackedBit(bits[1..], b - 1);
      DivideTwice(Pack(bits), PowerOfTwo(b - 1));
      assert Pack(bits) / 2 == Pack(bits[1..]);
    }
  }

  lemma ChunkBit(bits: seq<bool>, k: nat, b: nat)
    requires 32 * k + b < |bits| && b < 32
    ensures b < |Chunk(bits, k)| && Chunk(bits, k)[b] == bits[32 * k + b]
  {
  }

  lemma HeldBit(mem: Memory, blob: Word, bits: seq<bool>, n: nat)
    requires Holds(mem, blob, bits) && n < |bits|
    ensures 32 * (n / 32) < |bits| && Read(mem, DwordAddress(blob, n / 32)) == Some(Pack(Chunk(bits, n / 32)))
    ensures n % 32 < |Chunk(bits, n / 32)| && Chunk(bits, n / 32)[n % 32] == bits[n]
  {
    var k, b := n / 32, n % 32;
    assert n == 32 * k + b;
    ChunkBit(bits, k, b);
  }

  lemma BitPlace(a: Attribute, i: nat)
    requires a.kind == 1 && a.blob != 0 && i < a.numValues
    ensures var n := a.valueIndex + i; a.ElementAddress(i) == Some(DwordAddress(a.blob, n / 32)) && a.ElementBit(i) == n % 32
  {
  }

  lemma BitRead(mem: Memory, a: Attribute, i: nat, at: Word, w: Word)
    requires a.kind == 1 && a.ElementAddress(i) == Some(at) && Read(mem, at) == Some(w)
    ensures AttributeBool(mem, a, i) == Some(BitOf(w, a.ElementBit(i)))
  {
  }

  lemma PowerOf32()
    ensures PowerOfTwo(32) == WORDS
  {
    assert PowerOfTwo(8) == 0x100;
    assert PowerOfTwo(16) == 0x1_0000;
    assert PowerOfTwo(24) == 0x100_0000;
  }

  lemma {:induction false} PowersGrow(n: nat, m: nat)
    requires n <= m
    ensures PowerOfTwo(n) <= PowerOfTwo(m)
    decreases m - n
  {
    if n < m {
      PowersGrow(n + 1, m);
    }
  }

  // What goes into dword k.
  function Dword(bits: seq<bool>, k: nat): (w: Word)
    requires 32 * k < |bits|
  {
    PowersGrow(|Chunk(bits, k)|, 32);
    PowerOf32();
    Pack(Chunk(bits, k))
  }

  // A dword of a blob of n bits stands at this address.
  predicate InBlob(blob: Word, n: nat, at: Word) {
    blob <= at && (at - blob) % 4 == 0 && 8 * (at - blob) < n
  }

  // A memory that holds these bits and nothing else.
  function PackedMemory(blob: Word, bits: seq<bool>): (mem: Memory)
    requires 0 < blob && blob + 4 * (|bits| / 32) + 4 <= WORDS
  {
    map at: Word | InBlob(blob, |bits|, at) :: Dword(bits, (at - blob) / 4)
  }

  /** Any booleans can be packed, and read back one by one. */
  lemma PackThenRead(blob: Word, bits: seq<bool>, a: Attribute, i: nat)
    requires 0 < blob && blob + 4 * (|bits| / 32) + 4 <= WORDS
    requires a.kind == 1 && a.blob == blob && i < a.numValues && a.valueIndex + a.numValues <= |bits|
    ensures AttributeBool(PackedMemory(blob, bits), a, i) == Some(bits[a.valueIndex + i])
  {
    PackedHolds(blob, bits);
    PackedRoundTrip(PackedMemory(blob, bits), a, bits, i);
  }

  lemma PackedHolds(blob: Word, bits: seq<bool>)
    requires 0 < blob && blob + 4 * (|bits| / 32) + 4 <= WORDS
    ensures Holds(PackedMemory(blob, bits), blob, bits)
  {
    forall k: nat | 32 * k < |bits|
      ensures Read(PackedMemory(blob, bits), DwordAddress(blob, k)) == Some(Pack(Chunk(bits, k)))
    {
      NoWrap(blob, |bits|, k);
      DwordAt(blob, bits, k, DwordAddress(blob, k));
    }
  }

  lemma NoWrap(blob: Word, n: nat, k: nat)
    requires blob + 4 * (n / 32) + 4 <= WORDS && 32 * k < n
    ensures DwordAddress(blob, k) == blob + 4 * k
  {
    assert k <= n / 32;
  }

  lemma DwordAt(blob: Word, bits: seq<bool>, k: nat, at: Word)
    requires 0 < blob && blob + 4 * (|bits| / 32) + 4 <= WORDS && 32 * k < |bits| && at == blob + 4 * k
    ensures Read(PackedMemory(blob, bits), at) == Some(Pack(Chunk(bits, k)))
  {
    assert (at - blob) / 4 == k && InBlob(blob, |bits|, at);
  }

  /** Reading every element of a bit attribute over a packed blob returns the packed
      booleans, whichever dwords they straddle. */
  lemma PackedRoundTrip(mem: Memory, a: Attribute, bits: seq<bool>, i: nat)
    requires a.kind == 1 && Holds(mem, a.blob, bits)
    requires a.valueIndex + a.numValues <= |bits| && i < a.numValues
    ensures AttributeBool(mem, a, i) == Some(bits[a.valueIndex + i])
  {
    var n := a.valueIndex + i;
    HeldBit(mem, a.blob, bits, n);
    PackedBit(Chunk(bits, n / 32), n % 32);
    BitPlace(a, i);
    BitRead(mem, a, i, DwordAddress(a.blob, n / 32), Pack(Chunk(bits, n / 32)));
  }

  // Memory at blob holds these dwords.
  ghost predicate HoldsWords(mem: Memory, blob: Word, words: seq<Word>) {
    && blob != 0
    && forall k :: 0 <= k < |words| ==>
         var at := (blob + 4 * k) % 0x1_0000_0000; at != 0 && at in mem && mem[at] == words[k]
  }

  /** Reading every element of a link attribute over a blob of dwords returns the dwords, null ones
      as no record. */
  lemma LinksRoundTrip(mem: Memory, a: Attribute, words: seq<Word>, i: nat)
    requires (a.kind == 9 || a.kind == 10) && HoldsWords(mem, a.blob, words)
    requires a.valueIndex + a.numValues <= |words| && i < a.numValues
    ensures var w := words[a.valueIndex + i];
            AttributeRecord(mem, a, i) == if w == 0 then None else Some(w)
  {
    WordAddress(mem, a, words, i);
  }

  lemma WordAddress(mem: Memory, a: Attribute, words: seq<Word>, i: nat)
    requires (a.kind == 9 || a.kind == 10) && HoldsWords(mem, a.blob, words)
    requires a.valueIndex + a.numValues <= |words| && i < a.numValues
    ensures a.ElementAddress(i).Some? && Read(mem, a.ElementAddress(i).value) == Some(words[a.valueIndex + i])
  {
    var k := a.valueIndex + i;
    assert words[k] in words;
    assert a.ElementAddress(i) == Some((a.blob + 4 * k) % 0x1_0000_0000);
  }

  /** Nothing is read past an attribute's elements, without a blob, or as another kind: a bit is
      never read as a link nor a link as a bit. */
  lemma NothingElseIsRead(mem: Memory, a: Attribute, i: nat)
    ensures i >= a.numValues || a.blob == 0 ==> AttributeBool(mem, a, i).None? && AttributeRecord(mem, a, i).None?
    ensures a.kind != 1 ==> AttributeBool(mem, a, i).None?
    ensures a.kind != 9 && a.kind != 10 ==> AttributeRecord(mem, a, i).None?
  {
  }

  /** Two bit elements of one blob occupy the same (address, bit) exactly when they are
      the same bit of the blob; so elements of one attribute never share a place. */
  lemma SamePlaceIsSameBit(a: Attribute, i: nat, b: Attribute, j: nat)
    requires a.IsBit() && b.IsBit() && a.blob == b.blob != 0 && i < a.numValues && j < b.numValues
    ensures a.ElementAddress(i) == b.ElementAddress(j) && a.ElementBit(i) == b.ElementBit(j) <==> a.valueIndex + i == b.valueIndex + j
  {
    var m, n := a.valueIndex + i, b.valueIndex + j;
    NoWrapCollision(a.blob, m / 32, n / 32);
    assert m == 32 * (m / 32) + m % 32 && n == 32 * (n / 32) + n % 32;
  }

  lemma NoWrapCollision(base: Word, p: nat, q: nat)
    requires p < 0x10000 && q < 0x10000
    ensures (base + 4 * p) % WORDS == (base + 4 * q) % WORDS <==> p == q
  {
  }

  // ---- lookup ----------------------------------------------------------------------

  const TYPE_MASK := 0x40

  // One attribute descriptor: its four fields, each read on its own.
  datatype Descriptor = Descriptor(hash: Option<Word>, rawType: Option<Byte>, count: Option<Byte>, valueIndex: Option<Half>)

  // A record's header: the attribute count and the two pointers, and the descriptors that the
  // array pointer leads to.
  datatype Record = Record(count: Option<Word>, base: Option<Word>, blob: Option<Word>, descriptors: seq<Descriptor>)

  // The descriptors a record declares. A count above 4096 is a misread and reads as none.
  function Declared(r: Record): nat {
    if r.count.None? || r.count.value > MAX_ATTRIBUTES then 0 else r.count.value
  }

  // As many descriptors as declared can be addressed.
  predicate Addressed(r: Record) {
    |r.descriptors| == Declared(r)
  }

  predicate ArrayReadable(r: Record) {
    r.base.Some? && r.base.value != 0
  }

  // All four fields can be read.
  predicate Complete(d: Descriptor) {
    d.hash.Some? && d.rawType.Some? && d.count.Some? && d.valueIndex.Some?
  }

  // The attribute at an index. The low six bits of the raw type are the kind.
  function AttributeAt(r: Record, i: nat): Option<Attribute>
    requires Addressed(r)
  {
    if i >= Declared(r) || !ArrayReadable(r) || r.blob.None? || !Complete(r.descriptors[i]) then None
    else
      var d := r.descriptors[i];
      Some(Attribute(d.rawType.value % TYPE_MASK, d.count.value, d.valueIndex.value, r.blob.value))
  }

  // The descriptor an attribute would be stored in; the raw type has two more bits above the kind.
  function Stored(hash: Word, a: Attribute, flags: nat): Descriptor
    requires a.kind < 64 && flags < 4
  {
    Descriptor(Some(hash), Some(a.kind + 64 * flags), Some(a.numValues), Some(a.valueIndex))
  }

  /** Every attribute stored in a record is read back at its index, whatever the flags beside its kind;
      a record that declares more than 4096 attributes has none. */
  lemma AttributeReadBack(r: Record, i: nat, hash: Word, a: Attribute, flags: nat)
    requires Addressed(r) && r.base.Some? && r.base.value != 0 && r.blob == Some(a.blob) && i < |r.descriptors|
    requires a.kind < 64 && flags < 4 && r.descriptors[i] == Stored(hash, a, flags)
    ensures AttributeAt(r, i) == Some(a)
    ensures r.count.Some? && i < r.count.value <= 4096
  {
  }

  lemma ManyAreNone(r: Record, i: nat)
    requires Addressed(r)
    ensures r.count.None? || r.count.value > 4096 || i >= r.count.value ==> AttributeAt(r, i).None?
    ensures r.count.Some? && r.count.value <= 4096 ==> |r.descriptors| == r.count.value
  {
  }

  function Hashes(r: Record): (keys: seq<Option<Word>>)
    ensures |keys| == |r.descriptors| && forall i :: 0 <= i < |keys| ==> keys[i] == r.descriptors[i].hash
  {
    seq(|r.descriptors|, i requires 0 <= i < |r.descriptors| => r.descriptors[i].hash)
  }

  // Descriptor i carries the name's hash.
  predicate Carries(table: FoldTable, r: Record, i: nat, name: Name) {
    i < |r.descriptors| && Hash(table, name).Some? && r.descriptors[i].hash == Hash(table, name)
  }

  // The name is there to be found: the array can be searched, the blob pointer can be read,
  // and every descriptor that carries the hash is complete.
  ghost predicate Retrievable(table: FoldTable, r: Record, name: Name) {
    && ArrayReadable(r) && r.blob.Some?
    && (forall i :: 0 <= i < |r.descriptors| && Carries(table, r, i, name) ==> Complete(r.descriptors[i]))
  }

  ghost predicate Carried(table: FoldTable, r: Record, name: Name) {
    exists i: nat :: Carries(table, r, i, name)
  }

  /** Lookup by name over descriptors that store hashes only, then the attribute at the hit.
      On any data what is found carries the name's hash, and needs both pointers and all four
      fields of its descriptor to be readable. Over ascending descriptors, if every descriptor
      carrying the hash is complete, a name is found exactly if some descriptor carries it. */
  method FindAttribute(table: FoldTable, r: Record, name: Name) returns (a: Option<Attribute>)
    requires Addressed(r)
    ensures a.Some? ==> ArrayReadable(r) && r.blob.Some? && exists i: nat :: Carries(table, r, i, name) && a == AttributeAt(r, i)
    ensures NameIndexing.Ascending(Hashes(r)) && Retrievable(table, r, name) ==> (a.Some? <==> Carried(table, r, name))
  {
    var want := HashName(table, name);
    if want.None? || Declared(r) == 0 || !ArrayReadable(r) {
      return None;
    }
    var keys := Hashes(r);
    if NameIndexing.Ascending(keys) {
      NameIndexing.SearchComplete(keys, want.value, 0, |keys|);
    }
    var hit := NameIndexing.BinarySearchByHash(keys, want.value);
    if hit.None? {
      assert forall i: nat :: Carries(table, r, i, name) ==> keys[i] == want;
      return None;
    }
    assert Carries(table, r, hit.value, name);
    a := AttributeAt(r, hit.value);
  }
}
