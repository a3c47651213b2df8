/** The engine's case-folding name hash: base 919, modulo 2^32. */
module NameHash {
  import opened Options

  type Byte = n: int | 0 <= n < 256
  type Name = seq<Byte>
  type Word = n: int | 0 <= n < WORDS

  const WORDS := 0x1_0000_0000
  const MULTIPLIER := 919

  // The 256-byte fold table read from module memory. None: the module is not mapped.
  // A byte missing from the map is a read that faults.
  type FoldTable = Option<map<Byte, Byte>>

  ghost predicate Foldable(table: FoldTable, name: Name) {
    table.Some? && forall i :: 0 <= i < |name| ==> name[i] in table.value
  }

  // ---- the unbounded polynomial --------------------------------------------------

  function Power(n: nat): (p: nat)
    ensures p > 0
  {
    if n == 0 then 1 else MULTIPLIER * Power(n - 1)
  }

  function Folded(table: FoldTable, name: Name): (r: Name)
    requires Foldable(table, name)
    ensures |r| == |name|
  {
    seq(|name|, i requires 0 <= i < |name| => table.value[name[i]])
  }

  // digits[0] * 919^(n-1) + ... + digits[n-1].
  function Polynomial(digits: Name): nat {
    if digits == [] then 0 else digits[0] * Power(|digits| - 1) + Polynomial(digits[1..])
  }

  // ---- the hash ----------------------------------------------------------------------

  // One round: the byte plus 919 times the hash so far, in 32 bits.
  function Round(hash: Word, digit: Byte): Word {
    (digit + MULTIPLIER * hash) % WORDS
  }

  function HashFrom(table: FoldTable, hash: Word, name: Name): Option<Word>
    decreases |name|
  {
    if table.None? then None
    else if name == [] then Some(hash)
    else if name[0] !in table.value then None
    else HashFrom(table, Round(hash, table.value[name[0]]), name[1..])
  }

  function Hash(table: FoldTable, name: Name): Option<Word> {
    HashFrom(table, 0, name)
  }

  method HashName(table: FoldTable, name: Name) returns (r: Option<Word>)
    ensures r == Hash(table, name)
  {
    if table.None? {
      return None;
    }
    var hash: Word := 0;
    assert name[0..] == name;
    for i := 0 to |name|
      invariant HashFrom(table, hash, name[i..]) == Hash(table, name)
    {
      assert name[i..][0] == name[i] && name[i..][1..] == name[i + 1..];
      if name[i] !in table.value {
        return None;
      }
      hash := Round(hash, table.value[name[i]]);
    }
    r := Some(hash);
  }

  // ---- what it computes ----------------------------------------------------------------

  lemma ModularRound(x: nat, y: nat, d: nat)
    requires x % WORDS == y % WORDS
    ensures (d + MULTIPLIER * x) % WORDS == (d + MULTIPLIER * y) % WORDS
  {
    var k := x / WORDS - y / WORDS;
    assert MULTIPLIER * x == MULTIPLIER * y + MULTIPLIER * k * WORDS;
    Shift(d + MULTIPLIER * y, MULTIPLIER * k);
  }

  lemma Shift(a: int, k: int)
    ensures (a + k * WORDS) % WORDS == a % WORDS
  {
  }

  lemma Distribute(d: nat, p: nat, r: nat, q: nat)
    ensures (d * p + r) * q == d * (p * q) + r * q
  {
    assert (d * p) * q == d * (p * q);
  }

  // Horner's step may reduce its operands first.
  lemma ModularHorner(x: nat, w: nat, y: nat)
    ensures (x * w + y) % WORDS == ((x % WORDS) * w + y % WORDS) % WORDS
  {
    var k, j := x / WORDS, y / WORDS;
    Distribute(k, WORDS, x % WORDS, w);
    assert x * w == (k * w) * WORDS + (x % WORDS) * w;
    Shift((x % WORDS) * w + y % WORDS, k * w + j);
  }

  lemma {:induction false} PolynomialSplit(a: Name, b: Name)
    ensures Polynomial(a + b) == Polynomial(a) * Power(|b|) + Polynomial(b)
  {
    if a == [] {
      assert a + b == b;
    } else {
      PolynomialSplit(a[1..], b);
      assert (a + b)[1..] == a[1..] + b;
      assert (a + b)[0] == a[0] && |a + b| - 1 == (|a| - 1) + |b|;
      PowerSum(|a| - 1, |b|);
      Distribute(a[0], Power(|a| - 1), Polynomial(a[1..]), Power(|b|));
    }
  }

  lemma {:induction false} PowerSum(m: nat, n: nat)
    ensures Power(m + n) == Power(m) * Power(n)
  {
    if m > 0 {
      PowerSum(m - 1, n);
      assert MULTIPLIER * (Power(m - 1) * Power(n)) == MULTIPLIER * Power(m - 1) * Power(n);
    }
  }

  lemma FoldableRest(table: FoldTable, name: Name)
    requires table.Some? && name != []
    ensures Foldable(table, name) <==> name[0] in table.value && Foldable(table, name[1..])
    ensures Foldable(table, name) ==> Folded(table, name) == [table.value[name[0]]] + Folded(table, name[1..])
  {
    assert forall i :: 0 < i < |name| ==> name[i] == name[1..][i - 1];
    assert forall i :: 0 <= i < |name| - 1 ==> name[1..][i] == name[i + 1];
  }

  lemma RoundIsHorner(hash: Word, done: Name, d: Byte)
    requires hash == Polynomial(done) % WORDS
    ensures Round(hash, d) == Polynomial(done + [d]) % WORDS
  {
    PolynomialSplit(done, [d]);
    assert Power(1) == MULTIPLIER;
    ModularRound(Polynomial(done), hash, d);
  }

  lemma {:induction false} HashFromIsPolynomial(table: FoldTable, hash: Word, done: Name, name: Name)
    requires table.Some? && hash == Polynomial(done) % WORDS
    ensures Foldable(table, name) <==> HashFrom(table, hash, name).Some?
    ensures Foldable(table, name) ==> HashFrom(table, hash, name) == Some(Polynomial(done + Folded(table, name)) % WORDS)
    decreases |name|
  {
    if name == [] {
      assert Foldable(table, name) && done + Folded(table, name) == done;
    } else {
      FoldableRest(table, name);
      if name[0] in table.value {
        var d := table.value[name[0]];
        RoundIsHorner(hash, done, d);
        HashFromIsPolynomial(table, Round(hash, d), done + [d], name[1..]);
        assert Foldable(table, name) ==> done + Folded(table, name) == (done + [d]) + Folded(table, name[1..]);
      }
    }
  }

  /** The hash exists exactly when every byte can be folded, and is then the base-919
      polynomial of the folded bytes modulo 2^32. */
  lemma HashIsPolynomial(table: FoldTable, name: Name)
    ensures Hash(table, name).Some? <==> Foldable(table, name)
    ensures Foldable(table, name) ==> Hash(table, name).value == Polynomial(Folded(table, name)) % WORDS
  {
    if table.Some? {
      HashFromIsPolynomial(table, 0, [], name);
      if Foldable(table, name) {
        assert [] + Folded(table, name) == Folded(table, name);
      }
    }
  }

  lemma PolynomialOfConcat(table: FoldTable, a: Name, b: Name)
    requires Foldable(table, a) && Foldable(table, b)
    ensures Foldable(table, a + b)
    ensures Polynomial(Folded(table, a + b)) == Polynomial(Folded(table, a)) * Power(|b|) + Polynomial(Folded(table, b))
  {
    var fa, fb := Folded(table, a), Folded(table, b);
    assert Folded(table, a + b) == fa + fb;
    PolynomialSplit(fa, fb);
  }

  lemma CombineHashes(ha: Word, hb: Word, both: Word, x: nat, y: nat, w: nat)
    requires ha == x % WORDS && hb == y % WORDS && both == (x * w + y) % WORDS
    ensures both == (ha * w + hb) % WORDS
  {
    ModularHorner(x, w, y);
  }

  lemma {:induction false} HashFromAppend(table: FoldTable, hash: Word, name: Name, c: Byte)
    requires Foldable(table, name) && c in table.value
    ensures HashFrom(table, hash, name).Some?
    ensures HashFrom(table, hash, name + [c]) == Some((919 * HashFrom(table, hash, name).value + table.value[c]) % 0x1_0000_0000)
    decreases |name|
  {
    if name == [] {
      assert name + [c] == [c] && [c][1..] == [];
    } else {
      assert (name + [c])[1..] == name[1..] + [c];
      assert forall i :: 0 <= i < |name| - 1 ==> name[1..][i] == name[i + 1];
      HashFromAppend(table, Round(hash, table.value[name[0]]), name[1..], c);
    }
  }

  /** One more byte: the empty name hashes to zero, and H(a + c) = 919 * H(a) + fold(c) in 32 bits. */
  lemma HashOfAppend(table: FoldTable, name: Name, c: Byte)
    requires Foldable(table, name) && c in table.value
    ensures Hash(table, []) == Some(0)
    ensures Hash(table, name).Some?
    ensures Hash(table, name + [c]) == Some((919 * Hash(table, name).value + table.value[c]) % 0x1_0000_0000)
  {
    HashFromAppend(table, 0, name, c);
  }

  lemma ConcatValue(ha: Option<Word>, hb: Option<Word>, both: Option<Word>, x: nat, y: nat, w: nat, z: nat)
    requires z == x * w + y && ha == Some(x % WORDS) && hb == Some(y % WORDS) && both == Some(z % WORDS)
    ensures both == Some((ha.value * w + hb.value) % WORDS)
  {
    CombineHashes(ha.value, hb.value, both.value, x, y, w);
  }

  /** Hashing a concatenation: H(a + b) = H(a) * 919^|b| + H(b). */
  lemma HashOfConcat(table: FoldTable, a: Name, b: Name)
    requires Foldable(table, a) && Foldable(table, b)
    ensures Hash(table, a).Some? && Hash(table, b).Some?
    ensures Hash(table, a + b) == Some((Hash(table, a).value * Power(|b|) + Hash(table, b).value) % WORDS)
  {
    HashIsPolynomial(table, a);
    HashIsPolynomial(table, b);
    HashIsPolynomial(table, a + b);
    PolynomialOfConcat(table, a, b);
    ConcatValue(Hash(table, a), Hash(table, b), Hash(table, a + b), Polynomial(Folded(table, a)), Polynomial(Folded(table, b)),
                Power(|b|), Polynomial(Folded(table, a + b)));
  }

  /** Names that fold alike hash alike, whatever their case. */
  lemma EqualFoldsHashAlike(table: FoldTable, a: Name, b: Name)
    requires Foldable(table, a) && Foldable(table, b) && Folded(table, a) == Folded(table, b)
    ensures Hash(table, a) == Hash(table, b)
  {
    HashIsPolynomial(table, a);
    HashIsPolynomial(table, b);
  }
}
