/**
 The Bloom filter built from the keys of a join's build side. It never rejects an inserted
 key, so filtering the probe side with it leaves the join unchanged; this holds for every hash
 function and every size.
*/
module RuntimeFilter {
  import opened Bitmasks
  import opened DistributedJoin

  const TWO64: nat := 0x1_0000_0000_0000_0000

  /** The two hash values of a key. */
  datatype Hash = Hash(h1: nat, h2: nat)

  /** The bit the i-th probe looks at, by double hashing with wrapping 64-bit arithmetic. */
  function Probe(h: Hash, i: nat, numBits: nat): (b: nat)
    requires numBits > 0
    ensures b < numBits
  {
    (h.h1 + h.h2 * i % TWO64) % TWO64 % numBits
  }

  ghost predicate BitAt(words: seq<nat>, b: nat) {
    b / 64 < |words| && b % 64 in Bits(words[b / 64])
  }

  /** Some probe of the key looks at bit c. */
  ghost predicate Touches(h: Hash, numHashes: nat, numBits: nat, c: nat)
    requires numBits > 0
  {
    exists i: nat :: i < numHashes && c == Probe(h, i, numBits)
  }

  lemma SetWordBit(words: seq<nat>, b: nat, c: nat)
    requires b / 64 < |words|
    ensures BitAt(words[b / 64 := Or(words[b / 64], Pow2(b % 64))], c) <==> BitAt(words, c) || c == b
  {
    OperatorBits(words[b / 64], Pow2(b % 64));
    Pow2Bits(b % 64);
    assert c == b <==> c / 64 == b / 64 && c % 64 == b % 64;
  }

  lemma TestWordBit(word: nat, k: nat)
    ensures And(word, Pow2(k)) != 0 <==> k in Bits(word)
  {
    OperatorBits(word, Pow2(k));
    Pow2Bits(k);
    ZeroBits();
    if And(word, Pow2(k)) != 0 {
      var i := SomeBit(And(word, Pow2(k)));
    }
    assert k in Bits(word) ==> k in Bits(And(word, Pow2(k)));
  }

  class BloomFilter {
    const numBits: nat
    const numHashes: nat
    const bits: array<nat>
    var numItems: nat

    ghost predicate Valid()
      reads this
    {
      numBits > 0 && 64 * bits.Length >= numBits
    }

    constructor (numBits: nat, numHashes: nat)
      requires numBits > 0
      ensures Valid() && this.numBits == numBits && this.numHashes == numHashes && numItems == 0 && fresh(bits)
      ensures forall c: nat :: !BitAt(bits[..], c)
    {
      this.numBits := numBits;
      this.numHashes := numHashes;
      var words := new nat[(numBits + 63) / 64](_ => 0);
      bits := words;
      numItems := 0;
      new;
      ZeroBits();
    }

    /** Sets the key's bits and no others. */
    method Insert(h: Hash)
      requires Valid()
      modifies this`numItems, bits
      ensures numItems == old(numItems) + 1
      ensures forall c: nat :: BitAt(bits[..], c) <==> old(BitAt(bits[..], c)) || Touches(h, numHashes, numBits, c)
    {
      for i := 0 to numHashes
        invariant numItems == old(numItems)
        invariant forall c: nat :: BitAt(bits[..], c) <==> old(BitAt(bits[..], c)) || Touches(h, i, numBits, c)
      {
        var b := Probe(h, i, numBits);
        ghost var before := bits[..];
        assert b / 64 < bits.Length;
        bits[b / 64] := Or(bits[b / 64], Pow2(b % 64));
        assert bits[..] == before[b / 64 := Or(before[b / 64], Pow2(b % 64))];
        forall c: nat
          ensures BitAt(bits[..], c) <==> BitAt(before, c) || c == b
          ensures Touches(h, i + 1, numBits, c) <==> Touches(h, i, numBits, c) || c == b
        {
          SetWordBit(before, b, c);
        }
      }
      numItems := numItems + 1;
    }

    /** Whether every bit of the key is set. */
    method Contains(h: Hash) returns (r: bool)
      requires Valid()
      ensures r <==> forall c: nat :: Touches(h, numHashes, numBits, c) ==> BitAt(bits[..], c)
    {
      for i := 0 to numHashes
        invariant forall j: nat :: j < i ==> BitAt(bits[..], Probe(h, j, numBits))
      {
        var b := Probe(h, i, numBits);
        TestWordBit(bits[b / 64], b % 64);
        if And(bits[b / 64], Pow2(b % 64)) == 0 {
          assert Touches(h, numHashes, numBits, b);
          return false;
        }
      }
      return true;
    }
  }

  // ---- Runs of inserts ----

  /** Exactly the bits of these keys are set. */
  ghost predicate Represents(words: seq<nat>, keys: seq<Hash>, numHashes: nat, numBits: nat)
    requires numBits > 0
  {
    forall c: nat :: BitAt(words, c) <==> exists k :: 0 <= k < |keys| && Touches(keys[k], numHashes, numBits, c)
  }

  /** What a query answers. */
  ghost predicate Reports(words: seq<nat>, h: Hash, numHashes: nat, numBits: nat)
    requires numBits > 0
  {
    forall c: nat :: Touches(h, numHashes, numBits, c) ==> BitAt(words, c)
  }

  /** One more insert: the filter represents one more key. */
  lemma InsertRepresents(words: seq<nat>, words': seq<nat>, keys: seq<Hash>, h: Hash, numHashes: nat, numBits: nat)
    requires numBits > 0 && Represents(words, keys, numHashes, numBits)
    requires forall c: nat :: BitAt(words', c) <==> BitAt(words, c) || Touches(h, numHashes, numBits, c)
    ensures Represents(words', keys + [h], numHashes, numBits)
  {
    var keys' := keys + [h];
    forall c: nat
      ensures BitAt(words', c) <==> exists k :: 0 <= k < |keys'| && Touches(keys'[k], numHashes, numBits, c)
    {
      if Touches(h, numHashes, numBits, c) {
        assert Touches(keys'[|keys|], numHashes, numBits, c);
      }
      if k :| 0 <= k < |keys| && Touches(keys[k], numHashes, numBits, c) {
        assert Touches(keys'[k], numHashes, numBits, c);
      }
      if k :| 0 <= k < |keys'| && Touches(keys'[k], numHashes, numBits, c) {
        assert k < |keys| ==> Touches(keys[k], numHashes, numBits, c);
      }
    }
  }

  /** Every inserted key is reported. */
  lemma NoFalseNegatives(words: seq<nat>, keys: seq<Hash>, h: Hash, numHashes: nat, numBits: nat)
    requires numBits > 0 && Represents(words, keys, numHashes, numBits) && h in keys
    ensures Reports(words, h, numHashes, numBits)
  {
    var k :| 0 <= k < |keys| && keys[k] == h;
  }

  // ---- Filtering the probe side ----

  ghost function Passing<A>(rows: seq<A>, keyOf: A -> int, hash: int -> Hash, words: seq<nat>, numHashes: nat,
                            numBits: nat): seq<A>
    requires numBits > 0
  {
    if rows == [] then []
    else
      var n := |rows| - 1;
      Passing(rows[..n], keyOf, hash, words, numHashes, numBits)
      + if Reports(words, hash(keyOf(rows[n])), numHashes, numBits) then [rows[n]] else []
  }

  /** The build side's keys, hashed. */
  ghost function BuildKeys<B>(rows: seq<B>, keyOf: B -> int, hash: int -> Hash): (keys: seq<Hash>)
    ensures |keys| == |rows| && forall i :: 0 <= i < |rows| ==> keys[i] == hash(keyOf(rows[i]))
  {
    seq(|rows|, i requires 0 <= i < |rows| => hash(keyOf(rows[i])))
  }

  /** A probe row that the filter rejects has no partner on the build side. */
  lemma RejectedHasNoPartner<A, B>(x: A, build: seq<B>, probeKey: A -> int, buildKey: B -> int, hash: int -> Hash,
                                   words: seq<nat>, numHashes: nat, numBits: nat)
    requires numBits > 0 && Represents(words, BuildKeys(build, buildKey, hash), numHashes, numBits)
    requires !Reports(words, hash(probeKey(x)), numHashes, numBits)
    ensures forall j :: 0 <= j < |build| ==> probeKey(x) != buildKey(build[j])
  {
    var keys := BuildKeys(build, buildKey, hash);
    forall j | 0 <= j < |build|
      ensures probeKey(x) != buildKey(build[j])
    {
      assert keys[j] in keys;
      NoFalseNegatives(words, keys, keys[j], numHashes, numBits);
    }
  }

  /** The equi-join of the filtered probe side is the equi-join of the whole probe side. */
  lemma {:induction false} FilterKeepsJoin<A, B>(probe: seq<A>, build: seq<B>, probeKey: A -> int, buildKey: B -> int,
                                                 hash: int -> Hash, words: seq<nat>, numHashes: nat, numBits: nat)
    requires numBits > 0 && Represents(words, BuildKeys(build, buildKey, hash), numHashes, numBits)
    ensures var on := (a: A, b: B) => probeKey(a) == buildKey(b);
            InnerJoin(Passing(probe, probeKey, hash, words, numHashes, numBits), build, on)
            == InnerJoin(probe, build, on)
    decreases |probe|
  {
    if probe != [] {
      var on := (a: A, b: B) => probeKey(a) == buildKey(b);
      var init, x := probe[..|probe| - 1], probe[|probe| - 1];
      var passing := Passing(init, probeKey, hash, words, numHashes, numBits);
      FilterKeepsJoin(init, build, probeKey, buildKey, hash, words, numHashes, numBits);
      if Reports(words, hash(probeKey(x)), numHashes, numBits) {
        assert (passing + [x])[..|passing|] == passing;
      } else {
        RejectedHasNoPartner(x, build, probeKey, buildKey, hash, words, numHashes, numBits);
        JoinRowEmpty(x, build, on);
        assert passing + [] == passing;
      }
    }
  }

  // ---- Building and probing ----

  /** The filter of a join's build side, one insert per row. */
  method BuildFilter<B>(rows: seq<B>, keyOf: B -> int, hash: int -> Hash, numBits: nat, numHashes: nat)
    returns (f: BloomFilter)
    requires numBits > 0
    ensures fresh(f) && fresh(f.bits) && f.Valid() && f.numItems == |rows|
    ensures f.numBits == numBits && f.numHashes == numHashes
    ensures Represents(f.bits[..], BuildKeys(rows, keyOf, hash), numHashes, numBits)
  {
    f := new BloomFilter(numBits, numHashes);
    ghost var keys := BuildKeys(rows, keyOf, hash);
    for i := 0 to |rows|
      invariant f.Valid() && f.numItems == i && fresh(f) && fresh(f.bits)
      invariant Represents(f.bits[..], keys[..i], numHashes, numBits)
    {
      ghost var before := f.bits[..];
      f.Insert(hash(keyOf(rows[i])));
      InsertRepresents(before, f.bits[..], keys[..i], keys[i], numHashes, numBits);
      assert keys[..i] + [keys[i]] == keys[..i + 1];
    }
    assert keys[..|rows|] == keys;
  }

  /** The probe rows whose keys the filter reports. */
  method FilterProbe<A>(f: BloomFilter, rows: seq<A>, keyOf: A -> int, hash: int -> Hash) returns (passing: seq<A>)
    requires f.Valid()
    ensures passing == Passing(rows, keyOf, hash, f.bits[..], f.numHashes, f.numBits)
  {
    passing := [];
    for i := 0 to |rows|
      invariant passing == Passing(rows[..i], keyOf, hash, f.bits[..], f.numHashes, f.numBits)
    {
      var hit := f.Contains(hash(keyOf(rows[i])));
      assert rows[..i + 1][..i] == rows[..i];
      if hit {
        passing := passing + [rows[i]];
      }
    }
    assert rows[..|rows|] == rows;
  }

  /** Builds the filter from the build side and filters the probe side with it: the join of what
      is left is the join, and no row was added or moved. */
  method PrefilterProbe<A, B>(probe: seq<A>, build: seq<B>, probeKey: A -> int, buildKey: B -> int, hash: int -> Hash,
                              numBits: nat, numHashes: nat) returns (passing: seq<A>)
    requires numBits > 0
    ensures var on := (a: A, b: B) => probeKey(a) == buildKey(b);
            InnerJoin(passing, build, on) == InnerJoin(probe, build, on)
    ensures multiset(passing) <= multiset(probe)
  {
    var f := BuildFilter(build, buildKey, hash, numBits, numHashes);
    passing := FilterProbe(f, probe, probeKey, hash);
    FilterKeepsJoin(probe, build, probeKey, buildKey, hash, f.bits[..], numHashes, numBits);
    PassingIsPart(probe, probeKey, hash, f.bits[..], numHashes, numBits);
  }

  lemma {:induction false} PassingIsPart<A>(rows: seq<A>, keyOf: A -> int, hash: int -> Hash, words: seq<nat>,
                                            numHashes: nat, numBits: nat)
    requires numBits > 0
    ensures multiset(Passing(rows, keyOf, hash, words, numHashes, numBits)) <= multiset(rows)
    decreases |rows|
  {
    if rows != [] {
      PassingIsPart(rows[..|rows| - 1], keyOf, hash, words, numHashes, numBits);
      assert rows == rows[..|rows| - 1] + [rows[|rows| - 1]];
    }
  }
}
