/** Row-group metadata: zone maps, the Bloom filter and block presence, and the row group that carries them. */
module Storage {
  import opened Bits
  import opened PlaneMemory

  /** The unsigned zone map: the range of the values seen so far. */
  datatype ZoneMap = ZoneMap(hasValues: bool, min: u64, max: u64) {
    function Update(v: u64): ZoneMap {
      ZoneMap(true, if v < min then v else min, if v > max then v else max)
    }

    predicate CheckInRange(lo: u64, hi: u64) { hasValues && !(hi < min || lo > max) }
  }

  const EMPTY_ZONE := ZoneMap(false, ALL_ONES, 0)

  function ZoneOf(values: seq<u64>): ZoneMap {
    if values == [] then EMPTY_ZONE else ZoneOf(values[..|values| - 1]).Update(values[|values| - 1])
  }

  /** A zone map is exact: its ends are values that occurred, and every value lies between them. */
  lemma {:induction false} ZoneExact(values: seq<u64>)
    ensures ZoneOf(values).hasValues <==> values != []
    ensures forall i | 0 <= i < |values| :: ZoneOf(values).min <= values[i] <= ZoneOf(values).max
    ensures values != [] ==> ZoneOf(values).min in values && ZoneOf(values).max in values
  {
    if values != [] {
      var init := values[..|values| - 1];
      ZoneExact(init);
      if init != [] {
        assert ZoneOf(init).min in values && ZoneOf(init).max in values;
      }
      assert values[|values| - 1] in values;
    }
  }

  /** The range test refuses a range only when no value lies in it, and accepts exactly
      the ranges that reach into the span of the values. */
  lemma RangeTestSound(values: seq<u64>, lo: u64, hi: u64)
    ensures (exists i :: 0 <= i < |values| && lo <= values[i] <= hi) ==> ZoneOf(values).CheckInRange(lo, hi)
    ensures lo <= hi && ZoneOf(values).CheckInRange(lo, hi) ==>
              exists i, j :: 0 <= i < |values| && 0 <= j < |values| && values[i] <= hi && lo <= values[j]
  {
    ZoneExact(values);
  }

  /** `words[w] |= 1 << b` */
  function LightWord(words: seq<u64>, w: nat, b: nat): (r: seq<u64>)
    requires w < |words| && b < 64
    ensures |r| == |words|
  {
    Pow2Values();
    Pow2Below(b, 64);
    OrBound(words[w], Pow2(b), 64);
    words[w := Or(words[w], Pow2(b))]
  }

  lemma LightWordLights(words: seq<u64>, w: nat, b: nat, i: nat, k: nat)
    requires w < |words| && b < 64 && i < |words| && k < 64
    ensures Bit(LightWord(words, w, b)[i], k) <==> (i == w && k == b) || Bit(words[i], k)
  {
    if i == w {
      BitOr(words[w], Pow2(b), k);
      BitPow2(b, k);
    }
  }

  /** The hash is any function; only its being a function matters. */
  type Hash = (string, nat) -> u64

  const SEED_A := 0x13579bdf
  const SEED_B := 0x2468ace0
  const WORDS := 1024

  /** The two bits a key owns: a word index and a bit within that word. */
  function ProbeA(hash: Hash, key: string): (int, int) {
    (hash(key, SEED_A) % WORDS, hash(key, SEED_B) % 64)
  }

  function ProbeB(hash: Hash, key: string): (int, int) {
    ((hash(key, SEED_A) % WORDS + 1) % WORDS, (hash(key, SEED_A) / 64) % 64)
  }

  type Filter = ws: seq<u64> | |ws| == WORDS witness seq(WORDS, _ => 0)

  function EmptyFilter(): Filter { seq(WORDS, _ => 0) }

  predicate Lit(f: Filter, at: (int, int))
    requires 0 <= at.0 < WORDS && 0 <= at.1 < 64
  {
    Bit(f[at.0], at.1)
  }

  function Light(f: Filter, at: (int, int)): Filter
    requires 0 <= at.0 < WORDS && 0 <= at.1 < 64
  {
    LightWord(f, at.0, at.1)
  }

  function Add(hash: Hash, f: Filter, key: string): Filter {
    Light(Light(f, ProbeA(hash, key)), ProbeB(hash, key))
  }

  predicate Contains(hash: Hash, f: Filter, key: string) {
    Lit(f, ProbeA(hash, key)) && Lit(f, ProbeB(hash, key))
  }

  function FilterOf(hash: Hash, keys: seq<string>): Filter
    decreases |keys|
  {
    if keys == [] then EmptyFilter() else Add(hash, FilterOf(hash, keys[..|keys| - 1]), keys[|keys| - 1])
  }

  lemma LightLights(f: Filter, at: (int, int), x: (int, int))
    requires 0 <= at.0 < WORDS && 0 <= at.1 < 64 && 0 <= x.0 < WORDS && 0 <= x.1 < 64
    ensures Lit(Light(f, at), x) <==> x == at || Lit(f, x)
  {
    LightWordLights(f, at.0, at.1, x.0, x.1);
  }

  /** A filter bit is lit exactly when some added key owns it. */
  lemma {:induction false} FilterBits(hash: Hash, keys: seq<string>, x: (int, int))
    requires 0 <= x.0 < WORDS && 0 <= x.1 < 64
    ensures Lit(FilterOf(hash, keys), x) <==>
            exists i :: 0 <= i < |keys| && (x == ProbeA(hash, keys[i]) || x == ProbeB(hash, keys[i]))
  {
    if keys == [] {
      BitOfZero(x.1);
    } else {
      var init, key := keys[..|keys| - 1], keys[|keys| - 1];
      FilterBits(hash, init, x);
      LightLights(FilterOf(hash, init), ProbeA(hash, key), x);
      LightLights(Light(FilterOf(hash, init), ProbeA(hash, key)), ProbeB(hash, key), x);
      if Lit(FilterOf(hash, init), x) {
        var i :| 0 <= i < |init| && (x == ProbeA(hash, init[i]) || x == ProbeB(hash, init[i]));
        assert keys[i] == init[i];
      }
    }
  }

  /** Adding one key to a fresh filter lights two bits: in the word the first hash selects, the bit the
      second hash selects; in the next word, wrapping at the end, the bit of the first hash's next six bits. */
  lemma FilterOfOne(hash: Hash, key: string, w: nat, b: nat)
    requires w < 1024 && b < 64
    ensures var h1, h2 := hash(key, 0x13579bdf), hash(key, 0x2468ace0);
            Bit(FilterOf(hash, [key])[w], b) <==>
            (w == h1 % 1024 && b == h2 % 64) || (w == (h1 % 1024 + 1) % 1024 && b == h1 / 64 % 64)
  {
    var fresh_, first := EmptyFilter(), Light(EmptyFilter(), ProbeA(hash, key));
    assert [key][..0] == [];
    assert FilterOf(hash, [key]) == Add(hash, fresh_, key);
    LightLights(fresh_, ProbeA(hash, key), (w, b));
    LightLights(first, ProbeB(hash, key), (w, b));
    BitOfZero(b);
  }

  /** No false negatives. */
  lemma FilterContains(hash: Hash, keys: seq<string>, key: string)
    requires key in keys
    ensures Contains(hash, FilterOf(hash, keys), key)
  {
    CollisionContains(hash, keys, key, key);
  }

  /** A key whose bits an added key owns is reported present. */
  lemma CollisionContains(hash: Hash, keys: seq<string>, other: string, key: string)
    requires other in keys && Collides(hash, other, key)
    ensures Contains(hash, FilterOf(hash, keys), key)
  {
    var i :| 0 <= i < |keys| && keys[i] == other;
    FilterBits(hash, keys, ProbeA(hash, key));
    FilterBits(hash, keys, ProbeB(hash, key));
  }

  /** An empty filter reports every key absent. */
  lemma EmptyFilterRejects(hash: Hash, key: string)
    ensures !Contains(hash, EmptyFilter(), key)
  {
    BitOfZero(ProbeA(hash, key).1);
  }

  /** `other` owns both bits of `key`, so a filter holding only `other` reports `key` present. */
  predicate Collides(hash: Hash, other: string, key: string) {
    && ProbeA(hash, key) in {ProbeA(hash, other), ProbeB(hash, other)}
    && ProbeB(hash, key) in {ProbeA(hash, other), ProbeB(hash, other)}
  }

  lemma SingletonFilter(hash: Hash, other: string, key: string)
    ensures Contains(hash, FilterOf(hash, [other]), key) <==> Collides(hash, other, key)
  {
    FilterBits(hash, [other], ProbeA(hash, key));
    FilterBits(hash, [other], ProbeB(hash, key));
  }

  /** Presence maps: 16 words of 64 block bits for each of the 64 columns. */
  ghost predicate IsPresence(m: seq<seq<u64>>) {
    |m| == 64 && forall c | 0 <= c < 64 :: |m[c]| == 16
  }

  const NO_BLOCKS: seq<seq<u64>> := seq(64, _ => seq(16, _ => 0))

  predicate BlockPresent(m: seq<seq<u64>>, col: nat, block: nat)
    requires IsPresence(m)
  {
    col < |m| && block < 1024 && Bit(m[col][block / 64], block % 64)
  }

  function SetPresence(m: seq<seq<u64>>, col: nat, block: nat): (m': seq<seq<u64>>)
    requires IsPresence(m)
    ensures IsPresence(m')
  {
    if col < |m| && block < 1024 then
      m[col := LightWord(m[col], block / 64, block % 64)]
    else m
  }

  lemma SetPresenceSets(m: seq<seq<u64>>, col: nat, block: nat, c: nat, b: nat)
    requires IsPresence(m) && c < 64 && b < 1024
    ensures BlockPresent(SetPresence(m, col, block), c, b) <==> (c == col && b == block) || BlockPresent(m, c, b)
  {
    if c == col && block < 1024 {
      LightWordLights(m[c], block / 64, block % 64, b / 64, b % 64);
    }
  }

  lemma NoBlocksPresent(c: nat, b: nat)
    requires c < 64 && b < 1024
    ensures !BlockPresent(NO_BLOCKS, c, b)
  {
    BitOfZero(b % 64);
  }

  /** Everything a row group stores, as a value. */
  datatype Group = Group(
    zones: seq<ZoneMap>, filter: Filter, presence: seq<seq<u64>>, planes: seq<u8>,
    warm: seq<string>, raw: seq<string>, compacted: bool, fingerprint: u64)

  const FINGERPRINT: u64 := 0xABC123987

  /** A row group is shared between readers and writers, so it is an object with an identity. */
  class RowGroup {
    var zoneMaps: seq<ZoneMap>
    var stringBloom: Filter
    var nullMaps: seq<seq<u64>>
    var hotDataPlanes: seq<u8>
    var warmDictStrings: seq<string>
    var rawChunkBuffer: seq<string>
    var isCompacted: bool
    var fingerprintHash: u64

    ghost predicate Valid()
      reads this
    {
      |zoneMaps| == 64 && IsPlanes(hotDataPlanes) && IsPresence(nullMaps)
    }

    function View(): Group
      reads this
    {
      Group(zoneMaps, stringBloom, nullMaps, hotDataPlanes, warmDictStrings, rawChunkBuffer, isCompacted, fingerprintHash)
    }

    constructor ()
      ensures Valid()
      ensures View() == Group(seq(64, _ => EMPTY_ZONE), EmptyFilter(), NO_BLOCKS, Zeros(), [], [], false, 0)
    {
      zoneMaps := seq(64, _ => EMPTY_ZONE);
      stringBloom, nullMaps, hotDataPlanes := EmptyFilter(), NO_BLOCKS, Zeros();
      warmDictStrings, rawChunkBuffer := [], [];
      isCompacted, fingerprintHash := false, 0;
    }

    /** The copy constructor. */
    constructor Copy(other: RowGroup)
      requires other.Valid()
      ensures Valid() && View() == other.View()
    {
      zoneMaps, stringBloom, nullMaps := other.zoneMaps, other.stringBloom, other.nullMaps;
      hotDataPlanes, warmDictStrings, rawChunkBuffer := other.hotDataPlanes, other.warmDictStrings, other.rawChunkBuffer;
      isCompacted, fingerprintHash := other.isCompacted, other.fingerprintHash;
    }

    method SetBlockPresence(col: nat, block: nat)
      requires Valid()
      modifies `nullMaps
      ensures Valid() && nullMaps == SetPresence(old(nullMaps), col, block)
      ensures forall c, b | 0 <= c < 64 && 0 <= b < 1024 ::
                BlockPresent(nullMaps, c, b) <==> (c == col && b == block) || BlockPresent(old(nullMaps), c, b)
    {
      forall c, b | 0 <= c < 64 && 0 <= b < 1024
        ensures BlockPresent(SetPresence(nullMaps, col, block), c, b) <==>
                (c == col && b == block) || BlockPresent(nullMaps, c, b)
      {
        SetPresenceSets(nullMaps, col, block, c, b);
      }
      nullMaps := SetPresence(nullMaps, col, block);
    }
  }
}
