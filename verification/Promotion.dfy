/** Promotion rewrites one hot column of a copy of a row group, bit by bit and
    byte by byte, and publishes the copy in place of the original. */
module Promotion {
  import opened Bits
  import opened PlaneMemory
  import opened Storage
  import opened Ingest
  import opened Adaptive
  import opened QueryPlanner

  const FINGERPRINT_FLIP: u64 := 0x999

  function Promotable(warm: seq<string>): nat { if |warm| <= ROWS then |warm| else ROWS }

  /** Row `row` of the target column is marked when its dictionary string is in the filter. */
  predicate Marked(hash: Hash, filter: Filter, warm: seq<string>, n: nat, row: nat)
    requires n <= |warm|
  {
    row < n && Contains(hash, filter, warm[row])
  }

  /** Cells after the first `n` strings: plane 0 of the target column gains the marked rows. */
  ghost predicate CellsAfter(hash: Hash, g: Group, slot: nat, n: nat, planes: seq<u8>)
    requires IsPlanes(g.planes) && n <= |g.warm|
  {
    IsPlanes(planes) &&
    forall s, p, r | 0 <= s < SLOTS && 0 <= p < PLANES && 0 <= r < ROWS ::
      Cell(planes, s, p, r) <==> Cell(g.planes, s, p, r) || (s == slot && p == 0 && Marked(hash, g.filter, g.warm, n, r))
  }

  ghost predicate PresenceAfter(g: Group, slot: nat, n: nat, m: seq<seq<u64>>)
    requires IsPresence(g.presence)
  {
    IsPresence(m) &&
    forall c, b | 0 <= c < 64 && 0 <= b < 1024 ::
      BlockPresent(m, c, b) <==> BlockPresent(g.presence, c, b) || (c == slot && 64 * b < n)
  }

  /** Nothing is written outside the plane array: the column exists, or no string is marked at all. */
  predicate Addressable(hash: Hash, g: Group, slot: nat) {
    slot < SLOTS || forall i | 0 <= i < Promotable(g.warm) :: !Contains(hash, g.filter, g.warm[i])
  }

  /** The condition is exact: every byte the promotion sets lies inside the planes if and only if it holds. */
  lemma InBoundsIff(hash: Hash, g: Group, slot: nat)
    requires IsPlanes(g.planes)
    ensures (forall i | 0 <= i < Promotable(g.warm) && Contains(hash, g.filter, g.warm[i]) ::
               ByteAddress(slot, 0, i) < |g.planes|) <==> Addressable(hash, g, slot)
  {
    if slot < SLOTS {
      forall i | 0 <= i < Promotable(g.warm) ensures ByteAddress(slot, 0, i) < |g.planes| {
        OrByteCells(g.planes, slot, 0, i, 0, 0, 0);
      }
    } else if i :| 0 <= i < Promotable(g.warm) && Contains(hash, g.filter, g.warm[i]) {
      assert ByteAddress(slot, 0, i) >= |g.planes|;
    }
  }

  lemma MarkCell(hash: Hash, g: Group, slot: nat, n: nat, planes: seq<u8>, s: nat, p: nat, r: nat)
    requires IsPlanes(g.planes) && n < Promotable(g.warm) && slot < SLOTS && CellsAfter(hash, g, slot, n, planes)
    requires Contains(hash, g.filter, g.warm[n])
    requires s < SLOTS && p < PLANES && r < ROWS
    ensures ByteAddress(slot, 0, n) < |planes|
    ensures Cell(OrByte(planes, ByteAddress(slot, 0, n), n % 8), s, p, r) <==>
            Cell(g.planes, s, p, r) || (s == slot && p == 0 && Marked(hash, g.filter, g.warm, n + 1, r))
  {
    OrByteCells(planes, slot, 0, n, s, p, r);
  }

  lemma MarkRow(hash: Hash, g: Group, slot: nat, n: nat, planes: seq<u8>)
    requires IsPlanes(g.planes) && n < Promotable(g.warm) && Addressable(hash, g, slot) && CellsAfter(hash, g, slot, n, planes)
    ensures Contains(hash, g.filter, g.warm[n]) ==>
              ByteAddress(slot, 0, n) < |planes| &&
              CellsAfter(hash, g, slot, n + 1, OrByte(planes, ByteAddress(slot, 0, n), n % 8))
    ensures !Contains(hash, g.filter, g.warm[n]) ==> CellsAfter(hash, g, slot, n + 1, planes)
  {
    if Contains(hash, g.filter, g.warm[n]) {
      OrByteCells(planes, slot, 0, n, 0, 0, 0);
      var q := OrByte(planes, ByteAddress(slot, 0, n), n % 8);
      forall s, p, r | 0 <= s < SLOTS && 0 <= p < PLANES && 0 <= r < ROWS
        ensures Cell(q, s, p, r) <==>
                Cell(g.planes, s, p, r) || (s == slot && p == 0 && Marked(hash, g.filter, g.warm, n + 1, r))
      {
        MarkCell(hash, g, slot, n, planes, s, p, r);
      }
    }
  }

  lemma MarkPresence(g: Group, slot: nat, n: nat, m: seq<seq<u64>>)
    requires IsPresence(g.presence) && PresenceAfter(g, slot, n, m) && n < ROWS
    ensures PresenceAfter(g, slot, n + 1, SetPresence(m, slot, n / 64))
  {
    forall c, b | 0 <= c < 64 && 0 <= b < 1024
      ensures BlockPresent(SetPresence(m, slot, n / 64), c, b) <==>
              BlockPresent(g.presence, c, b) || (c == slot && 64 * b < n + 1)
    {
      SetPresenceSets(m, slot, n / 64, c, b);
    }
  }

  lemma BitOfOne(i: nat)
    ensures Bit(1, i) <==> i == 0
  {
    BitPow2(0, i);
  }

  class PromotionDaemon {
    const hash: Hash

    constructor (hash: Hash)
      ensures this.hash == hash
    {
      this.hash := hash;
    }

    /** Sets the bits of one row's value in the target column: the program loops over all 64 planes. */
    method PromoteRow(rg: RowGroup, slot: nat, i: nat, ghost g: Group)
      requires rg.Valid() && IsPlanes(g.planes) && i < Promotable(g.warm) && Addressable(hash, g, slot)
      requires rg.warmDictStrings == g.warm && rg.stringBloom == g.filter
      requires CellsAfter(hash, g, slot, i, rg.hotDataPlanes)
      modifies rg`hotDataPlanes
      ensures rg.Valid() && CellsAfter(hash, g, slot, i + 1, rg.hotDataPlanes)
    {
      MarkRow(hash, g, slot, i, rg.hotDataPlanes);
      var val := if Contains(hash, rg.stringBloom, rg.warmDictStrings[i]) then 1 else 0;
      ghost var before := rg.hotDataPlanes;
      var bit := 0;
      while bit < 64
        invariant 0 <= bit <= 64 && rg.Valid()
        invariant rg.hotDataPlanes ==
                  if val == 1 && bit > 0 then OrByte(before, ByteAddress(slot, 0, i), i % 8) else before
      {
        BitOfOne(bit);
        BitOfZero(bit);
        if Bit(val, bit) {
          rg.hotDataPlanes := OrByte(rg.hotDataPlanes, ByteAddress(slot, bit, i), i % 8);
        }
        bit := bit + 1;
      }
    }

    /** Copies the group, promotes into the copy, and publishes it. Readers holding the
        original keep an unchanged group, since only the shared pointer is modified. */
    method ExecuteCompactionPromotion(ref: GroupRef, slot: nat) returns (ok: bool)
      requires ref.target != null ==> ref.target.Valid() && Addressable(hash, ref.target.View(), slot)
      modifies ref`target
      ensures ok <==> old(ref.target) != null
      ensures !ok ==> ref.target == null
      ensures ok ==> ref.target != null && fresh(ref.target) && ref.target.Valid()
      ensures ok ==> Promoted(hash, old(ref.target.View()), slot, ref.target.View())
      ensures ok ==> ref.target.fingerprintHash == Xor(old(ref.target.fingerprintHash), 0x999)
    {
      var oldRg := ref.target;
      if oldRg == null {
        return false;
      }
      ghost var g := oldRg.View();
      var newRg := new RowGroup.Copy(oldRg);
      var i := 0;
      while i < |newRg.warmDictStrings| && i < 65536
        modifies newRg
        invariant 0 <= i <= Promotable(g.warm) && newRg.Valid()
        invariant CellsAfter(hash, g, slot, i, newRg.hotDataPlanes)
        invariant PresenceAfter(g, slot, i, newRg.nullMaps)
        invariant newRg.View() == g.(planes := newRg.hotDataPlanes, presence := newRg.nullMaps)
      {
        PromoteRow(newRg, slot, i, g);
        MarkPresence(g, slot, i, newRg.nullMaps);
        newRg.SetBlockPresence(slot, i / 64);
        i := i + 1;
      }
      Pow2Values();
      XorBound(newRg.fingerprintHash, FINGERPRINT_FLIP, 64);
      newRg.fingerprintHash := Xor(newRg.fingerprintHash, FINGERPRINT_FLIP);
      ref.target := newRg;
      return true;
    }
  }

  /** The published group: the original with the target column's plane 0 and presence extended. */
  ghost predicate Promoted(hash: Hash, g: Group, slot: nat, g': Group)
    requires IsPlanes(g.planes) && IsPresence(g.presence)
  {
    && CellsAfter(hash, g, slot, Promotable(g.warm), g'.planes)
    && PresenceAfter(g, slot, Promotable(g.warm), g'.presence)
    && g' == g.(planes := g'.planes, presence := g'.presence, fingerprint := g'.fingerprint)
    && g'.fingerprint == Xor(g.fingerprint, FINGERPRINT_FLIP)
  }

  /** A group with an unused column `slot` whose filter holds its dictionary. */
  ghost predicate Ready(hash: Hash, g: Group, slot: nat) {
    && slot < SLOTS && IsPlanes(g.planes) && IsPresence(g.presence)
    && (forall p, r | 0 <= p < PLANES && 0 <= r < ROWS :: !Cell(g.planes, slot, p, r))
    && g.filter == FilterOf(hash, g.warm)
  }

  /** Every transcoded group is ready in the columns transcoding leaves alone. */
  lemma TranscodedIsReady(hash: Hash, rows: seq<StoredRow>, g: Group, slot: nat)
    requires Transcoded(hash, rows, g) && 2 <= slot < SLOTS
    ensures Ready(hash, g, slot) && g.warm == Warms(rows)
  {
  }

  /** Promoting into an unused column makes exactly the dictionary positions read 1, leaves every
      other column alone, and does not change any pruning answer. */
  lemma PromotionMeaning(hash: Hash, g: Group, slot: nat, g': Group)
    requires Ready(hash, g, slot) && Promoted(hash, g, slot, g')
    ensures forall r | 0 <= r < ROWS :: Decode(g'.planes, slot, r) == if r < |g.warm| then 1 else 0
    ensures forall s, r | 0 <= s < SLOTS && s != slot && 0 <= r < ROWS :: Decode(g'.planes, s, r) == Decode(g.planes, s, r)
    ensures forall p :: Keeps(hash, g', p) == Keeps(hash, g, p)
  {
    forall r | 0 <= r < ROWS ensures Decode(g'.planes, slot, r) == if r < |g.warm| then 1 else 0 {
      if r < |g.warm| { FilterContains(hash, g.warm, g.warm[r]); }
      forall p | 0 <= p < PLANES ensures Cell(g'.planes, slot, p, r) == Bit(if r < |g.warm| then 1 else 0, p) {
        BitOfOne(p);
        BitOfZero(p);
      }
      DecodeIs(g'.planes, slot, r, if r < |g.warm| then 1 else 0);
    }
    forall s, r | 0 <= s < SLOTS && s != slot && 0 <= r < ROWS ensures Decode(g'.planes, s, r) == Decode(g.planes, s, r) {
      DecodeIs(g'.planes, s, r, Decode(g.planes, s, r));
    }
  }

  lemma {:induction false} WarmsBound(rows: seq<StoredRow>)
    ensures |Warms(rows)| <= |rows|
  {
    if rows != [] { WarmsBound(rows[..|rows| - 1]); }
  }

  /** Rows with a string come before rows without. */
  ghost predicate WarmFirst(rows: seq<StoredRow>) {
    forall i, j | 0 <= i < j < |rows| && rows[j].warm.Some? :: rows[i].warm.Some?
  }

  /** Two rows of which only the second carries a string: promotion marks the first. */
  lemma MisalignedPromotion(hash: Hash, rows: seq<StoredRow>, g: Group, slot: nat, g': Group)
    requires |rows| == 2 && rows[0].warm.None? && rows[1].warm.Some?
    requires Ready(hash, g, slot) && g.warm == Warms(rows) && |rows| <= ROWS && Promoted(hash, g, slot, g')
    ensures Decode(g'.planes, slot, 0) == 1 && Decode(g'.planes, slot, 1) == 0
  {
    OnlySecondWarm(rows);
    PromotionMeaning(hash, g, slot, g');
  }

  lemma OnlySecondWarm(rows: seq<StoredRow>)
    requires |rows| == 2 && rows[0].warm.None? && rows[1].warm.Some?
    ensures |Warms(rows)| == 1
  {
    WarmsSnoc(rows, 0);
    WarmsSnoc(rows, 1);
    assert rows[..0] == [] && rows[..2] == rows;
  }

  lemma {:induction false} WarmFirstCounts(rows: seq<StoredRow>, r: nat)
    requires WarmFirst(rows) && r < |rows|
    ensures r < |Warms(rows)| <==> rows[r].warm.Some?
    decreases |rows|
  {
    var n := |rows| - 1;
    var init := rows[..n];
    WarmsBound(init);
    if n > 0 { WarmFirstCounts(init, n - 1); }
    if r < n { WarmFirstCounts(init, r); }
  }

  /** The promoted column is written by dictionary position, not by row: it marks exactly the rows
      that carry a string if and only if those rows all come first. */
  lemma PromotionAlignedIff(hash: Hash, rows: seq<StoredRow>, g: Group, slot: nat, g': Group)
    requires Ready(hash, g, slot) && g.warm == Warms(rows) && |rows| <= ROWS && Promoted(hash, g, slot, g')
    ensures (forall r | 0 <= r < |rows| :: Decode(g'.planes, slot, r) == 1 <==> rows[r].warm.Some?) <==> WarmFirst(rows)
  {
    PromotionMeaning(hash, g, slot, g');
    if WarmFirst(rows) {
      forall r | 0 <= r < |rows| ensures Decode(g'.planes, slot, r) == 1 <==> rows[r].warm.Some? {
        WarmFirstCounts(rows, r);
      }
    }
  }
}
