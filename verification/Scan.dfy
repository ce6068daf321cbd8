/** What the recovery scan knows after it has looked at a part of the journal. */
module Scan {
  import opened Blocks
  import opened Bytes
  import opened Records

  /** The first `k` slots of the block are the records of `cs` followed by erased slots. */
  ghost predicate Scanned(rec: Format, slots: seq<Slot>, k: nat, cs: seq<u32>) {
    && |cs| <= k <= |slots|
    && Increasing(cs)
    && (forall i | 0 <= i < |cs| :: slots[i] == rec(cs[i]))
    && (forall i | |cs| <= i < k :: Erased(slots[i]))
  }

  function LastOf(cs: seq<u32>): u32 {
    if cs == [] then 0 else cs[|cs| - 1]
  }

  /** The position kept while the records `c0` and `c1` have been seen: the newest of them, or
      still the provisioned counter when none reaches it. */
  predicate Tracks(c0: seq<u32>, c1: seq<u32>, floor: u32, p: Position, found: bool) {
    if found then Newest(c0, c1, floor, p)
    else p.counter == floor && AllBelow(c0, floor) && AllBelow(c1, floor)
  }

  /** The same while block `block` is being scanned: `cs` are its records so far, and `c0` are
      the records of block 0 once that has been scanned. */
  predicate Tracking(block: nat, c0: seq<u32>, cs: seq<u32>, floor: u32, p: Position, found: bool) {
    if block == 0 then Tracks(cs, [], floor, p, found) else Tracks(c0, cs, floor, p, found)
  }

  function Newer(block: nat, cs: seq<u32>, p: Position, c: u32): Position {
    if p.counter <= c then Position(c, block, |cs| + 1) else p
  }

  lemma {:induction false} TrackingNext(block: nat, c0: seq<u32>, cs: seq<u32>, floor: u32, p: Position,
                                        found: bool, c: u32)
    requires block < 2 && Increasing(c0) && Increasing(cs) && LastOf(cs) < c
    requires Tracking(block, c0, cs, floor, p, found)
    ensures Tracking(block, c0, cs + [c], floor, Newer(block, cs, p, c), found || p.counter <= c)
  {
    if block == 1 && found && p.active == 0 {
      forall k | 0 <= k < |c0| ensures c0[k] <= p.counter {
        assert k == |c0| - 1 || c0[k] < c0[|c0| - 1];
      }
    }
  }

  /** The state of the scan before slot `k`: the last counter seen, and whether an erased slot has
      been. */
  ghost predicate Progress(rec: Format, slots: seq<Slot>, k: nat, gap: bool, last: u32, cs: seq<u32>) {
    Scanned(rec, slots, k, cs) && last == LastOf(cs) && (gap <==> |cs| < k)
  }

  lemma {:induction false} ScannedErased(rec: Format, slots: seq<Slot>, k: nat, gap: bool, last: u32, cs: seq<u32>)
    requires Progress(rec, slots, k, gap, last, cs) && k < |slots| && Erased(slots[k])
    ensures Progress(rec, slots, k + 1, true, last, cs)
  {
  }

  lemma {:induction false} ScannedRecord(rec: Format, slots: seq<Slot>, k: nat, last: u32, cs: seq<u32>, c: u32)
    requires Progress(rec, slots, k, false, last, cs) && k < |slots| && slots[k] == rec(c) && last < c
    ensures Progress(rec, slots, k + 1, false, c, cs + [c])
  {
    IncreasingNext(cs, c);
  }

  lemma {:induction false} ScannedAll(rec: Format, slots: seq<Slot>, gap: bool, last: u32, cs: seq<u32>)
    requires Progress(rec, slots, |slots|, gap, last, cs)
    ensures Holds(rec, slots, cs)
  {
  }

  lemma {:induction false} IncreasingNext(cs: seq<u32>, c: u32)
    requires Increasing(cs) && LastOf(cs) < c
    ensures Increasing(cs + [c])
  {
    forall i, j | 0 <= i < j < |cs + [c]| ensures (cs + [c])[i] < (cs + [c])[j] {
      if j == |cs| && i < |cs| - 1 {
        assert cs[i] < cs[|cs| - 1];
      }
    }
  }

  lemma {:induction false} RecordAt(rec: Format, slots: seq<Slot>, ds: seq<u32>, i: nat)
    requires TornProof(rec)
    requires Holds(rec, slots, ds) && i < |ds|
    ensures slots[i] == rec(ds[i]) && !Erased(slots[i])
  {
  }

  /** A slot after the scanned part that is neither erased nor the next record spoils the block. */
  lemma {:induction false} BadSlot(rec: Format, slots: seq<Slot>, k: nat, cs: seq<u32>, ds: seq<u32>)
    requires TornProof(rec)
    requires Scanned(rec, slots, k, cs) && k < |slots| && !Erased(slots[k])
    requires |cs| < k || forall c: u32 :: LastOf(cs) < c ==> slots[k] != rec(c)
    ensures !Holds(rec, slots, ds)
  {
    if Holds(rec, slots, ds) {
      assert k < |ds| && slots[k] == rec(ds[k]);
      RecordAt(rec, slots, ds, |cs|);
      if 0 < |cs| {
        RecordAt(rec, slots, ds, |cs| - 1);
        RecordInjective(rec, ds[|cs| - 1], cs[|cs| - 1]);
      }
    }
  }

  /** When a scan of both blocks has found no record at or above the provisioned counter, the
      image cannot be recovered. */
  lemma {:induction false} NothingFound(rec: Format, img: Image, c0: seq<u32>, c1: seq<u32>, floor: u32, p: Position)
    requires TornProof(rec)
    requires Holds(rec, img[0], c0) && Holds(rec, img[1], c1)
    requires AllBelow(c0, floor) && AllBelow(c1, floor)
    ensures !Recovers(rec, img, floor, p)
  {
    if Recovers(rec, img, floor, p) {
      var d0, d1 :| Holds(rec, img[0], d0) && Holds(rec, img[1], d1) && Newest(d0, d1, floor, p);
      HoldsUnique(rec, img[0], c0, d0);
      HoldsUnique(rec, img[1], c1, d1);
    }
  }
}
