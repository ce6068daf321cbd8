/** The contents of the two journal blocks, what recovery makes of them, and what power loss
    during a save can do to them. */
module Blocks {
  import opened Bits
  import opened Bytes
  import opened Records

  /** The slots of the two erase blocks. */
  type Image = i: seq<seq<Slot>> | |i| == 2 && |i[0]| == |i[1]| witness [[], []]

  predicate Increasing(cs: seq<u32>) {
    && (forall i | 0 <= i < |cs| :: cs[i] != 0)
    && (forall i, j | 0 <= i < j < |cs| :: cs[i] < cs[j])
  }

  /** The block consists of the records of `cs`, in order, followed by erased slots. */
  ghost predicate Holds(rec: Format, slots: seq<Slot>, cs: seq<u32>) {
    && |cs| <= |slots|
    && Increasing(cs)
    && (forall k | 0 <= k < |cs| :: slots[k] == rec(cs[k]))
    && (forall k | |cs| <= k < |slots| :: Erased(slots[k]))
  }

  /** Where the newest record is: its counter, its block, and the slot after it. */
  datatype Position = Position(counter: u32, active: nat, next: nat)

  predicate EndsAt(cs: seq<u32>, floor: u32, p: Position) {
    0 < p.next == |cs| && p.counter == cs[|cs| - 1] && floor <= p.counter
  }

  predicate AllBelow(cs: seq<u32>, c: int) {
    forall k | 0 <= k < |cs| :: cs[k] < c
  }

  /** `p` is the newest of the records listed for the two blocks; on a tie block 1 wins, and
      counters below the provisioned one do not count. */
  predicate Newest(c0: seq<u32>, c1: seq<u32>, floor: u32, p: Position) {
    || (p.active == 0 && EndsAt(c0, floor, p) && AllBelow(c1, p.counter))
    || (p.active == 1 && EndsAt(c1, floor, p) && AllBelow(c0, p.counter as int + 1))
  }

  /** A load of this image with this provisioned counter succeeds at position `p`. */
  ghost predicate Recovers(rec: Format, img: Image, floor: u32, p: Position) {
    exists c0, c1 :: Holds(rec, img[0], c0) && Holds(rec, img[1], c1) && Newest(c0, c1, floor, p)
  }

  lemma {:induction false} RecordInjective(rec: Format, c: u32, d: u32)
    requires TornProof(rec) && rec(c) == rec(d)
    ensures c == d
  {
    forall i | 0 <= i < SLOT ensures Covers(rec(d)[i], rec(c)[i]) {
      CoversReflexive(rec(c)[i]);
    }
    assert CoversSlot(rec(d), rec(c));
  }

  lemma {:induction false} ErasedIsNoRecord(rec: Format, r: Slot, c: u32)
    requires TornProof(rec) && Erased(r)
    ensures r != rec(c)
  {
  }

  lemma {:induction false} HoldsAt(rec: Format, slots: seq<Slot>, cs: seq<u32>, ds: seq<u32>, k: nat)
    requires TornProof(rec)
    requires Holds(rec, slots, cs) && Holds(rec, slots, ds)
    requires k < |cs|
    ensures k < |ds| && cs[k] == ds[k]
  {
    assert slots[k] == rec(cs[k]);
    if k < |ds| {
      RecordInjective(rec, cs[k], ds[k]);
    }
  }

  lemma {:induction false} HoldsUnique(rec: Format, slots: seq<Slot>, cs: seq<u32>, ds: seq<u32>)
    requires TornProof(rec)
    requires Holds(rec, slots, cs) && Holds(rec, slots, ds)
    ensures cs == ds
  {
    forall k | 0 <= k < |cs| ensures k < |ds| && cs[k] == ds[k] {
      HoldsAt(rec, slots, cs, ds, k);
    }
    if |cs| < |ds| {
      HoldsAt(rec, slots, ds, cs, |cs|);
    } else if |ds| < |cs| {
      HoldsAt(rec, slots, cs, ds, |ds|);
    }
  }

  lemma {:induction false} RecoversUnique(rec: Format, img: Image, floor: u32, p: Position, q: Position)
    requires TornProof(rec)
    requires Recovers(rec, img, floor, p) && Recovers(rec, img, floor, q)
    ensures p == q
  {
    var c0, c1 :| Holds(rec, img[0], c0) && Holds(rec, img[1], c1) && Newest(c0, c1, floor, p);
    var d0, d1 :| Holds(rec, img[0], d0) && Holds(rec, img[1], d1) && Newest(d0, d1, floor, q);
    HoldsUnique(rec, img[0], c0, d0);
    HoldsUnique(rec, img[1], c1, d1);
    NewestUnique(c0, c1, floor, p, q);
  }

  lemma {:induction false} NewestUnique(c0: seq<u32>, c1: seq<u32>, floor: u32, p: Position, q: Position)
    requires Newest(c0, c1, floor, p) && Newest(c0, c1, floor, q)
    ensures p == q
  {
  }

  lemma {:induction false} RecoversBounds(rec: Format, img: Image, floor: u32, p: Position)
    requires Recovers(rec, img, floor, p)
    ensures p.active < 2 && 0 < p.next <= |img[0]| && floor <= p.counter != 0
  {
  }

  /** Recovery finds the largest counter recorded in either block: every slot that is not erased
      holds a record that is no newer, and the newest one is just before the next free slot. */
  lemma {:induction false} RecoversLargest(rec: Format, img: Image, floor: u32, p: Position, b: nat, k: nat)
    requires Recovers(rec, img, floor, p) && b < 2 && k < |img[b]|
    ensures Erased(img[b][k]) || exists c: u32 :: 0 < c <= p.counter && img[b][k] == rec(c)
    ensures b == p.active && k == p.next - 1 ==> img[b][k] == rec(p.counter)
  {
    var c0, c1 :| Holds(rec, img[0], c0) && Holds(rec, img[1], c1) && Newest(c0, c1, floor, p);
    var cs := if b == 0 then c0 else c1;
    if k < |cs| {
      assert img[b][k] == rec(cs[k]) && 0 < cs[k];
      if b == p.active {
        assert k == p.next - 1 || cs[k] < cs[p.next - 1];
      }
      assert cs[k] <= p.counter;
    }
  }

  /** Every slot after the newest record, in its block, is erased. */
  lemma {:induction false} FreeSlotsErased(rec: Format, img: Image, floor: u32, p: Position, k: nat)
    requires Recovers(rec, img, floor, p)
    requires p.next <= k < |img[0]|
    ensures p.active < 2 && Erased(img[p.active][k])
  {
  }

  // ----- Saving -----

  function Other(block: nat): nat {
    if block == 0 then 1 else 0
  }

  /** The in-memory position after a successful save. */
  function Advance(p: Position, slots: nat, c: u32): Position {
    if p.next == slots then Position(c, Other(p.active), 1) else Position(c, p.active, p.next + 1)
  }

  function ErasedBlock(slots: nat): seq<Slot> {
    seq(slots, _ => seq(SLOT, _ => 255))
  }

  /** The image with `r` programmed where the next save goes: the slot after the newest record
      or, when its block is full, the first slot of the other block, which has been erased. */
  function Written(img: Image, p: Position, r: Slot): Image
    requires p.active < 2 && 0 < p.next <= |img[0]|
  {
    var full := p.next == |img[0]|;
    var block: seq<Slot> := if full then ErasedBlock(|img[0]|)[0 := r] else img[p.active][p.next := r];
    if (p.active == 0) == full then [img[0], block] else [block, img[1]]
  }

  /** A block whose erase may have stopped at any point. */
  ghost predicate TornErase(was: seq<Slot>, now: seq<Slot>) {
    |now| == |was| && forall k | 0 <= k < |was| :: CoversSlot(now[k], was[k])
  }

  /** Every image that flash can have between the start and the end of a save of `c`: untouched,
      in the middle of the rollover erase, or in the middle of the program of the new slot. */
  ghost predicate DuringSave(rec: Format, img: Image, p: Position, c: u32, now: Image)
    requires p.active < 2 && 0 < p.next <= |img[0]|
  {
    || now == img
    || (p.next == |img[0]| && now[p.active] == img[p.active] && TornErase(img[Other(p.active)], now[Other(p.active)]))
    || (exists r: Slot :: CoversSlot(r, rec(c)) && now == Written(img, p, r))
  }

  lemma {:induction false} TornEraseAt(rec: Format, was: seq<Slot>, now: seq<Slot>, cs: seq<u32>, ds: seq<u32>, k: nat)
    requires TornProof(rec)
    requires TornErase(was, now) && Holds(rec, was, cs) && Holds(rec, now, ds)
    requires k < |ds|
    ensures k < |cs| && cs[k] == ds[k]
  {
    assert now[k] == rec(ds[k]) && CoversSlot(now[k], was[k]);
    if |cs| <= k {
      forall i | 0 <= i < SLOT ensures now[k][i] == 255 {
        CoversErased(now[k][i]);
      }
    } else {
      assert was[k] == rec(cs[k]);
    }
  }

  /** A torn erase leaves a block that is either unreadable or holds a prefix of its records. */
  lemma {:induction false} TornEraseKeepsPrefix(rec: Format, was: seq<Slot>, now: seq<Slot>, cs: seq<u32>, ds: seq<u32>)
    requires TornProof(rec)
    requires TornErase(was, now) && Holds(rec, was, cs) && Holds(rec, now, ds)
    ensures ds <= cs
  {
    forall k | 0 <= k < |ds| ensures k < |cs| && cs[k] == ds[k] {
      TornEraseAt(rec, was, now, cs, ds, k);
    }
    if |cs| < |ds| {
      TornEraseAt(rec, was, now, cs, ds, |cs|);
    }
  }

  /** A torn program of the slot after the last record leaves a block that is unreadable, or
      unchanged, or has exactly the new record added. */
  lemma {:induction false} TornProgramAddsOneOrNone(rec: Format, was: seq<Slot>, cs: seq<u32>, c: u32, r: Slot,
                                                    ds: seq<u32>)
    requires TornProof(rec)
    requires Holds(rec, was, cs) && |cs| < |was| && CoversSlot(r, rec(c))
    requires Holds(rec, was[|cs| := r], ds)
    ensures ds == cs || ds == cs + [c]
  {
    var now, n := was[|cs| := r], |cs|;
    forall k | 0 <= k < |ds| && k < n ensures ds[k] == cs[k] {
      assert now[k] == rec(ds[k]) && now[k] == rec(cs[k]);
      RecordInjective(rec, ds[k], cs[k]);
    }
    if |ds| < n {
      ErasedIsNoRecord(rec, now[|ds|], cs[|ds|]);
    } else if |ds| == n + 1 {
      assert now[n] == rec(ds[n]);
    } else if n + 1 < |ds| {
      ErasedIsNoRecord(rec, was[n + 1], ds[n + 1]);
    }
  }

  /** A record written to the end extends the block by its counter. */
  lemma {:induction false} ProgramAddsOne(rec: Format, was: seq<Slot>, cs: seq<u32>, c: u32)
    requires Holds(rec, was, cs) && |cs| < |was|
    requires c != 0 && AllBelow(cs, c)
    ensures Holds(rec, was[|cs| := rec(c)], cs + [c])
  {
  }

  lemma {:induction false} BelowNext(cs: seq<u32>, floor: u32, p: Position, c: u32)
    requires Increasing(cs) && EndsAt(cs, floor, p) && p.counter < c
    ensures AllBelow(cs, c)
  {
    forall k | 0 <= k < |cs| ensures cs[k] < c {
      assert k == |cs| - 1 || cs[k] < cs[|cs| - 1];
    }
  }

  /** Adding a larger counter to the active block makes it the newest one. */
  lemma {:induction false} NewestAppended(c0: seq<u32>, c1: seq<u32>, floor: u32, p: Position, c: u32)
    requires Newest(c0, c1, floor, p) && p.counter < c
    ensures p.active == 0 ==> Newest(c0 + [c], c1, floor, Position(c, 0, p.next + 1))
    ensures p.active == 1 ==> Newest(c0, c1 + [c], floor, Position(c, 1, p.next + 1))
  {
  }

  /** So does making it the only one of the other block. */
  lemma {:induction false} NewestRolledOver(c0: seq<u32>, c1: seq<u32>, floor: u32, p: Position, c: u32)
    requires Increasing(c0) && Increasing(c1)
    requires Newest(c0, c1, floor, p) && p.counter < c
    ensures p.active == 0 ==> Newest(c0, [c], floor, Position(c, 1, 1)) && AllBelow(c0, c)
    ensures p.active == 1 ==> Newest([c], c1, floor, Position(c, 0, 1)) && AllBelow(c1, c)
    ensures p.active == 0 ==> Newest(c0, [], floor, p)
    ensures p.active == 1 ==> Newest([], c1, floor, p)
  {
    BelowNext(if p.active == 0 then c0 else c1, floor, p, c);
  }

  lemma {:induction false} BlankHolds(rec: Format, slots: nat)
    ensures Holds(rec, ErasedBlock(slots), [])
  {
  }

  lemma {:induction false} RecoversFrom(rec: Format, img: Image, c0: seq<u32>, c1: seq<u32>, floor: u32, p: Position)
    requires Holds(rec, img[0], c0) && Holds(rec, img[1], c1) && Newest(c0, c1, floor, p)
    ensures Recovers(rec, img, floor, p)
  {
  }

  lemma {:induction false} AppendRecovers(rec: Format, img: Image, floor: u32, p: Position, c: u32)
    requires Recovers(rec, img, floor, p) && p.counter < c
    requires p.active < 2 && 0 < p.next < |img[0]|
    ensures Recovers(rec, Written(img, p, rec(c)), floor, Position(c, p.active, p.next + 1))
  {
    var c0, c1 :| Holds(rec, img[0], c0) && Holds(rec, img[1], c1) && Newest(c0, c1, floor, p);
    var now := Written(img, p, rec(c));
    NewestAppended(c0, c1, floor, p, c);
    if p.active == 0 {
      BelowNext(c0, floor, p, c);
      ProgramAddsOne(rec, img[0], c0, c);
      RecoversFrom(rec, now, c0 + [c], c1, floor, Position(c, 0, p.next + 1));
    } else {
      BelowNext(c1, floor, p, c);
      ProgramAddsOne(rec, img[1], c1, c);
      RecoversFrom(rec, now, c0, c1 + [c], floor, Position(c, 1, p.next + 1));
    }
  }

  lemma {:induction false} RolloverRecovers(rec: Format, img: Image, floor: u32, p: Position, c: u32)
    requires Recovers(rec, img, floor, p) && p.counter < c
    requires p.active < 2 && 0 < p.next == |img[0]|
    ensures Recovers(rec, Written(img, p, rec(c)), floor, Position(c, Other(p.active), 1))
  {
    var c0, c1 :| Holds(rec, img[0], c0) && Holds(rec, img[1], c1) && Newest(c0, c1, floor, p);
    var now, blank := Written(img, p, rec(c)), ErasedBlock(|img[0]|);
    NewestRolledOver(c0, c1, floor, p, c);
    BlankHolds(rec, |img[0]|);
    ProgramAddsOne(rec, blank, [], c);
    assert [] + [c] == [c];
    if p.active == 0 {
      RecoversFrom(rec, now, c0, [c], floor, Position(c, 1, 1));
    } else {
      RecoversFrom(rec, now, [c], c1, floor, Position(c, 0, 1));
    }
  }

  /** The erase of a rollover, once complete, has not touched the newest record. */
  lemma {:induction false} EraseKeepsNewest(rec: Format, img: Image, floor: u32, p: Position)
    requires Recovers(rec, img, floor, p) && p.next == |img[0]|
    ensures p.active < 2 && Recovers(rec, img[Other(p.active) := ErasedBlock(|img[0]|)], floor, p)
  {
    var c0, c1 :| Holds(rec, img[0], c0) && Holds(rec, img[1], c1) && Newest(c0, c1, floor, p);
    var now := img[Other(p.active) := ErasedBlock(|img[0]|)];
    BlankHolds(rec, |img[0]|);
    if p.active == 0 {
      RecoversFrom(rec, now, c0, [], floor, p);
    } else {
      RecoversFrom(rec, now, [], c1, floor, p);
    }
  }

  /** After a completed save a fresh load rebuilds exactly the in-memory position. */
  lemma {:induction false} SavedRecovers(rec: Format, img: Image, floor: u32, p: Position, c: u32)
    requires Recovers(rec, img, floor, p) && p.counter < c
    ensures p.active < 2 && 0 < p.next <= |img[0]|
    ensures Recovers(rec, Written(img, p, rec(c)), floor, Advance(p, |img[0]|, c))
  {
    RecoversBounds(rec, img, floor, p);
    if p.next == |img[0]| {
      RolloverRecovers(rec, img, floor, p, c);
    } else {
      AppendRecovers(rec, img, floor, p, c);
    }
  }

  /** Whenever power is lost during a save, the next load fails, or finds the old position, or
      finds the new one. */
  lemma {:induction false} CrashSafe(rec: Format, img: Image, floor: u32, p: Position, c: u32, now: Image, q: Position)
    requires TornProof(rec) && Recovers(rec, img, floor, p) && p.counter < c
    requires p.active < 2 && 0 < p.next <= |img[0]|
    requires DuringSave(rec, img, p, c, now) && Recovers(rec, now, floor, q)
    ensures q == p || q == Advance(p, |img[0]|, c)
  {
    if r: Slot :| CoversSlot(r, rec(c)) && now == Written(img, p, r) {
      if p.next == |img[0]| {
        CrashDuringRollover(rec, img, floor, p, c, r, q);
      } else {
        CrashDuringAppend(rec, img, floor, p, c, r, q);
      }
    } else if now == img {
      RecoversUnique(rec, img, floor, p, q);
    } else {
      CrashDuringErase(rec, img, floor, p, now, q);
    }
  }

  lemma {:induction false} CrashDuringErase(rec: Format, img: Image, floor: u32, p: Position, now: Image, q: Position)
    requires TornProof(rec) && Recovers(rec, img, floor, p) && p.active < 2
    requires TornErase(img[Other(p.active)], now[Other(p.active)]) && now[p.active] == img[p.active]
    requires Recovers(rec, now, floor, q)
    ensures q == p
  {
    var c0, c1 :| Holds(rec, img[0], c0) && Holds(rec, img[1], c1) && Newest(c0, c1, floor, p);
    var d0, d1 :| Holds(rec, now[0], d0) && Holds(rec, now[1], d1) && Newest(d0, d1, floor, q);
    if p.active == 0 {
      HoldsUnique(rec, img[0], c0, d0);
      TornEraseKeepsPrefix(rec, img[1], now[1], c1, d1);
    } else {
      HoldsUnique(rec, img[1], c1, d1);
      TornEraseKeepsPrefix(rec, img[0], now[0], c0, d0);
    }
    assert Newest(d0, d1, floor, p);
  }

  lemma {:induction false} CrashDuringAppend(rec: Format, img: Image, floor: u32, p: Position, c: u32, r: Slot,
                                             q: Position)
    requires TornProof(rec) && Recovers(rec, img, floor, p) && p.counter < c
    requires p.active < 2 && 0 < p.next < |img[0]| && CoversSlot(r, rec(c))
    requires Recovers(rec, Written(img, p, r), floor, q)
    ensures q == p || q == Advance(p, |img[0]|, c)
  {
    var now := Written(img, p, r);
    var c0, c1 :| Holds(rec, img[0], c0) && Holds(rec, img[1], c1) && Newest(c0, c1, floor, p);
    var d0, d1 :| Holds(rec, now[0], d0) && Holds(rec, now[1], d1) && Newest(d0, d1, floor, q);
    if p.active == 0 {
      HoldsUnique(rec, img[1], c1, d1);
      TornProgramAddsOneOrNone(rec, img[0], c0, c, r, d0);
    } else {
      HoldsUnique(rec, img[0], c0, d0);
      TornProgramAddsOneOrNone(rec, img[1], c1, c, r, d1);
    }
    NewestAppended(c0, c1, floor, p, c);
    NewestUnique(d0, d1, floor, q, if d0 == c0 && d1 == c1 then p else Position(c, p.active, p.next + 1));
  }

  lemma {:induction false} CrashDuringRollover(rec: Format, img: Image, floor: u32, p: Position, c: u32, r: Slot,
                                               q: Position)
    requires TornProof(rec) && Recovers(rec, img, floor, p) && p.counter < c
    requires p.active < 2 && 0 < p.next == |img[0]| && CoversSlot(r, rec(c))
    requires Recovers(rec, Written(img, p, r), floor, q)
    ensures q == p || q == Advance(p, |img[0]|, c)
  {
    var now := Written(img, p, r);
    var c0, c1 :| Holds(rec, img[0], c0) && Holds(rec, img[1], c1) && Newest(c0, c1, floor, p);
    var d0, d1 :| Holds(rec, now[0], d0) && Holds(rec, now[1], d1) && Newest(d0, d1, floor, q);
    if p.active == 0 {
      HoldsUnique(rec, img[0], c0, d0);
      TornFirst(rec, |img[0]|, c, r, d1);
    } else {
      HoldsUnique(rec, img[1], c1, d1);
      TornFirst(rec, |img[0]|, c, r, d0);
    }
    NewestRolledOver(c0, c1, floor, p, c);
    NewestUnique(d0, d1, floor, q, if d0 == [] || d1 == [] then p else Position(c, Other(p.active), 1));
  }

  lemma {:induction false} TornFirst(rec: Format, n: nat, c: u32, r: Slot, ds: seq<u32>)
    requires TornProof(rec)
    requires 0 < n && CoversSlot(r, rec(c)) && Holds(rec, ErasedBlock(n)[0 := r], ds)
    ensures ds == [] || ds == [c]
  {
    BlankHolds(rec, n);
    TornProgramAddsOneOrNone(rec, ErasedBlock(n), [], c, r, ds);
    assert [] + [c] == [c];
  }
}
