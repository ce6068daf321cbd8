/** The durable counter: flash cells, and the journal that keeps a counter in them. */
module Journal {
  import opened Bits
  import opened Blocks
  import opened Bytes
  import opened Records
  import opened Register
  import opened Scan
  import opened Wear
  import opened Wrappers

  /** The 32-octet slots of an erase block. */
  function SlotsOf(cells: Bytes): (slots: seq<Slot>)
    ensures |slots| == |cells| / SLOT
  {
    seq(|cells| / SLOT, k requires 0 <= k < |cells| / SLOT => cells[SLOT * k..SLOT * k + SLOT])
  }

  lemma {:induction false} SlotsUpdated(was: Bytes, now: Bytes, k: nat)
    requires |was| == |now| && SLOT * k + SLOT <= |was|
    requires was[..SLOT * k] == now[..SLOT * k] && was[SLOT * k + SLOT..] == now[SLOT * k + SLOT..]
    ensures SlotsOf(now) == SlotsOf(was)[k := now[SLOT * k..SLOT * k + SLOT]]
  {
    var s, t := SlotsOf(was), SlotsOf(now);
    forall j | 0 <= j < |s| && j != k ensures s[j] == t[j] {
      var from := SLOT * j;
      if j < k {
        SliceOfTake(was, SLOT * k, from, from + SLOT);
        SliceOfTake(now, SLOT * k, from, from + SLOT);
      } else {
        var d := from - SLOT * k - SLOT;
        SliceOfDrop(was, SLOT * k + SLOT, d, d + SLOT);
        SliceOfDrop(now, SLOT * k + SLOT, d, d + SLOT);
      }
    }
  }

  /** Cells on their way to holding `data` as well: see `Bits.Clearing`. */
  predicate AllClearing(was: Bytes, data: Bytes, now: Bytes) {
    |was| == |data| == |now| && forall i | 0 <= i < |was| :: Clearing(was[i], data[i], now[i])
  }

  lemma {:induction false} NotYetClearing(was: Bytes, data: Bytes)
    requires |was| == |data|
    ensures AllClearing(was, data, was)
  {
    forall i | 0 <= i < |was| ensures Clearing(was[i], data[i], was[i]) {
      ClearingBounds(was[i], data[i]);
    }
  }

  /** The first `n` cells from `off` on are on their way to `data`; no other cell has changed. */
  predicate PartWritten(was: Bytes, now: Bytes, off: nat, data: Bytes, n: nat)
    requires off + |data| <= |was| && n <= |data|
  {
    && |now| == |was|
    && now[..off] == was[..off]
    && now[off + n..] == was[off + n..]
    && AllClearing(was[off..off + n], data[..n], now[off..off + n])
  }

  lemma {:induction false} PartWrittenMore(was: Bytes, mid: Bytes, now: Bytes, off: nat, data: Bytes, n: nat, u: nat)
    requires off + |data| <= |was| && n + u <= |data| && |now| == |was|
    requires PartWritten(was, mid, off, data, n)
    requires AllClearing(mid[off + n..off + n + u], data[n..n + u], now[off + n..off + n + u])
    requires now[..off + n] == mid[..off + n] && now[off + n + u..] == mid[off + n + u..]
    ensures PartWritten(was, now, off, data, n + u)
  {
    assert now[..off] == now[..off + n][..off] == mid[..off + n][..off] == was[..off];
    assert now[off + n + u..] == mid[off + n..][u..] == was[off + n + u..];
    assert mid[off + n..off + n + u] == mid[off + n..][..u] == was[off + n..off + n + u];
    assert now[off..off + n] == now[..off + n][off..] == mid[off..off + n];
    assert now[off..off + n + u] == now[off..off + n] + now[off + n..off + n + u];
    assert was[off..off + n + u] == was[off..off + n] + was[off + n..off + n + u];
    assert data[..n + u] == data[..n] + data[n..n + u];
  }

  lemma {:induction false} PartWrittenEnd(was: Bytes, now: Bytes, off: nat, data: Bytes, n: nat)
    requires off + |data| <= |was| && n <= |data|
    requires PartWritten(was, now, off, data, n)
    ensures PartWritten(was, now, off, data, |data|)
  {
    var u := |data| - n;
    NotYetClearing(was[off + n..off + n + u], data[n..n + u]);
    assert now[off + n..off + n + u] == now[off + n..][..u] == was[off + n..off + n + u];
    PartWrittenMore(was, now, now, off, data, n, u);
  }

  /** Cells that now hold what a completed program operation leaves in them. */
  predicate AllCleared(was: Bytes, data: Bytes, now: Bytes) {
    |was| == |data| == |now| && forall i | 0 <= i < |was| :: now[i] == And(was[i], data[i])
  }

  lemma {:induction false} UnitWritten(was: Bytes, now: Bytes, at: nat, data: Bytes)
    requires |now| == |was| && at + |data| <= |was|
    requires forall k | at <= k < at + |data| :: Clearing(was[k], data[k - at], now[k])
    requires forall k | 0 <= k < at || at + |data| <= k < |was| :: now[k] == was[k]
    ensures AllClearing(was[at..at + |data|], data, now[at..at + |data|])
    ensures now[..at] == was[..at] && now[at + |data|..] == was[at + |data|..]
  {
    var to := at + |data|;
    forall i | 0 <= i < |data| ensures Clearing(was[at..to][i], data[i], now[at..to][i]) {
      assert was[at..to][i] == was[at + i] && now[at..to][i] == now[at + i] && data[at + i - at] == data[i];
    }
  }

  /** The first `n` cells from `off` on hold what completed writes of the data leave in them. */
  predicate PartDone(was: Bytes, now: Bytes, off: nat, data: Bytes, n: nat)
    requires off + |data| <= |was| && n <= |data|
  {
    |now| == |was| && forall k | off <= k < off + n :: now[k] == And(was[k], data[k - off])
  }

  lemma {:induction false} PartDoneMore(was: Bytes, mid: Bytes, now: Bytes, off: nat, data: Bytes, n: nat, u: nat)
    requires off + |data| <= |was| && n + u <= |data| && |now| == |was|
    requires PartWritten(was, mid, off, data, n) && PartDone(was, mid, off, data, n)
    requires PartDone(mid, now, off + n, data[n..n + u], u)
    requires now[..off + n] == mid[..off + n]
    ensures PartDone(was, now, off, data, n + u)
  {
    forall k | off <= k < off + n + u ensures now[k] == And(was[k], data[k - off]) {
      if k < off + n {
        assert now[k] == now[..off + n][k] == mid[..off + n][k] == mid[k];
      } else {
        assert mid[k] == mid[off + n..][k - off - n] == was[off + n..][k - off - n] == was[k];
        assert data[n..n + u][k - off - n] == data[k - off];
      }
    }
  }

  /** A completed program operation leaves the data exactly where no bit had to be set. */
  lemma {:induction false} ClearedIsData(was: Slot, data: Slot, now: Slot)
    requires AllCleared(was, data, now)
    ensures now == data <==> CoversSlot(was, data)
  {
    forall i | 0 <= i < SLOT ensures now[i] == data[i] <==> Covers(was[i], data[i]) {
      AndIsData(was[i], data[i]);
    }
  }

  lemma {:induction false} NextSlot(off: nat)
    requires off % SLOT == 0
    ensures (off + SLOT) % SLOT == 0 && (off + SLOT) / SLOT == off / SLOT + 1
  {
  }

  class Flash {
    /** Octets per erase block, and per write: 8 on the G4, 32 on the H7. */
    const size: nat
    const unit: nat
    const a: array<byte>
    const b: array<byte>
    /** Whether the n-th use of the hardware fails: a read, a flash operation, an evaluation of the MAC.
        Nobody knows beforehand. */
    const fails: nat -> bool
    /** How often the hardware has been used. */
    var used: nat
    ghost var log: seq<FlashOp>

    ghost predicate Valid() {
      a != b && a.Length == size && b.Length == size && unit in {8, 32}
    }

    constructor (a: array<byte>, b: array<byte>, unit: nat, fails: nat -> bool)
      requires a != b && a.Length == b.Length && unit in {8, 32}
      ensures Valid() && this.a == a && this.b == b && this.unit == unit && this.fails == fails
      ensures used == 0 && log == []
    {
      this.size, this.unit, this.a, this.b, this.fails, this.used, this.log := a.Length, unit, a, b, fails, 0, [];
    }

    /** One of the uses from `from` on, up to but not including `to`, fails. */
    ghost predicate Failed(from: nat, to: nat) {
      exists k | from <= k < to :: fails(k)
    }

    method Use() returns (ok: bool)
      modifies `used
      ensures used == old(used) + 1 && ok == !fails(old(used))
    {
      ok := !fails(used);
      used := used + 1;
    }

    function Cells(block: nat): array<byte> {
      if block == 0 then a else b
    }

    ghost function Contents(): Image
      requires Valid()
      reads a, b
    {
      [SlotsOf(a[..]), SlotsOf(b[..])]
    }

    /** Read a record; besides an offset out of range, the device itself may fail. */
    method Read(block: nat, off: nat) returns (ok: bool, out: Slot)
      requires Valid()
      modifies `used
      ensures old(used) <= used
      ensures ok <==> block <= 1 && off + SLOT <= size && !Failed(old(used), used)
      ensures ok && off % SLOT == 0 ==> out == Contents()[block][off / SLOT]
    {
      out := seq(SLOT, _ => 0);
      ok := false;
      if block <= 1 && off + SLOT <= size {
        out := Cells(block)[off..off + SLOT];
        ok := Use();
      }
    }

    /** One write of the flash controller. When it does not complete, each bit that the data has
        at zero may or may not have been cleared. */
    method ProgramUnit(cells: array<byte>, at: nat, data: Bytes) returns (ok: bool)
      requires at + |data| <= cells.Length
      modifies cells, `used
      ensures old(used) <= used && (ok <==> !Failed(old(used), used))
      ensures AllClearing(old(cells[at..at + |data|]), data, cells[at..at + |data|])
      ensures ok ==> PartDone(old(cells[..]), cells[..], at, data, |data|)
      ensures cells[..at] == old(cells[..at]) && cells[at + |data|..] == old(cells[at + |data|..])
    {
      ok := Use();
      for i := 0 to |data|
        invariant used == old(used) + 1 && ok == !fails(old(used))
        invariant forall k | at <= k < at + i :: Clearing(old(cells[k]), data[k - at], cells[k])
        invariant ok ==> forall k | at <= k < at + i :: cells[k] == And(old(cells[k]), data[k - at])
        invariant forall k | 0 <= k < at || at + i <= k < cells.Length :: cells[k] == old(cells[k])
      {
        ClearingBounds(cells[at + i], data[i]);
        var cleared: byte := And(cells[at + i], data[i]);
        var left: byte :| Clearing(cells[at + i], data[i], left);
        cells[at + i] := if ok then cleared else left;
      }
      UnitWritten(old(cells[..]), cells[..], at, data);
    }

    method ProgramNext(cells: array<byte>, off: nat, data: Slot, n: nat, ghost was: Bytes) returns (ok: bool)
      requires Valid() && off + SLOT <= cells.Length == |was| && n + unit <= SLOT
      requires PartWritten(was, cells[..], off, data, n)
      modifies cells, `used
      ensures old(used) <= used && (ok <==> !Failed(old(used), used))
      ensures PartWritten(was, cells[..], off, data, n + unit)
      ensures ok && old(PartDone(was, cells[..], off, data, n)) ==> PartDone(was, cells[..], off, data, n + unit)
    {
      ghost var mid := cells[..];
      ok := ProgramUnit(cells, off + n, data[n..n + unit]);
      PartWrittenMore(was, mid, cells[..], off, data, n, unit);
      if ok && PartDone(was, mid, off, data, n) {
        PartDoneMore(was, mid, cells[..], off, data, n, unit);
      }
    }

    /** Program a slot, unit by unit, until a unit fails. */
    method ProgramUnits(cells: array<byte>, off: nat, data: Slot) returns (ok: bool)
      requires Valid() && off + SLOT <= cells.Length
      modifies cells, `used
      ensures old(used) <= used && (ok <==> !Failed(old(used), used))
      ensures PartWritten(old(cells[..]), cells[..], off, data, SLOT)
      ensures ok ==> PartDone(old(cells[..]), cells[..], off, data, SLOT)
    {
      ghost var was := cells[..];
      ok := true;
      var i := 0;
      while ok && i < SLOT
        invariant i in if unit == 8 then {0, 8, 16, 24, 32} else {0, 32}
        invariant old(used) <= used && (ok <==> !Failed(old(used), used))
        invariant PartWritten(was, cells[..], off, data, i)
        invariant ok ==> PartDone(was, cells[..], off, data, i)
        decreases SLOT - i
      {
        ok := ProgramNext(cells, off, data, i, was);
        i := i + unit;
      }
      PartWrittenEnd(was, cells[..], off, data, i);
    }

    /** Program a slot and compare it with what was asked for. Without a failure this succeeds exactly
        when no bit has to be set. */
    method ProgramSlot(cells: array<byte>, off: nat, data: Slot) returns (ok: bool)
      requires Valid() && off + SLOT <= cells.Length
      modifies cells, `used
      ensures old(used) <= used
      ensures ok <==> CoversSlot(old(cells[off..off + SLOT]), data) && !Failed(old(used), used)
      ensures AllClearing(old(cells[off..off + SLOT]), data, cells[off..off + SLOT])
      ensures ok ==> cells[off..off + SLOT] == data
      ensures cells[..off] == old(cells[..off]) && cells[off + SLOT..] == old(cells[off + SLOT..])
    {
      ghost var was: Slot := cells[off..off + SLOT];
      ok := ProgramUnits(cells, off, data);
      assert data[..SLOT] == data;
      if ok {
        assert AllCleared(was, data, cells[off..off + SLOT]);
        ClearedIsData(was, data, cells[off..off + SLOT]);
        ok := cells[off..off + SLOT] == data;
      }
    }

    /** Program a record, unless the controller cannot be unlocked. Whatever becomes of it, only its
        own slot changes. */
    method Program(block: nat, off: nat, data: Slot) returns (ok: bool)
      requires Valid()
      modifies a, b, `log, `used
      ensures old(used) <= used
      ensures ok <==> block <= 1 && off + SLOT <= size && off % SLOT == 0 && !Failed(old(used), used)
                      && CoversSlot(old(Contents())[block][off / SLOT], data)
      ensures block > 1 || off + SLOT > size || off % SLOT != 0 ==>
                Contents() == old(Contents()) && log == old(log)
      ensures block <= 1 && off + SLOT <= size && off % SLOT == 0 ==>
                && var was, k := old(Contents()), off / SLOT;
                && (log == old(log) + [ProgramOp(block, k, was)] || (!ok && log == old(log) && Contents() == was))
                && Contents()[1 - block] == was[1 - block]
                && var r := Contents()[block][k];
                && Contents()[block] == was[block][k := r]
                && AllClearing(was[block][k], data, r)
                && (ok ==> r == data)
    {
      if block > 1 || off + SLOT > size || off % SLOT != 0 {
        return false;
      }
      var cells := Cells(block);
      ghost var k := off / SLOT;
      var unlocked := Use();
      if !unlocked {
        NotYetClearing(Contents()[block][k], data);
        return false;
      }
      log := log + [ProgramOp(block, k, Contents())];
      ok := ProgramSlot(cells, off, data);
      SlotsUpdated(old(cells[..]), cells[..], k);
    }

    /** Erase a block, unless the controller cannot be unlocked. When it does not complete, any bit of
        it may or may not have been set. */
    method Erase(block: nat) returns (ok: bool)
      requires Valid()
      modifies a, b, `log, `used
      ensures old(used) <= used && (ok <==> block <= 1 && !Failed(old(used), used))
      ensures block > 1 ==> Contents() == old(Contents()) && log == old(log)
      ensures block <= 1 ==>
                && (log == old(log) + [EraseOp(block, old(Contents()))]
                    || (!ok && log == old(log) && Contents() == old(Contents())))
                && Contents()[1 - block] == old(Contents())[1 - block]
                && TornErase(old(Contents())[block], Contents()[block])
                && (ok ==> Contents()[block] == ErasedBlock(size / SLOT))
    {
      if block > 1 {
        return false;
      }
      var cells := Cells(block);
      var unlocked := Use();
      if !unlocked {
        EraseOf(SlotsOf(cells[..]));
        return false;
      }
      log := log + [EraseOp(block, Contents())];
      ok := EraseCells(cells);
      EraseCovers(old(cells[..]), cells[..]);
      if ok {
        AllSetIsErased(cells[..]);
      }
    }

    method EraseCells(cells: array<byte>) returns (ok: bool)
      modifies cells, `used
      ensures used == old(used) + 1 && ok == !fails(old(used))
      ensures forall j | 0 <= j < cells.Length :: Covers(cells[j], old(cells[j]))
      ensures ok ==> forall j | 0 <= j < cells.Length :: cells[j] == 255
    {
      ok := Use();
      for i := 0 to cells.Length
        invariant used == old(used) + 1 && ok == !fails(old(used))
        invariant forall j | 0 <= j < i :: Covers(cells[j], old(cells[j]))
        invariant forall j | i <= j < cells.Length :: cells[j] == old(cells[j])
        invariant ok ==> forall j | 0 <= j < i :: cells[j] == 255
      {
        CoversReflexive(cells[i]);
        OnesCover(cells[i]);
        var left: byte :| Covers(left, cells[i]);
        cells[i] := if ok then 255 else left;
      }
    }
  }

  lemma {:induction false} AllSetIsErased(cells: Bytes)
    requires forall j | 0 <= j < |cells| :: cells[j] == 255
    ensures SlotsOf(cells) == ErasedBlock(|cells| / SLOT)
  {
    forall k | 0 <= k < |cells| / SLOT ensures SlotsOf(cells)[k] == ErasedBlock(|cells| / SLOT)[k] {
      assert forall i | 0 <= i < SLOT :: SlotsOf(cells)[k][i] == cells[SLOT * k + i];
    }
  }

  lemma {:induction false} EraseOf(slots: seq<Slot>)
    ensures TornErase(slots, slots)
  {
    forall k, i | 0 <= k < |slots| && 0 <= i < SLOT ensures Covers(slots[k][i], slots[k][i]) {
      CoversReflexive(slots[k][i]);
    }
  }

  lemma {:induction false} EraseCovers(was: Bytes, now: Bytes)
    requires |was| == |now| && forall j | 0 <= j < |was| :: Covers(now[j], was[j])
    ensures TornErase(SlotsOf(was), SlotsOf(now))
  {
  }

  class Journal {
    const flash: Flash
    const h: Mac
    const key: Bytes
    var counter: u32
    var active: nat
    var next: nat
    var ready: bool
    /** The provisioned counter of the last load. */
    ghost var floor: u32

    constructor (flash: Flash, h: Mac, key: Bytes)
      requires flash.Valid()
      ensures Valid() && !ready && this.flash == flash && this.h == h && this.key == key
    {
      this.flash, this.h, this.key := flash, h, key;
      counter, active, next, ready, floor := 0, 0, 0, false, 0;
    }

    ghost function Format(): Format {
      RecordFormat(h, key)
    }

    ghost predicate Valid()
      reads this, flash.a, flash.b
    {
      && flash.Valid()
      && (ready ==>
            && next % SLOT == 0 && flash.size % SLOT == 0
            && Recovers(Format(), flash.Contents(), floor, At()))
    }

    function At(): Position
      reads this
    {
      Position(counter, active, next / SLOT)
    }

    /** The journal as the protocol layer sees it. */
    ghost function State(): Store
      requires flash.Valid()
      reads this, flash.a, flash.b
    {
      Store(flash.Contents(), if ready then Some(At()) else None)
    }

    /** Evaluate the record MAC; the crypto library may fail. */
    method RecordMac(c: u32) returns (ok: bool, mac: Digest)
      modifies flash`used
      ensures old(flash.used) <= flash.used && (ok <==> !flash.Failed(old(flash.used), flash.used))
      ensures mac == h(key, Simple.RecordInput(c))
    {
      ok := flash.Use();
      mac := h(key, Simple.RecordInput(c));
    }

    /** Check a slot that is not erased. */
    method CheckRecord(record: Slot, gap: bool, last: u32) returns (ok: bool, c: u32)
      modifies flash`used
      ensures old(flash.used) <= flash.used
      ensures ok <==> !gap && last < GetU32(record) && Accepts(h, key, record)
                      && !flash.Failed(old(flash.used), flash.used)
      ensures ok ==> last < c && record == Format()(c)
    {
      ok, c := false, GetU32(record);
      AcceptsIffRecord(h, key, record);
      if gap || c == 0 || c <= last || GetU32(record[4..]) != Not(c) {
        return;
      }
      var macOk, mac := RecordMac(c);
      var same := Simple.CtCompare(record[8..], mac[..24]);
      ok := macOk && same;
    }

    /** Look at the slot at `off`, which must be erased or the next record of its block; `cs`
        lists the records before it, and `ds` those up to it. */
    method ScanSlot(block: nat, off: nat, wasGap: bool, wasLast: u32, wasFound: bool, ghost c0: seq<u32>, ghost cs: seq<u32>)
      returns (ok: bool, gap: bool, last: u32, found: bool, ghost ds: seq<u32>)
      requires flash.Valid() && block < 2 && off % SLOT == 0 && off + SLOT <= flash.size && next % SLOT == 0
      requires Progress(Format(), flash.Contents()[block], off / SLOT, wasGap, wasLast, cs)
      requires Increasing(c0) && Tracking(block, c0, cs, floor, At(), wasFound)
      modifies this`counter, this`active, this`next, flash`used
      ensures next % SLOT == 0 && old(flash.used) <= flash.used
      ensures ok ==> Progress(Format(), flash.Contents()[block], off / SLOT + 1, gap, last, ds)
      ensures ok ==> Tracking(block, c0, ds, floor, At(), found)
      ensures ok ==> !flash.Failed(old(flash.used), flash.used)
      ensures !ok ==> flash.Failed(old(flash.used), flash.used) || Unreadable(Format(), flash.Contents()[block])
    {
      ghost var slots, k := flash.Contents()[block], off / SLOT;
      ok, gap, last, found, ds := false, wasGap, wasLast, wasFound, cs;
      var read, record := flash.Read(block, off);
      if !read {
        return;
      }
      if Erased(record) {
        ScannedErased(Format(), slots, k, gap, last, cs);
        ok, gap := true, true;
        return;
      }
      var c;
      ok, c := CheckRecord(record, gap, last);
      if !ok {
        if gap || GetU32(record) <= last || !Accepts(h, key, record) {
          RejectedSlot(h, key, slots, k, cs);
        }
        return;
      }
      ScannedRecord(Format(), slots, k, last, cs, c);
      found := TakeRecord(block, off, c, wasFound, c0, cs);
      last, ds := c, cs + [c];
    }

    /** Take the record at `off` into account: it becomes the newest one unless its counter is lower. */
    method TakeRecord(block: nat, off: nat, c: u32, wasFound: bool, ghost c0: seq<u32>, ghost cs: seq<u32>)
      returns (found: bool)
      requires block < 2 && off % SLOT == 0 && off / SLOT == |cs| && next % SLOT == 0
      requires Increasing(c0) && Increasing(cs) && LastOf(cs) < c
      requires Tracking(block, c0, cs, floor, At(), wasFound)
      modifies this`counter, this`active, this`next
      ensures next % SLOT == 0
      ensures Tracking(block, c0, cs + [c], floor, At(), found)
    {
      TrackingNext(block, c0, cs, floor, At(), wasFound, c);
      found := wasFound;
      if c >= counter {
        NextSlot(off);
        counter, active, next, found := c, block, off + SLOT, true;
      }
    }

    /** Scan one block, updating the position; `cs` lists the records found in it and `c0` those
        of the block scanned before. */
    method ScanBlock(block: nat, wasFound: bool, ghost c0: seq<u32>)
      returns (ok: bool, found: bool, ghost cs: seq<u32>)
      requires flash.Valid() && flash.size % SLOT == 0 && block < 2 && next % SLOT == 0
      requires Increasing(c0) && Tracking(block, c0, [], floor, At(), wasFound)
      modifies this`counter, this`active, this`next, flash`used
      ensures next % SLOT == 0 && old(flash.used) <= flash.used
      ensures ok ==> Holds(Format(), flash.Contents()[block], cs)
      ensures ok ==> Tracking(block, c0, cs, floor, At(), found)
      ensures ok ==> !flash.Failed(old(flash.used), flash.used)
      ensures !ok ==> flash.Failed(old(flash.used), flash.used) || Unreadable(Format(), flash.Contents()[block])
    {
      ok, found, cs := true, wasFound, [];
      ghost var rec, slots := Format(), flash.Contents()[block];
      var gap, last: u32 := false, 0;
      var off := 0;
      while off < flash.size
        invariant ok && off <= flash.size && off % SLOT == 0 && next % SLOT == 0
        invariant old(flash.used) <= flash.used && !flash.Failed(old(flash.used), flash.used)
        invariant Progress(rec, slots, off / SLOT, gap, last, cs)
        invariant Tracking(block, c0, cs, floor, At(), found)
      {
        NextSlot(off);
        ok, gap, last, found, cs := ScanSlot(block, off, gap, last, found, c0, cs);
        if !ok {
          return;
        }
        off := off + SLOT;
      }
      ScannedAll(rec, slots, gap, last, cs);
    }

    /** Recover the newest record. This succeeds exactly when the two blocks can be recovered and no use
        of the hardware on the way fails. */
    method Load(initial: u32) returns (ok: bool)
      requires Valid()
      modifies this, flash`used
      ensures Valid() && ready == ok && old(flash.used) <= flash.used
      ensures LoadStep(Format(), initial, old(State()), ok, State())
      ensures ok ==> floor == initial
      ensures ok <==> flash.size >= SLOT && flash.size % SLOT == 0 && !flash.Failed(old(flash.used), flash.used)
                      && Recoverable(Format(), flash.Contents(), initial)
    {
      ok := false;
      if flash.size < SLOT || flash.size % SLOT != 0 {
        if ready {
          RecoversBounds(Format(), flash.Contents(), floor, At());
        }
        return;
      }
      ready := false;
      counter, active, next := initial, 0, 0;
      floor := initial;
      ok := Scan(initial);
      ready := ok;
    }

    /** Scan both blocks for the newest record. */
    method Scan(initial: u32) returns (ok: bool)
      requires flash.Valid() && flash.size >= SLOT && flash.size % SLOT == 0
      requires !ready && counter == initial == floor && active == next == 0
      modifies this`counter, this`active, this`next, flash`used
      ensures old(flash.used) <= flash.used
      ensures ok ==> next % SLOT == 0 && Recovers(Format(), flash.Contents(), initial, At())
      ensures ok <==> !flash.Failed(old(flash.used), flash.used) && Recoverable(Format(), flash.Contents(), initial)
    {
      RecordsAreTornProof(h, key);
      var found;
      ghost var c0, c1;
      ok, found, c0 := ScanBlock(0, false, []);
      if !ok {
        UnreadableIsLost(Format(), flash.Contents(), 0, initial);
        return;
      }
      ok, found, c1 := ScanBlock(1, found, c0);
      if !ok {
        UnreadableIsLost(Format(), flash.Contents(), 1, initial);
        return;
      }
      if !found {
        forall p ensures !Recovers(Format(), flash.Contents(), initial, p) {
          NothingFound(Format(), flash.Contents(), c0, c1, initial, p);
        }
        ok := false;
        return;
      }
      RecoversFrom(Format(), flash.Contents(), c0, c1, initial, At());
    }

    /** Write the record of `c` into the erased slot that the save of `c` from image `was` goes
        to, and read it back. */
    method WriteRecord(block: nat, off: nat, c: u32, ghost was: Image, ghost p: Position) returns (ok: bool)
      requires flash.Valid() && block < 2 && off % SLOT == 0 && off + SLOT <= flash.size
      requires p.active < 2 && 0 < p.next <= |was[0]| == flash.size / SLOT
      requires AtTarget(was, p, flash.Contents(), block, off / SLOT)
      requires Erased(flash.Contents()[block][off / SLOT])
      modifies flash.a, flash.b, flash`log, flash`used
      ensures old(flash.used) <= flash.used && (ok <==> !flash.Failed(old(flash.used), flash.used))
      ensures DuringSave(Format(), was, p, c, flash.Contents())
      ensures ok ==> flash.Contents() == Written(was, p, Format()(c))
      ensures old(flash.log) <= flash.log <= old(flash.log) + [Program(was, p)]
      ensures ok ==> flash.log == old(flash.log) + [Program(was, p)]
    {
      ghost var mid, k := flash.Contents(), off / SLOT;
      var macOk, mac := RecordMac(c);
      if !macOk {
        NotYetClearing(mid[block][k], Format()(c));
        ProgramOutcome(Format(), was, p, c, mid, block, k, mid);
        return false;
      }
      var record: Slot := PutU32(c) + PutU32(Not(c)) + mac[..24];
      assert record == Format()(c);
      ErasedCovers(mid[block][k], record);
      ok := flash.Program(block, off, record);
      ProgramOutcome(Format(), was, p, c, mid, block, k, flash.Contents());
      if ok {
        var readOk, check := flash.Read(block, off);
        ok := readOk && check == record;
      }
    }

    /** Append a record for `c`, rolling over to the other block when the active one is full.
        It succeeds exactly when the counter is larger and no use of the hardware fails; whatever fails,
        flash holds an image that some interrupted save of `c` can leave. */
    method Save(c: u32) returns (ok: bool)
      requires Valid()
      modifies this, flash.a, flash.b, flash`log, flash`used
      ensures Valid() && floor == old(floor) && old(flash.used) <= flash.used
      ensures ok <==> old(ready) && c > old(counter) && !flash.Failed(old(flash.used), flash.used)
      ensures SaveStep(Format(), old(State()), c, ok, State())
      ensures LogStep(old(State()), Saving(c, ok), old(flash.log), flash.log)
    {
      if !ready || c <= counter {
        return false;
      }
      ok := Append(c);
    }

    /** Find the slot for the next record; when the active block is full, erase the other one. */
    method Reserve(ghost c: u32) returns (ok: bool, block: nat, off: nat)
      requires flash.Valid() && next % SLOT == 0 && flash.size % SLOT == 0
      requires Recovers(Format(), flash.Contents(), floor, At())
      modifies flash.a, flash.b, flash`log, flash`used
      ensures old(flash.used) <= flash.used && (ok <==> !flash.Failed(old(flash.used), flash.used))
      ensures var was, p := old(flash.Contents()), At();
              && p.active < 2 && 0 < p.next <= |was[0]|
              && DuringSave(Format(), was, p, c, flash.Contents())
              && (ok ==> block < 2 && off % SLOT == 0 && off + SLOT <= flash.size
                         && AtTarget(was, p, flash.Contents(), block, off / SLOT)
                         && Erased(flash.Contents()[block][off / SLOT]))
      ensures old(flash.log) <= flash.log <= old(flash.log) + EraseOps(old(flash.Contents()), At())
      ensures ok ==> flash.log == old(flash.log) + EraseOps(old(flash.Contents()), At())
    {
      ghost var was, p := flash.Contents(), At();
      RecoversBounds(Format(), was, floor, p);
      ok, block, off := true, active, next;
      if off == flash.size {
        block, off := Other(block), 0;
        ok := flash.Erase(block);
      } else {
        FreeSlotsErased(Format(), was, floor, p, p.next);
      }
    }

    /** The flash part of a save: reserve a slot and write the record. */
    method Write(c: u32) returns (ok: bool, block: nat, off: nat)
      requires flash.Valid() && next % SLOT == 0 && flash.size % SLOT == 0
      requires Recovers(Format(), flash.Contents(), floor, At())
      modifies flash.a, flash.b, flash`log, flash`used
      ensures old(flash.used) <= flash.used && (ok <==> !flash.Failed(old(flash.used), flash.used))
      ensures At().active < 2 && 0 < At().next <= |old(flash.Contents())[0]|
      ensures DuringSave(Format(), old(flash.Contents()), At(), c, flash.Contents())
      ensures ok ==> off % SLOT == 0 && flash.Contents() == Written(old(flash.Contents()), At(), Format()(c))
                     && Position(c, block, off / SLOT + 1) == Advance(At(), flash.size / SLOT, c)
      ensures OpsEffect(old(flash.Contents()), At(), ok, old(flash.log), flash.log)
    {
      ghost var was, p := flash.Contents(), At();
      ok, block, off := Reserve(c);
      ghost var midLog := flash.log;
      if ok {
        ok := WriteRecord(block, off, c, was, p);
        TargetAdvances(was, p, c, block, off / SLOT);
      }
      OpsFollow(was, p, ok, old(flash.log), midLog, flash.log);
    }

    method Append(c: u32) returns (ok: bool)
      requires Valid() && ready && c > counter
      modifies this, flash.a, flash.b, flash`log, flash`used
      ensures Valid() && floor == old(floor) && ready == ok
      ensures old(flash.used) <= flash.used && (ok <==> !flash.Failed(old(flash.used), flash.used))
      ensures SaveStep(Format(), old(State()), c, ok, State())
      ensures OpsEffect(old(flash.Contents()), old(At()), ok, old(flash.log), flash.log)
    {
      ghost var was, p := flash.Contents(), At();
      ready := false;
      var block, off;
      ok, block, off := Write(c);
      ghost var now := flash.Contents();
      if ok {
        SavedRecovers(Format(), was, floor, p, c);
        NextSlot(off);
        active, next, counter, ready := block, off + SLOT, c, true;
        assert At() == Advance(p, |was[0]|, c);
      }
      assert flash.Contents() == now;
    }
  }

  lemma {:induction false} TargetAdvances(was: Image, p: Position, c: u32, block: nat, k: nat)
    requires p.active < 2
    requires if p.next == |was[0]| then block == Other(p.active) && k == 0 else block == p.active && k == p.next
    ensures Advance(p, |was[0]|, c) == Position(c, block, k + 1)
  {
  }

  /** No list of records is what this block holds. */
  ghost predicate Unreadable(rec: Format, slots: seq<Slot>) {
    forall cs :: !Holds(rec, slots, cs)
  }

  /** Some position is recovered from this image. */
  ghost predicate Recoverable(rec: Format, img: Image, floor: u32) {
    exists p :: Recovers(rec, img, floor, p)
  }

  lemma {:induction false} UnreadableIsLost(rec: Format, img: Image, block: nat, floor: u32)
    requires block < 2
    ensures Unreadable(rec, img[block]) ==> !Recoverable(rec, img, floor)
  {
  }

  lemma {:induction false} ErasedCovers(was: Slot, data: Slot)
    requires Erased(was)
    ensures CoversSlot(was, data)
  {
    forall i | 0 <= i < SLOT ensures Covers(was[i], data[i]) {
      OnesCover(data[i]);
    }
  }

  /** A slot that is not erased and fails one of the checks spoils its block. */
  lemma {:induction false} RejectedSlot(h: Mac, key: Bytes, slots: seq<Slot>, k: nat, cs: seq<u32>)
    requires Scanned(RecordFormat(h, key), slots, k, cs) && k < |slots| && !Erased(slots[k])
    requires |cs| < k || GetU32(slots[k]) <= LastOf(cs) || !Accepts(h, key, slots[k])
    ensures Unreadable(RecordFormat(h, key), slots)
  {
    RecordsAreTornProof(h, key);
    forall c: u32 | |cs| == k && LastOf(cs) < c ensures slots[k] != Record(h, key, c) {
      RecordFields(h, key, c);
    }
    forall ds ensures !Holds(RecordFormat(h, key), slots, ds) {
      BadSlot(RecordFormat(h, key), slots, k, cs, ds);
    }
  }

  lemma {:induction false} ClearedSlotCovers(was: Slot, data: Slot, r: Slot)
    requires Erased(was) && AllClearing(was, data, r)
    ensures CoversSlot(r, data)
  {
    forall i | 0 <= i < SLOT ensures Covers(r[i], data[i]) {
      AndErased(data[i]);
    }
  }

  /** `mid` is the image just before the record is programmed in slot `k` of `block`. */
  predicate AtTarget(was: Image, p: Position, mid: Image, block: nat, k: nat)
    requires p.active < 2
  {
    && mid == Prepared(was, p)
    && (if p.next == |was[0]| then block == Other(p.active) && k == 0 else block == p.active && k == p.next)
  }

  /** Programming the prepared slot, completely or not, leaves an image of an interrupted save. */
  lemma {:induction false} ProgramOutcome(rec: Format, was: Image, p: Position, c: u32, mid: Image, block: nat,
                                          k: nat, now: Image)
    requires p.active < 2 && 0 < p.next <= |was[0]| && block < 2 && k < |mid[0]| == |was[0]|
    requires AtTarget(was, p, mid, block, k)
    requires Erased(mid[block][k])
    requires now[1 - block] == mid[1 - block] && now[block] == mid[block][k := now[block][k]]
    requires AllClearing(mid[block][k], rec(c), now[block][k])
    ensures DuringSave(rec, was, p, c, now)
    ensures now == Written(was, p, now[block][k])
  {
    ClearedSlotCovers(mid[block][k], rec(c), now[block][k]);
    assert now == Written(was, p, now[block][k]);
  }
}
