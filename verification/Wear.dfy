/** The flash operations of saves over whole histories: what they program and erase, how often. */
module Wear {
  import opened Blocks
  import opened Bytes
  import opened Records
  import opened Register
  import opened Wrappers

  /** An operation that the flash controller has begun, with the contents of flash just before. */
  datatype FlashOp = EraseOp(block: nat, before: Image) | ProgramOp(block: nat, slot: nat, before: Image)

  /** The image in which the record of the next save is programmed. */
  function Prepared(img: Image, p: Position): Image
    requires p.active < 2
  {
    if p.next == |img[0]| then img[Other(p.active) := ErasedBlock(|img[0]|)] else img
  }

  /** The operations of a save that come before the program of the new record. */
  function EraseOps(img: Image, p: Position): seq<FlashOp> {
    if p.next == |img[0]| then [EraseOp(Other(p.active), img)] else []
  }

  function Program(img: Image, p: Position): FlashOp
    requires p.active < 2
  {
    if p.next == |img[0]| then ProgramOp(Other(p.active), 0, Prepared(img, p)) else ProgramOp(p.active, p.next, img)
  }

  /** The operations of a save that runs to the end. */
  function SaveOps(img: Image, p: Position): seq<FlashOp>
    requires p.active < 2
  {
    EraseOps(img, p) + [Program(img, p)]
  }

  /** A save performs its operations in order, all of them when it succeeds. */
  predicate OpsEffect(img: Image, p: Position, ok: bool, was: seq<FlashOp>, now: seq<FlashOp>) {
    && p.active < 2
    && was <= now <= was + SaveOps(img, p)
    && (ok ==> now == was + SaveOps(img, p))
  }

  /** What an operation of the journal does to the log; a refused save does nothing to flash. */
  ghost predicate LogStep(s: Store, op: Op, was: seq<FlashOp>, now: seq<FlashOp>) {
    if op.Saving? && s.ram.Some? && op.counter > s.ram.value.counter then OpsEffect(s.img, s.ram.value, op.ok, was, now)
    else now == was
  }

  lemma {:induction false} OpsFollow(img: Image, p: Position, ok: bool, was: seq<FlashOp>, mid: seq<FlashOp>,
                                     now: seq<FlashOp>)
    requires p.active < 2 && was <= mid <= was + EraseOps(img, p)
    requires now != mid ==> mid == was + EraseOps(img, p)
    requires mid <= now <= mid + [Program(img, p)]
    requires ok ==> now == mid + [Program(img, p)]
    ensures OpsEffect(img, p, ok, was, now)
  {
    assert was + EraseOps(img, p) + [Program(img, p)] == was + SaveOps(img, p);
  }

  // ----- Flash discipline -----

  /** Step `i` of a history, with the log before and after it. */
  ghost predicate LoggedAt(rec: Format, floor: u32, ss: seq<Store>, ops: seq<Op>, logs: seq<seq<FlashOp>>, i: nat)
    requires |ss| == |logs| == |ops| + 1 && i < |ops|
  {
    Step(rec, floor, ss[i], ops[i], ss[i + 1]) && LogStep(ss[i], ops[i], logs[i], logs[i + 1])
  }

  /** A history from power-up, with the log of flash operations. */
  ghost predicate LoggedHistory(rec: Format, floor: u32, ss: seq<Store>, ops: seq<Op>, logs: seq<seq<FlashOp>>) {
    && |ss| == |logs| == |ops| + 1
    && ss[0].ram == None
    && forall i | 0 <= i < |ops| :: LoggedAt(rec, floor, ss, ops, logs, i)
  }

  /** An erase leaves the block with the newest record alone, and a program goes to an erased slot,
      so that neither of them changes a record that counts. */
  ghost predicate Disciplined(rec: Format, floor: u32, op: FlashOp) {
    match op
    case EraseOp(block, before) => forall p | Recovers(rec, before, floor, p) :: block == Other(p.active)
    case ProgramOp(block, slot, before) => block < 2 && slot < |before[0]| && Erased(before[block][slot])
  }

  /** Flash can be recovered, at the same position, just before each operation of a save. */
  lemma {:induction false} SaveDisciplined(rec: Format, floor: u32, img: Image, p: Position, op: FlashOp)
    requires TornProof(rec) && Recovers(rec, img, floor, p) && p.active < 2 && op in SaveOps(img, p)
    ensures Disciplined(rec, floor, op) && Recovers(rec, op.before, floor, p)
  {
    RecoversBounds(rec, img, floor, p);
    if op.EraseOp? {
      forall q | Recovers(rec, img, floor, q) ensures q == p {
        RecoversUnique(rec, img, floor, p, q);
      }
    } else if p.next == |img[0]| {
      EraseKeepsNewest(rec, img, floor, p);
      assert Erased(ErasedBlock(|img[0]|)[0]);
    } else {
      FreeSlotsErased(rec, img, floor, p, p.next);
    }
  }

  lemma {:induction false} LoggedCoherent(rec: Format, floor: u32, ss: seq<Store>, ops: seq<Op>, logs: seq<seq<FlashOp>>,
                                          j: nat)
    requires TornProof(rec) && LoggedHistory(rec, floor, ss, ops, logs) && j <= |ops|
    ensures Coherent(rec, floor, ss[j])
    decreases j
  {
    if 0 < j {
      LoggedCoherent(rec, floor, ss, ops, logs, j - 1);
      assert LoggedAt(rec, floor, ss, ops, logs, j - 1);
      StepKeeps(rec, floor, ss[j - 1], ops[j - 1], ss[j], 0);
    }
  }

  lemma {:induction false} LogGrows(rec: Format, floor: u32, ss: seq<Store>, ops: seq<Op>, logs: seq<seq<FlashOp>>, i: nat)
    requires LoggedHistory(rec, floor, ss, ops, logs) && i < |ops|
    ensures logs[i] <= logs[i + 1]
  {
    assert LoggedAt(rec, floor, ss, ops, logs, i);
  }

  lemma {:induction false} PrefixTransitive(a: seq<FlashOp>, b: seq<FlashOp>, c: seq<FlashOp>)
    requires a <= b <= c
    ensures a <= c
  {
  }

  /** The step that operation `k` of the log belongs to; what follows only adds to the log. */
  lemma {:induction false} LoggedBy(rec: Format, floor: u32, ss: seq<Store>, ops: seq<Op>, logs: seq<seq<FlashOp>>,
                                    n: nat, k: nat)
    returns (i: nat)
    requires LoggedHistory(rec, floor, ss, ops, logs) && n <= |ops|
    requires |logs[0]| <= k < |logs[n]|
    ensures i < n && |logs[i]| <= k < |logs[i + 1]| && logs[i + 1] <= logs[n]
    decreases n
  {
    i := n - 1;
    if k < |logs[n - 1]| {
      i := LoggedBy(rec, floor, ss, ops, logs, n - 1, k);
      LogGrows(rec, floor, ss, ops, logs, n - 1);
      PrefixTransitive(logs[i + 1], logs[n - 1], logs[n]);
    }
  }

  /** The discipline of one step. */
  lemma {:induction false} StepDisciplined(rec: Format, floor: u32, s: Store, op: Op, was: seq<FlashOp>, now: seq<FlashOp>,
                                           k: nat)
    requires TornProof(rec) && Coherent(rec, floor, s) && LogStep(s, op, was, now)
    requires |was| <= k < |now|
    ensures Disciplined(rec, floor, now[k])
    ensures s.ram.Some? && Recovers(rec, s.img, floor, s.ram.value) && Recovers(rec, now[k].before, floor, s.ram.value)
  {
    var p := s.ram.value;
    assert now[k] == (was + SaveOps(s.img, p))[k] == SaveOps(s.img, p)[k - |was|];
    SaveDisciplined(rec, floor, s.img, p, now[k]);
  }

  /** Over any history of loads, saves, failures and power losses, every flash operation that is
      begun erases a block without the newest record or programs an erased slot, in the flash that
      it finds; and flash is then recoverable, at the position that the journal works from. */
  lemma {:induction false} HistoryIsDisciplined(rec: Format, floor: u32, ss: seq<Store>, ops: seq<Op>,
                                                logs: seq<seq<FlashOp>>, n: nat, k: nat)
    returns (i: nat)
    requires TornProof(rec) && LoggedHistory(rec, floor, ss, ops, logs) && n <= |ops|
    requires |logs[0]| <= k < |logs[n]|
    ensures i < n && |logs[i]| <= k < |logs[i + 1]| && logs[i + 1][k] == logs[n][k]
    ensures Disciplined(rec, floor, logs[n][k])
    ensures ss[i].ram.Some? && Recovers(rec, ss[i].img, floor, ss[i].ram.value)
    ensures Recovers(rec, logs[n][k].before, floor, ss[i].ram.value)
  {
    i := LoggedBy(rec, floor, ss, ops, logs, n, k);
    LoggedCoherent(rec, floor, ss, ops, logs, i);
    assert LoggedAt(rec, floor, ss, ops, logs, i);
    StepDisciplined(rec, floor, ss[i], ops[i], logs[i], logs[i + 1], k);
    assert logs[i + 1][k] == logs[n][k];
  }

  // ----- Wear -----

  function ErasedBlocks(ops: seq<FlashOp>): seq<nat> {
    if ops == [] then []
    else ErasedBlocks(ops[..|ops| - 1]) + if ops[|ops| - 1].EraseOp? then [ops[|ops| - 1].block] else []
  }

  /** Every save from step `i` to step `j` that goes ahead succeeds; there may be loads and refused
      saves in between. */
  ghost predicate NothingLost(ss: seq<Store>, ops: seq<Op>, i: nat, j: nat)
    requires i <= j <= |ops| < |ss|
  {
    forall k | i <= k < j :: ops[k].Saving? && !ops[k].ok ==> Refused(ss[k], ops[k].counter)
  }

  ghost predicate Refused(s: Store, c: u32) {
    s.ram.None? || c <= s.ram.value.counter
  }

  /** The number of saves from step `i` to step `j` that report success. */
  function Successes(ops: seq<Op>, i: nat, j: nat): nat
    requires i <= j <= |ops|
  {
    if i == j then 0 else Successes(ops, i, j - 1) + Success(ops[j - 1])
  }

  lemma {:induction false} ErasedBySave(was: seq<FlashOp>, img: Image, p: Position)
    requires p.active < 2
    ensures ErasedBlocks(was + SaveOps(img, p)) == ErasedBlocks(was) + if p.next == |img[0]| then [Other(p.active)] else []
  {
    var (op, erase) := (Program(img, p), EraseOp(Other(p.active), img));
    if p.next == |img[0]| {
      assert was + SaveOps(img, p) == was + [erase] + [op];
      assert (was + [erase] + [op])[..|was| + 1] == was + [erase] && (was + [erase])[..|was|] == was;
    } else {
      assert was + SaveOps(img, p) == was + [op] && (was + [op])[..|was|] == was;
    }
  }

  lemma {:induction false} MulMono(a: nat, b: nat, d: nat)
    requires a <= b
    ensures a * d <= b * d
  {
    assert b * d == a * d + (b - a) * d;
  }

  lemma {:induction false} MulNext(a: nat, d: nat)
    ensures (a + 1) * d == a * d + d
  {
  }

  lemma {:induction false} DivBounds(x: nat, d: nat)
    requires 0 < d
    ensures x / d * d <= x < (x / d + 1) * d
  {
    assert x == d * (x / d) + x % d;
    assert (x / d + 1) * d == x / d * d + d;
  }

  lemma {:induction false} DivUnique(x: nat, d: nat, q: nat)
    requires 0 < d && q * d <= x < (q + 1) * d
    ensures x / d == q
  {
    var t := x / d;
    DivBounds(x, d);
    if t < q {
      MulMono(t + 1, q, d);
    } else if q < t {
      MulMono(q + 1, t, d);
    }
  }


  /** How a stretch of a history moves the position: `next` slots of the active block are used after
      it, when `used` were before it, in blocks of `slots` slots, the first one being `active`. */
  predicate Turned(blocks: seq<nat>, active: nat, used: nat, n: nat, slots: nat, p: Position) {
    && |blocks| * slots + p.next == used + n
    && p.active == (active + |blocks|) % 2
    && forall i | 0 <= i < |blocks| :: blocks[i] == (active + 1 + i) % 2
  }

  lemma {:induction false} TurnedNext(blocks: seq<nat>, active: nat, used: nat, n: nat, slots: nat, p: Position, c: u32)
    requires active < 2 && p.active < 2 && 0 < p.next <= slots && Turned(blocks, active, used, n, slots, p)
    ensures var more := blocks + if p.next == slots then [Other(p.active)] else [];
            Turned(more, active, used, n + 1, slots, Advance(p, slots, c))
  {
    MulNext(|blocks|, slots);
    var m: nat := |blocks|;
    if p.next == slots {
      assert Other(p.active) == (active + m + 1) % 2;
    }
  }

  /** The image grows neither larger nor smaller, so both blocks always have this many slots. */
  function Slots(s: Store): nat {
    |s.img[0]|
  }

  /** One step of such a stretch: either nothing happens to flash, or a save advances the position. */
  lemma {:induction false} QuietOrAdvanced(rec: Format, floor: u32, s: Store, op: Op, s': Store, was: seq<FlashOp>,
                                           now: seq<FlashOp>, p: Position)
    requires TornProof(rec) && Coherent(rec, floor, s) && Recovers(rec, s.img, floor, p)
    requires Step(rec, floor, s, op, s') && LogStep(s, op, was, now)
    requires op.Saving? && !op.ok ==> Refused(s, op.counter)
    ensures p.active < 2 && 0 < p.next <= Slots(s) == Slots(s')
    ensures if op.Saving? && op.ok
            then Recovers(rec, s'.img, floor, Advance(p, Slots(s), op.counter)) && now == was + SaveOps(s.img, p)
            else s'.img == s.img && now == was
  {
    RecoversBounds(rec, s.img, floor, p);
    if op.Saving? && op.ok {
      RecoversUnique(rec, s.img, floor, s.ram.value, p);
      SavedRecovers(rec, s.img, floor, p, op.counter);
    }
  }

  /** `ops` turned the position from `p` to `q`, which is where the journal is now. */
  ghost predicate Worn(rec: Format, floor: u32, slots: nat, s: Store, ops: seq<FlashOp>, n: nat, p: Position, q: Position) {
    && Recovers(rec, s.img, floor, q) && Slots(s) == slots
    && Turned(ErasedBlocks(ops), p.active, p.next, n, slots, q)
  }

  function Success(op: Op): nat {
    if op.Saving? && op.ok then 1 else 0
  }

  lemma {:induction false} DropOfSum(was: seq<FlashOp>, more: seq<FlashOp>, from: nat)
    requires from <= |was|
    ensures was <= was + more && (was + more)[from..] == was[from..] + more
  {
  }

  lemma {:induction false} TurnedBySave(ops: seq<FlashOp>, img: Image, p: Position, n: nat, q: Position, c: u32)
    requires p.active < 2 && q.active < 2 && 0 < q.next <= |img[0]|
    requires Turned(ErasedBlocks(ops), p.active, p.next, n, |img[0]|, q)
    ensures Turned(ErasedBlocks(ops + SaveOps(img, q)), p.active, p.next, n + 1, |img[0]|, Advance(q, |img[0]|, c))
  {
    ErasedBySave(ops, img, q);
    TurnedNext(ErasedBlocks(ops), p.active, p.next, n, |img[0]|, q, c);
  }

  lemma {:induction false} WornNext(rec: Format, floor: u32, s: Store, op: Op, s': Store, was: seq<FlashOp>,
                                    now: seq<FlashOp>, from: nat, n: nat, p: Position, q: Position)
    returns (q': Position)
    requires TornProof(rec) && Coherent(rec, floor, s) && Step(rec, floor, s, op, s') && LogStep(s, op, was, now)
    requires op.Saving? && !op.ok ==> Refused(s, op.counter)
    requires from <= |was| && p.active < 2 && Worn(rec, floor, Slots(s), s, was[from..], n, p, q)
    ensures was <= now && Worn(rec, floor, Slots(s), s', now[from..], n + Success(op), p, q')
  {
    q' := q;
    QuietOrAdvanced(rec, floor, s, op, s', was, now, q);
    if op.Saving? && op.ok {
      DropOfSum(was, SaveOps(s.img, q), from);
      TurnedBySave(was[from..], s.img, p, n, q, op.counter);
      q' := Advance(q, Slots(s), op.counter);
    }
  }

  /** After a stretch of a history in which no save that goes ahead fails, from a position with
      `p.next` slots of its block used, the position and the blocks erased are determined by the
      number of successful saves. */
  lemma {:induction false} WearOverHistory(rec: Format, floor: u32, ss: seq<Store>, ops: seq<Op>, logs: seq<seq<FlashOp>>,
                                           i: nat, j: nat, p: Position)
    returns (q: Position)
    requires TornProof(rec) && LoggedHistory(rec, floor, ss, ops, logs) && i <= j <= |ops|
    requires NothingLost(ss, ops, i, j) && Recovers(rec, ss[i].img, floor, p)
    ensures logs[i] <= logs[j]
    ensures Worn(rec, floor, Slots(ss[i]), ss[j], logs[j][|logs[i]|..], Successes(ops, i, j), p, q)
    decreases j
  {
    var from := |logs[i]|;
    RecoversBounds(rec, ss[i].img, floor, p);
    if i == j {
      q := p;
      assert logs[j][from..] == [];
    } else {
      var m := j - 1;
      q := WearOverHistory(rec, floor, ss, ops, logs, i, m, p);
      LoggedCoherent(rec, floor, ss, ops, logs, m);
      assert LoggedAt(rec, floor, ss, ops, logs, m);
      q := WornNext(rec, floor, ss[m], ops[m], ss[j], logs[m], logs[j], from, Successes(ops, i, m), p, q);
      PrefixTransitive(logs[i], logs[m], logs[j]);
    }
  }

  lemma {:induction false} TurnedCount(blocks: seq<nat>, active: nat, next: nat, n: nat, slots: nat, q: Position)
    requires Turned(blocks, active, next, n, slots, q) && 0 < q.next <= slots && 0 < next
    ensures |blocks| == (next + n - 1) / slots
    ensures forall k | 0 <= k < |blocks| :: blocks[k] == (active + 1 + k) % 2
  {
    MulNext(|blocks|, slots);
    DivUnique(next + n - 1, slots, |blocks|);
  }

  /** With `p.next` of the `slots` slots of the active block used, n successful saves of a journal, and
      any loads and refused saves between them, erase exactly (p.next + n - 1) / slots times,
      alternating between the blocks and starting with the one that is not active. */
  lemma {:induction false} WearBound(rec: Format, floor: u32, ss: seq<Store>, ops: seq<Op>, logs: seq<seq<FlashOp>>,
                                     i: nat, j: nat, p: Position)
    requires TornProof(rec) && LoggedHistory(rec, floor, ss, ops, logs) && i <= j <= |ops|
    requires NothingLost(ss, ops, i, j) && Recovers(rec, ss[i].img, floor, p)
    ensures logs[i] <= logs[j] && 0 < p.next <= Slots(ss[i])
    ensures var blocks := ErasedBlocks(logs[j][|logs[i]|..]);
            && |blocks| == (p.next + Successes(ops, i, j) - 1) / Slots(ss[i])
            && forall k | 0 <= k < |blocks| :: blocks[k] == (p.active + 1 + k) % 2
  {
    var q := WearOverHistory(rec, floor, ss, ops, logs, i, j, p);
    RecoversBounds(rec, ss[i].img, floor, p);
    RecoversBounds(rec, ss[j].img, floor, q);
    TurnedCount(ErasedBlocks(logs[j][|logs[i]|..]), p.active, p.next, Successes(ops, i, j), Slots(ss[i]), q);
  }
}
