/** The journal as the durable register that the protocol layer sees: any sequence of loads,
    saves, failed saves and power losses. */
module Register {
  import opened Blocks
  import opened Bytes
  import opened Records
  import opened Wrappers

  /** Flash, and the position in memory when the journal is ready. */
  datatype Store = Store(img: Image, ram: Option<Position>)

  ghost predicate Coherent(rec: Format, floor: u32, s: Store) {
    s.ram.Some? ==> Recovers(rec, s.img, floor, s.ram.value)
  }

  /** A restart, which may fail even when the journal is intact. */
  ghost predicate LoadStep(rec: Format, floor: u32, s: Store, ok: bool, s': Store) {
    && s'.img == s.img
    && (if ok then s'.ram.Some? && Recovers(rec, s.img, floor, s'.ram.value) else s'.ram == None)
  }

  /** A save; `!ok` is a refusal, a failure, or a loss of power at any moment of it. */
  ghost predicate SaveStep(rec: Format, s: Store, c: u32, ok: bool, s': Store) {
    if s.ram.Some? && c > s.ram.value.counter then
      && var p := s.ram.value;
      && p.active < 2 && 0 < p.next <= |s.img[0]|
      && DuringSave(rec, s.img, p, c, s'.img)
      && (ok ==> s'.img == Written(s.img, p, rec(c)))
      && s'.ram == if ok then Some(Advance(p, |s.img[0]|, c)) else None
    else
      !ok && s' == s
  }

  /** What the register is worth: the counter that the next load returns, or nothing once the
      journal can no longer be read. */
  datatype Register = Dead | Alive(counter: u32)

  ghost predicate Worth(rec: Format, floor: u32, img: Image, r: Register) {
    match r
    case Dead => forall p :: !Recovers(rec, img, floor, p)
    case Alive(c) => exists p :: Recovers(rec, img, floor, p) && p.counter == c
  }

  lemma {:induction false} WorthSomething(rec: Format, floor: u32, img: Image) returns (r: Register)
    ensures Worth(rec, floor, img, r)
  {
    if p :| Recovers(rec, img, floor, p) {
      r := Alive(p.counter);
    } else {
      r := Dead;
    }
  }

  lemma {:induction false} WorthOnce(rec: Format, floor: u32, img: Image, r: Register, q: Register)
    requires TornProof(rec) && Worth(rec, floor, img, r) && Worth(rec, floor, img, q)
    ensures r == q
  {
    if r.Alive? && q.Alive? {
      var p, o :| Recovers(rec, img, floor, p) && p.counter == r.counter
                  && Recovers(rec, img, floor, o) && o.counter == q.counter;
      RecoversUnique(rec, img, floor, p, o);
    }
  }

  /** The register that the journal implements. Saving a larger counter to a live one succeeds
      with that counter, or fails and leaves the old counter, the new one, or nothing. */
  predicate RegisterSave(r: Register, c: u32, ok: bool, r': Register) {
    if ok then r.Alive? && c > r.counter && r' == Alive(c)
    else r' == r || (r.Alive? && (r' == Dead || (c > r.counter && r' == Alive(c))))
  }

  /** Every save of the journal is a save of the register. */
  lemma {:induction false} SaveRefinesRegister(rec: Format, floor: u32, s: Store, c: u32, ok: bool, s': Store,
                                               r: Register, r': Register)
    requires TornProof(rec) && Coherent(rec, floor, s) && SaveStep(rec, s, c, ok, s')
    requires Worth(rec, floor, s.img, r) && Worth(rec, floor, s'.img, r')
    ensures Coherent(rec, floor, s')
    ensures RegisterSave(r, c, ok, r')
    ensures ok ==> s'.ram.Some? && s'.ram.value.counter == c
  {
    if s.ram.Some? && c > s.ram.value.counter {
      var p := s.ram.value;
      assert Worth(rec, floor, s.img, Alive(p.counter));
      WorthOnce(rec, floor, s.img, r, Alive(p.counter));
      SavedRecovers(rec, s.img, floor, p, c);
      if ok {
        assert Worth(rec, floor, s'.img, Alive(c));
        WorthOnce(rec, floor, s'.img, r', Alive(c));
      } else if r'.Alive? {
        var q :| Recovers(rec, s'.img, floor, q) && q.counter == r'.counter;
        CrashSafe(rec, s.img, floor, p, c, s'.img, q);
      }
    } else {
      WorthOnce(rec, floor, s.img, r, r');
    }
  }

  /** Every successful load returns what the register is worth, and nothing changes. */
  lemma {:induction false} LoadRefinesRegister(rec: Format, floor: u32, s: Store, ok: bool, s': Store, r: Register)
    requires TornProof(rec) && LoadStep(rec, floor, s, ok, s') && Worth(rec, floor, s.img, r)
    ensures Coherent(rec, floor, s') && Worth(rec, floor, s'.img, r)
    ensures ok ==> r == Alive(s'.ram.value.counter)
  {
    if ok {
      assert Worth(rec, floor, s.img, Alive(s'.ram.value.counter));
      WorthOnce(rec, floor, s.img, r, Alive(s'.ram.value.counter));
    }
  }

  // ----- Whole runs -----

  datatype Op = Loaded(ok: bool) | Saving(counter: u32, ok: bool)

  ghost predicate Step(rec: Format, floor: u32, s: Store, op: Op, s': Store) {
    match op
    case Loaded(ok) => LoadStep(rec, floor, s, ok, s')
    case Saving(c, ok) => SaveStep(rec, s, c, ok, s')
  }

  /** A history from power-up: `ss[i]` and `ss[i + 1]` are the states around `ops[i]`. */
  ghost predicate History(rec: Format, floor: u32, ss: seq<Store>, ops: seq<Op>) {
    && |ss| == |ops| + 1
    && ss[0].ram == None
    && forall i | 0 <= i < |ops| :: Step(rec, floor, ss[i], ops[i], ss[i + 1])
  }

  /** No load can return less than `c`. */
  ghost predicate AtLeast(rec: Format, floor: u32, s: Store, c: u32) {
    && (forall p :: Recovers(rec, s.img, floor, p) ==> c <= p.counter)
    && (s.ram.Some? ==> c <= s.ram.value.counter)
  }

  lemma {:induction false} WorthAtLeast(rec: Format, floor: u32, s: Store, c: u32)
    requires TornProof(rec) && Coherent(rec, floor, s) && Worth(rec, floor, s.img, Alive(c))
    ensures AtLeast(rec, floor, s, c)
  {
    forall p | Recovers(rec, s.img, floor, p) ensures c <= p.counter {
      assert Worth(rec, floor, s.img, Alive(p.counter));
      WorthOnce(rec, floor, s.img, Alive(c), Alive(p.counter));
    }
  }

  lemma {:induction false} LoadKeeps(rec: Format, floor: u32, s: Store, ok: bool, s': Store, c: u32)
    requires TornProof(rec) && LoadStep(rec, floor, s, ok, s')
    ensures Coherent(rec, floor, s')
    ensures AtLeast(rec, floor, s, c) ==> AtLeast(rec, floor, s', c)
    ensures ok ==> AtLeast(rec, floor, s', s'.ram.value.counter)
  {
    if ok {
      assert Worth(rec, floor, s'.img, Alive(s'.ram.value.counter));
      WorthAtLeast(rec, floor, s', s'.ram.value.counter);
    }
  }

  lemma {:induction false} SaveKeeps(rec: Format, floor: u32, s: Store, d: u32, ok: bool, s': Store, c: u32)
    requires TornProof(rec) && Coherent(rec, floor, s) && SaveStep(rec, s, d, ok, s')
    ensures Coherent(rec, floor, s')
    ensures AtLeast(rec, floor, s, c) ==> AtLeast(rec, floor, s', c)
    ensures ok ==> AtLeast(rec, floor, s', d) && (AtLeast(rec, floor, s, c) ==> c < d)
    ensures ok ==> s'.ram.Some? && s'.ram.value.counter == d
  {
    var r := WorthSomething(rec, floor, s.img);
    var r' := WorthSomething(rec, floor, s'.img);
    SaveRefinesRegister(rec, floor, s, d, ok, s', r, r');
    if r'.Alive? {
      WorthAtLeast(rec, floor, s', r'.counter);
    }
  }

  lemma {:induction false} StepKeeps(rec: Format, floor: u32, s: Store, op: Op, s': Store, c: u32)
    requires TornProof(rec) && Coherent(rec, floor, s) && Step(rec, floor, s, op, s')
    ensures Coherent(rec, floor, s')
    ensures AtLeast(rec, floor, s, c) ==> AtLeast(rec, floor, s', c)
  {
    match op
    case Loaded(ok) => LoadKeeps(rec, floor, s, ok, s', c);
    case Saving(d, ok) => SaveKeeps(rec, floor, s, d, ok, s', c);
  }

  lemma {:induction false} HistoryKeeps(rec: Format, floor: u32, ss: seq<Store>, ops: seq<Op>, i: nat, j: nat, c: u32)
    requires TornProof(rec) && History(rec, floor, ss, ops) && i <= j <= |ops|
    requires AtLeast(rec, floor, ss[i], c)
    ensures AtLeast(rec, floor, ss[j], c)
    decreases j
  {
    if i < j {
      HistoryKeeps(rec, floor, ss, ops, i, j - 1, c);
      HistoryCoherent(rec, floor, ss, ops, j - 1);
      StepKeeps(rec, floor, ss[j - 1], ops[j - 1], ss[j], c);
    }
  }

  lemma {:induction false} HistoryCoherent(rec: Format, floor: u32, ss: seq<Store>, ops: seq<Op>, j: nat)
    requires TornProof(rec) && History(rec, floor, ss, ops) && j <= |ops|
    ensures Coherent(rec, floor, ss[j])
  {
    if 0 < j {
      HistoryCoherent(rec, floor, ss, ops, j - 1);
      StepKeeps(rec, floor, ss[j - 1], ops[j - 1], ss[j], 0);
    }
  }

  /** No load ever returns less than a counter that a save reported durable, or that an earlier
      load returned, whatever was cut short in between. */
  lemma {:induction false} NeverRollsBack(rec: Format, floor: u32, ss: seq<Store>, ops: seq<Op>, i: nat, j: nat)
    requires TornProof(rec) && History(rec, floor, ss, ops) && i < j < |ops|
    requires ops[i].ok && ops[j] == Loaded(true)
    ensures ss[j + 1].ram.Some? && ss[i + 1].ram.Some?
    ensures ss[i + 1].ram.value.counter <= ss[j + 1].ram.value.counter
    ensures ops[i].Saving? ==> ops[i].counter == ss[i + 1].ram.value.counter
  {
    HistoryCoherent(rec, floor, ss, ops, i);
    SuccessIsKept(rec, floor, ss[i], ops[i], ss[i + 1]);
    assert Step(rec, floor, ss[j], ops[j], ss[j + 1]);
    HistoryKeeps(rec, floor, ss, ops, i + 1, j + 1, ss[i + 1].ram.value.counter);
  }

  lemma {:induction false} SuccessIsKept(rec: Format, floor: u32, s: Store, op: Op, s': Store)
    requires TornProof(rec) && Coherent(rec, floor, s) && Step(rec, floor, s, op, s') && op.ok
    ensures s'.ram.Some? && AtLeast(rec, floor, s', s'.ram.value.counter)
    ensures op.Saving? ==> op.counter == s'.ram.value.counter
  {
    match op
    case Loaded(_) => LoadKeeps(rec, floor, s, true, s', 0);
    case Saving(d, _) => SaveKeeps(rec, floor, s, d, true, s', 0);
  }

  /** Two saves that report success never carry the same counter, and the later one carries the
      larger. */
  lemma {:induction false} SavesIncrease(rec: Format, floor: u32, ss: seq<Store>, ops: seq<Op>, i: nat, j: nat)
    requires TornProof(rec) && History(rec, floor, ss, ops) && i < j < |ops|
    requires ops[i].Saving? && ops[i].ok && ops[j].Saving? && ops[j].ok
    ensures ops[i].counter < ops[j].counter
  {
    HistoryCoherent(rec, floor, ss, ops, i);
    SaveKeeps(rec, floor, ss[i], ops[i].counter, true, ss[i + 1], 0);
    HistoryKeeps(rec, floor, ss, ops, i + 1, j, ops[i].counter);
    HistoryCoherent(rec, floor, ss, ops, j);
    SaveKeeps(rec, floor, ss[j], ops[j].counter, true, ss[j + 1], ops[i].counter);
  }
}
