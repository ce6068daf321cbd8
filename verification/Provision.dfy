/** Offline provisioning of a pair of devices, and what the devices make of it. */
module Provision {
  import opened Blocks
  import opened Bytes
  import opened DeviceStore
  import opened HexImage
  import opened IntelHex
  import opened Journal
  import opened Loop
  import opened Records
  import opened Register
  import opened Wrappers
  import Simple
  import opened Exchange
  import opened Paths
  import opened Reception
  import opened System
  import opened Trace
  import P = Prover
  import V = Verifier

  /** What the tool knows of a board. */
  datatype Board = Board(role: u32, keys: nat, journalA: nat, journalB: nat, imageLength: nat, ramEnd: nat)

  const H743 := Board(1, 0x081A_0000, 0x081C_0000, 0x081E_0000, 0x2_0000, 0x2002_0000)
  const G431 := Board(2, 0x0801_F800, 0x0801_C000, 0x0801_C800, 0x1_C000, 0x2000_8000)

  function Padding(n: nat): Bytes {
    seq(n, _ => 255)
  }

  /** Little-endian. */
  function Word(s: Bytes): u32
    requires |s| >= 4
  {
    GetU32([s[3], s[2], s[1], s[0]])
  }

  /** The firmware, padded to its region, if its vector table makes sense there. */
  function PadImage(image: Bytes, board: Board): Option<Bytes> {
    if |image| < 8 || |image| > board.imageLength then None
    else
      var (sp, reset) := (Word(image), Word(image[4..]));
      if !(0x2000_0000 < sp <= board.ramEnd) || sp % 8 != 0 then None
      else if reset % 2 == 0 || !(MEASURE_START <= reset - 1 < MEASURE_START + |image|) then None
      else Some(image + Padding(board.imageLength - |image|))
  }

  /** A word as the processor finds it in a vector table. */
  function LittleEndian(v: u32): (b: Bytes)
    ensures |b| == 4
  {
    [v % 0x100, v / 0x100 % 0x100, v / 0x1_0000 % 0x100, v / 0x100_0000]
  }

  lemma {:induction false} WordOfLittleEndian(s: Bytes, v: u32)
    requires |s| >= 4 && s[..4] == LittleEndian(v)
    ensures Word(s) == v
  {
    assert s[0] == s[..4][0] && s[1] == s[..4][1] && s[2] == s[..4][2] && s[3] == s[..4][3];
    assert [s[3], s[2], s[1], s[0]] == PutU32(v);
    GetPut(v);
  }

  /** An image whose vector table holds this stack pointer and this reset vector is taken exactly when it
      fits its region, the stack pointer is aligned and in RAM, and the reset vector is a Thumb address
      inside the image; it is then padded to the region. */
  lemma {:induction false} VectorTableDecides(image: Bytes, board: Board, sp: u32, reset: u32)
    requires |image| >= 8 && image[..4] == LittleEndian(sp) && image[4..8] == LittleEndian(reset)
    ensures PadImage(image, board)
            == if |image| <= board.imageLength && 0x2000_0000 < sp <= board.ramEnd && sp % 8 == 0
                  && reset % 2 == 1 && 0x0800_0000 < reset <= 0x0800_0000 + |image|
               then Some(image + Padding(board.imageLength - |image|)) else None
  {
    WordOfLittleEndian(image, sp);
    assert image[4..][..4] == image[4..8];
    WordOfLittleEndian(image[4..], reset);
  }

  function MakeRecord(h: Mac, key: Bytes, counter: int): Option<Slot> {
    if !(1 <= counter < UINT32_MAX) then None else Some(Record(h, key, counter))
  }

  function Segments(sha: Hash, board: Board, image: Bytes, m: V.Material, seed: Slot): seq<Segment> {
    [Segment(MEASURE_START, image), Segment(board.keys, MaterialBlock(sha, board.role, m)),
     Segment(board.journalA, seed), Segment(board.journalB, seed)]
  }

  // ----- What is in flash afterwards -----

  /** Flash that was blank before the image was loaded. */
  function Region(m: Memory, start: nat, len: nat): Bytes {
    seq(len, k requires 0 <= k < len => if start + k in m then m[start + k] else 255)
  }

  /** The two journal blocks, where the device looks for them. */
  function JournalImage(d: Layout, m: Memory): Image {
    [SlotsOf(Region(m, d.journalA, d.blockSize)), SlotsOf(Region(m, d.journalB, d.blockSize))]
  }

  /** Where nothing but the segment itself lies, flash holds it, and is blank after it. */
  lemma {:induction false} RegionHolds(m: Memory, ss: seq<Segment>, s: Segment, len: nat)
    requires Union(m, ss) && s in ss && |s.data| <= len
    requires forall t | t in ss :: t == s || End(t) <= s.address || s.address + len <= t.address
    ensures Region(m, s.address, len) == s.data + Padding(len - |s.data|)
  {
    var r := Region(m, s.address, len);
    assert Carries(m, s);
    forall k | 0 <= k < len ensures r[k] == (s.data + Padding(len - |s.data|))[k] {
      if s.address + k in m {
        OnlyItself(m, ss, s, len, s.address + k);
      }
    }
  }

  lemma {:induction false} OnlyItself(m: Memory, ss: seq<Segment>, s: Segment, len: nat, a: nat)
    requires Union(m, ss) && a in m && s.address <= a < s.address + len
    requires forall t | t in ss :: t == s || End(t) <= s.address || s.address + len <= t.address
    ensures HexImage.Covers(s, a)
  {
    var t :| t in ss && HexImage.Covers(t, a);
  }

  /** The tool's board is the one that the device was built for, and its layout keeps the segments apart. */
  predicate Matches(b: Board, d: Layout) {
    && b.role == d.role && b.keys == d.keys && b.journalA == d.journalA && b.journalB == d.journalB
    && 0 < d.blockSize && d.blockSize % SLOT == 0
    && MEASURE_START + b.imageLength <= d.journalA && d.journalA + d.blockSize <= d.journalB
    && MEASURE_START + b.imageLength <= d.keys && d.journalB + d.blockSize <= SPACE
    && (d.keys + MATERIAL_LEN <= d.journalA || (d.journalB + d.blockSize <= d.keys && d.keys + MATERIAL_LEN <= SPACE))
  }

  lemma {:induction false} BoardsMatch()
    ensures Matches(H743, PROVER_LAYOUT) && Matches(G431, VERIFIER_LAYOUT)
  {
  }

  lemma {:induction false} SegmentsApart(sha: Hash, b: Board, d: Layout, image: Bytes, m: V.Material, seed: Slot)
    requires Matches(b, d) && |image| <= b.imageLength
    ensures var ss := Segments(sha, b, image, m, seed);
            !Clash(ss) && AllFit(ss)
  {
  }

  /** What the device finds in flash once its image has been loaded: the padded firmware, a key page for
      its role where it looks for it, and one seed record in each journal block. */
  predicate Loaded(sha: Hash, b: Board, d: Layout, image: Bytes, m: V.Material, seed: Slot, mem: Memory) {
    && SLOT <= d.blockSize
    && PadImage(image, b) == Some(Region(mem, MEASURE_START, b.imageLength))
    && Region(mem, d.keys, MATERIAL_LEN) == MaterialBlock(sha, d.role, m)
    && Region(mem, d.journalA, d.blockSize) == Region(mem, d.journalB, d.blockSize) == seed + Padding(d.blockSize - SLOT)
  }

  lemma {:induction false} SeedsLoaded(sha: Hash, b: Board, d: Layout, image: Bytes, m: V.Material, seed: Slot, mem: Memory)
    requires Matches(b, d) && |image| <= b.imageLength && Union(mem, Segments(sha, b, image, m, seed))
    ensures SLOT <= d.blockSize
    ensures Region(mem, d.journalA, d.blockSize) == Region(mem, d.journalB, d.blockSize)
            == seed + Padding(d.blockSize - SLOT)
  {
    var ss := Segments(sha, b, image, m, seed);
    RegionHolds(mem, ss, ss[2], d.blockSize);
    RegionHolds(mem, ss, ss[3], d.blockSize);
  }

  lemma {:induction false} UnionIsLoaded(sha: Hash, b: Board, d: Layout, image: Bytes, m: V.Material, seed: Slot,
                                         mem: Memory)
    requires Matches(b, d) && PadImage(image, b).Some? && Union(mem, Segments(sha, b, image, m, seed))
    ensures Loaded(sha, b, d, image, m, seed, mem)
  {
    var ss := Segments(sha, b, image, m, seed);
    RegionHolds(mem, ss, ss[0], b.imageLength);
    RegionHolds(mem, ss, ss[1], MATERIAL_LEN);
    assert ss[1].data + Padding(0) == ss[1].data;
    SeedsLoaded(sha, b, d, image, m, seed, mem);
  }

  // ----- What the devices make of it -----

  /** A block with one seed record recovers to that record. */
  lemma {:induction false} SeedBlock(seed: Slot, n: nat)
    requires SLOT <= n && n % SLOT == 0
    ensures SlotsOf(seed + Padding(n - SLOT)) == ErasedBlock(n / SLOT)[0 := seed]
  {
    var was, now := Padding(n), seed + Padding(n - SLOT);
    AllSetIsErased(was);
    assert now[SLOT * 0..SLOT * 0 + SLOT] == seed;
    assert was[SLOT..] == now[SLOT..];
    SlotsUpdated(was, now, 0);
  }

  lemma {:induction false} SeedsRecover(rec: Format, n: nat, c: u32)
    requires 0 < n && c != 0
    ensures var block := ErasedBlock(n)[0 := rec(c)];
            Recovers(rec, [block, block], c, Position(c, 1, 1))
  {
    var block := ErasedBlock(n)[0 := rec(c)];
    BlankHolds(rec, n);
    ProgramAddsOne(rec, ErasedBlock(n), [], c);
    assert [] + [c] == [c];
    RecoversFrom(rec, [block, block], [c], [c], c, Position(c, 1, 1));
  }

  /** A freshly loaded device finds its material in order, and its journal at the provisioned counter. */
  lemma {:induction false} LoadedStarts(h: Mac, sha: Hash, b: Board, d: Layout, image: Bytes, m: V.Material, mem: Memory)
    requires m.counter != 0 && d.blockSize % SLOT == 0
    requires Loaded(sha, b, d, image, m, Record(h, m.kAuth, m.counter), mem)
    ensures ParseMaterial(sha, d.role, Region(mem, d.keys, MATERIAL_LEN)) == Some(m)
    ensures Recovers(RecordFormat(h, m.kAuth), JournalImage(d, mem), m.counter, Position(m.counter, 1, 1))
  {
    MaterialRoundTrip(sha, d.role, Region(mem, d.keys, MATERIAL_LEN), m);
    SeedBlock(Record(h, m.kAuth, m.counter), d.blockSize);
    SeedsRecover(RecordFormat(h, m.kAuth), d.blockSize / SLOT, m.counter);
  }

  function PairConfig(h: Mac, m: V.Material): Config {
    Config(h, m, m, AUTH_TIMEOUT, FRAME_TIMEOUT)
  }

  /** Both devices, freshly loaded and not yet started. */
  function PairSystem(h7: Memory, g4: Memory): System {
    System(V.Session(false, false, V.NoMaterial(), V.NoNonce(), 0, AUTH_TIMEOUT),
           Store(JournalImage(VERIFIER_LAYOUT, g4), None), Fresh(),
           P.Agent(false, V.NoMaterial()), Store(JournalImage(PROVER_LAYOUT, h7), None), Fresh(), [])
  }

  /** What provisioning has put into the flash of the two devices. */
  predicate LoadedPair(h: Mac, sha: Hash, h7Image: Bytes, g4Image: Bytes, m: V.Material, h7: Memory, g4: Memory) {
    && 0 < m.counter < UINT32_MAX
    && m.reference == h(m.kAttest, Region(h7, MEASURE_START, MEASURE_LENGTH))
    && Loaded(sha, H743, PROVER_LAYOUT, h7Image, m, Record(h, m.kAuth, m.counter), h7)
    && Loaded(sha, G431, VERIFIER_LAYOUT, g4Image, m, Record(h, m.kAuth, m.counter), g4)
  }

  /** Provisioning establishes the initial state that every theorem about runs starts from. */
  lemma {:induction false} PairIsInitial(h: Mac, sha: Hash, h7Image: Bytes, g4Image: Bytes, m: V.Material,
                                         h7: Memory, g4: Memory)
    requires LoadedPair(h, sha, h7Image, g4Image, m, h7, g4)
    ensures Initial(PairConfig(h, m), PairSystem(h7, g4))
  {
    LoadedStarts(h, sha, H743, PROVER_LAYOUT, h7Image, m, h7);
    LoadedStarts(h, sha, G431, VERIFIER_LAYOUT, g4Image, m, g4);
    var rec := RecordFormat(h, m.kAuth);
    assert Recovers(rec, JournalImage(VERIFIER_LAYOUT, g4), m.counter, Position(m.counter, 1, 1));
    assert Recovers(rec, JournalImage(PROVER_LAYOUT, h7), m.counter, Position(m.counter, 1, 1));
  }

  /** Two starts lead here, and a device that has come up is ready, with the provisioned material. */
  ghost predicate FirstStates(cfg: Config, s: System, verifierUp: bool, proverUp: bool, t: System) {
    && Path(Stepping(cfg), s, [VerifierBoot(verifierUp), ProverBoot(proverUp)], t)
    && (verifierUp ==> t.v == Started(cfg))
    && (proverUp ==> t.p == P.Agent(true, cfg.prover))
  }

  /** Where the first starts of the two devices lead. */
  lemma {:induction false} FirstBoots(cfg: Config, s: System, mid: System, up: bool, t: System, alsoUp: bool)
    requires Initial(cfg, s) && Next(cfg, s, VerifierBoot(up), mid) && Next(cfg, mid, ProverBoot(alsoUp), t)
    ensures FirstStates(cfg, s, up, alsoUp, t)
    ensures t == mid.(p := t.p, pStore := t.pStore, pLink := t.pLink)
  {
    InitialHolds(cfg, s);
    if up {
      var v := VerifierComesUp(cfg, s);
      NextIsSettled(cfg, s, VerifierBoot(true), mid, v);
    }
    StepKeepsInvariant(cfg, s, VerifierBoot(up), mid);
    if alsoUp {
      var p := ProverComesUp(cfg, mid);
      NextIsSettled(cfg, mid, ProverBoot(true), t, p);
    }
    PathTwo(Stepping(cfg), s, VerifierBoot(up), mid, ProverBoot(alsoUp), t);
  }

  /** The flash of a device, where its layout says, holds what has been loaded. */
  ghost predicate Holding(flash: Flash, d: Layout, mem: Memory)
    reads flash.a, flash.b
  {
    && flash.Valid() && flash.size == d.blockSize
    && flash.a[..] == Region(mem, d.journalA, d.blockSize) && flash.b[..] == Region(mem, d.journalB, d.blockSize)
  }

  lemma {:induction false} LoadedBoots(h: Mac, sha: Hash, b: Board, d: Layout, image: Bytes, m: V.Material, mem: Memory,
                                       flash: Flash)
    requires m.counter != 0 && d.blockSize % SLOT == 0 && Holding(flash, d, mem)
    requires Loaded(sha, b, d, image, m, Record(h, m.kAuth, m.counter), mem)
    ensures flash.Contents() == JournalImage(d, mem) && Bootable(flash, h, m)
    ensures ParseMaterial(sha, d.role, Region(mem, d.keys, MATERIAL_LEN)) == Some(m)
  {
    LoadedStarts(h, sha, b, d, image, m, mem);
  }

  /** The verifier of a freshly provisioned pair is powered up. It comes up, unless its flash is not
      protected or something fails on the way. */
  method StartLoadedVerifier(flash: Flash, h: Mac, sha: Hash, page: Bytes, protectionOk: bool, now: u32,
                             ghost h7Image: Bytes, ghost g4Image: Bytes, ghost m: V.Material, ghost h7: Memory,
                             ghost g4: Memory, ghost s: System)
    returns (loop: Option<VerifierLoop>, ghost t: System)
    requires LoadedPair(h, sha, h7Image, g4Image, m, h7, g4)
    requires Holding(flash, VERIFIER_LAYOUT, g4) && page == Region(g4, VERIFIER_LAYOUT.keys, MATERIAL_LEN)
    requires s.vStore.img == JournalImage(VERIFIER_LAYOUT, g4)
    modifies flash`used
    ensures loop.Some? <==> protectionOk && !flash.Failed(old(flash.used), flash.used)
    ensures Next(PairConfig(h, m), s, VerifierBoot(loop.Some?), t)
    ensures loop.Some? ==> loop.value.device.journal.flash == flash
    ensures loop.Some? ==> loop.value.Valid() && loop.value.Shows(PairConfig(h, m), t)
  {
    LoadedBoots(h, sha, G431, VERIFIER_LAYOUT, g4Image, m, g4, flash);
    loop, t := StartVerifier(flash, h, sha, page, protectionOk, true, now, PairConfig(h, m), s);
  }

  method StartLoadedProver(flash: Flash, h: Mac, sha: Hash, page: Bytes, protectionOk: bool, ghost h7Image: Bytes,
                           ghost g4Image: Bytes, ghost m: V.Material, ghost h7: Memory, ghost g4: Memory, ghost s: System)
    returns (loop: Option<ProverLoop>, ghost t: System)
    requires LoadedPair(h, sha, h7Image, g4Image, m, h7, g4)
    requires Holding(flash, PROVER_LAYOUT, h7) && page == Region(h7, PROVER_LAYOUT.keys, MATERIAL_LEN)
    requires s.pStore.img == JournalImage(PROVER_LAYOUT, h7)
    modifies flash`used
    ensures loop.Some? <==> protectionOk && !flash.Failed(old(flash.used), flash.used)
    ensures Next(PairConfig(h, m), s, ProverBoot(loop.Some?), t)
    ensures loop.Some? ==> loop.value.Valid() && loop.value.Shows(PairConfig(h, m), t)
  {
    LoadedBoots(h, sha, H743, PROVER_LAYOUT, h7Image, m, h7, flash);
    loop, t := StartProver(flash, h, sha, page, protectionOk, true, PairConfig(h, m), s);
  }

  /** A platform that works, whose measured memory is the flash of the loaded prover. */
  function Measuring(h7: Memory): P.Surroundings {
    P.Surroundings(true, Some(Region(h7, MEASURE_START, MEASURE_LENGTH)), true)
  }

  /** The first exchange of a freshly provisioned pair, if nothing disturbs it, is possible and ends with
      PASS, or with a timeout if its report is judged too late. */
  lemma {:induction false} FirstExchangePasses(h: Mac, sha: Hash, h7Image: Bytes, g4Image: Bytes, m: V.Material,
                                               h7: Memory, g4: Memory, draw: V.Draw, at: Schedule,
                                               steps: seq<Step>)
    returns (t: System)
    requires LoadedPair(h, sha, h7Image, g4Image, m, h7, g4)
    requires draw.randomOk && draw.macOk
    requires Prompt(at.request, Simple.REQUEST_LEN, FRAME_TIMEOUT) && Prompt(at.report, Simple.REPORT_LEN, FRAME_TIMEOUT)
    requires IsFirstExchange(PairConfig(h, m), draw, Measuring(h7), at, WithoutPolls(steps))
    requires PollsInTime(steps, draw.now, AUTH_TIMEOUT)
    ensures Leads(Stepping(PairConfig(h, m)), PairSystem(h7, g4), steps, t)
    ensures var c := m.counter + 1;
            && t.trace == [Released(c, draw.nonce, m.reference), Accepted(c),
                           Reported(c, draw.nonce, m.reference, Region(h7, MEASURE_START, MEASURE_LENGTH), 1),
                           Ending(c, draw.nonce, true, InTime(draw.now, AUTH_TIMEOUT, at.now, at.later))]
            && t.v.material == t.p.material == m.(counter := c) && t.v.ready && t.p.ready
  {
    PairIsInitial(h, sha, h7Image, g4Image, m, h7, g4);
    t := FromPairedProvisioning(PairConfig(h, m), PairSystem(h7, g4), draw, Measuring(h7), at, steps);
    PassingEvents(h, m, h7, draw.nonce, InTime(draw.now, AUTH_TIMEOUT, at.now, at.later));
  }

  lemma {:induction false} PassingEvents(h: Mac, m: V.Material, h7: Memory, nonce: Nonce, inTime: bool)
    requires m.counter < UINT32_MAX && m.reference == h(m.kAttest, Region(h7, MEASURE_START, MEASURE_LENGTH))
    ensures var c := m.counter + 1;
            [] + ExchangeEvents(PairConfig(h, m), m.counter, nonce, Measuring(h7), inTime)
            == [Released(c, nonce, m.reference), Accepted(c),
                Reported(c, nonce, m.reference, Region(h7, MEASURE_START, MEASURE_LENGTH), 1),
                Ending(c, nonce, true, inTime)]
  {
  }

  // ----- The tool -----

  datatype Images = Images(h743: string, g431: string, material: V.Material)

  /** What the tool insists on: two plausible images, two distinct keys, a counter in range. */
  predicate Provisionable(h7: Bytes, g431: Bytes, kAuth: Bytes, kAttest: Bytes, counter: int) {
    && PadImage(h7, H743).Some? && PadImage(g431, G431).Some?
    && |kAuth| == |kAttest| == 32 && kAuth != kAttest
    && 1 <= counter < UINT32_MAX
  }

  /** Print the image of one board. */
  method PrintBoard(sha: Hash, b: Board, image: Bytes, m: V.Material, seed: Slot, ghost d: Layout) returns (text: string)
    requires Matches(b, d) && PadImage(image, b).Some?
    ensures var mem := Decode(text); mem.Some? && Loaded(sha, b, d, image, m, seed, mem.value)
  {
    var ss := Segments(sha, b, image, m, seed);
    SegmentsApart(sha, b, d, image, m, seed);
    var r := Ihex(ss);
    text := r.text;
    UnionIsLoaded(sha, b, d, image, m, seed, Decode(text).value);
  }

  /** Generate the images of a pair. The memories that a reader loads from them make up a pair
      that is ready to start. */
  method Generate(h: Mac, sha: Hash, h7: Bytes, g431: Bytes, kAuth: Bytes, kAttest: Bytes, counter: int)
    returns (r: Option<Images>)
    ensures r.Some? <==> Provisionable(h7, g431, kAuth, kAttest, counter)
    ensures r.Some? ==>
              && r.value.material.kAuth == kAuth && r.value.material.kAttest == kAttest
              && r.value.material.counter == counter
    ensures r.Some? ==>
              var (h7Memory, g4Memory) := (Decode(r.value.h743), Decode(r.value.g431));
              && h7Memory.Some? && g4Memory.Some?
              && LoadedPair(h, sha, h7, g431, r.value.material, h7Memory.value, g4Memory.value)
  {
    r := None;
    var measured, firmware := PadImage(h7, H743), PadImage(g431, G431);
    if measured.None? || firmware.None? || |kAuth| != 32 || |kAttest| != 32 || kAuth == kAttest {
      return;
    }
    var seed := MakeRecord(h, kAuth, counter);
    if seed.None? {
      return;
    }
    var m := V.Material(kAuth, kAttest, h(kAttest, measured.value), counter);
    BoardsMatch();
    var h743 := PrintBoard(sha, H743, h7, m, seed.value, PROVER_LAYOUT);
    var g4 := PrintBoard(sha, G431, g431, m, seed.value, VERIFIER_LAYOUT);
    r := Some(Images(h743, g4, m));
  }
}
