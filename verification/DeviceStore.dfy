/** The provisioned material of a device, and loading it together with the journal. */
module DeviceStore {
  import opened Bytes
  import opened Journal
  import opened Records
  import opened Register
  import opened Wrappers
  import Blocks
  import System
  import V = Verifier

  const MEASURE_START: u32 := 0x0800_0000
  const MEASURE_LENGTH: u32 := 0x2_0000
  const AUTH_TIMEOUT: u32 := 5000
  const FRAME_TIMEOUT: u32 := 250
  const BODY_LEN := 124

  /** What is compiled into a device: its role, and where its key page and its journal are. */
  datatype Layout = Layout(role: u32, keys: nat, journalA: nat, journalB: nat, blockSize: nat)

  const PROVER_LAYOUT := Layout(1, 0x081A_0000, 0x081C_0000, 0x081E_0000, 0x2_0000)
  const VERIFIER_LAYOUT := Layout(2, 0x0801_F800, 0x0801_C000, 0x0801_C800, 0x800)

  const MATERIAL_LEN := 160

  /** "SIMPLE01". */
  function Magic(): (b: Bytes)
    ensures |b| == 8
  {
    [0x53, 0x49, 0x4D, 0x50, 0x4C, 0x45, 0x30, 0x31]
  }

  function MaterialBody(role: u32, m: V.Material): (b: Bytes)
    ensures |b| == BODY_LEN
  {
    Magic() + PutU32(1) + PutU32(role) + m.kAuth + m.kAttest + m.reference
    + PutU32(MEASURE_START) + PutU32(MEASURE_LENGTH) + PutU32(m.counter)
  }

  /** The body, its hash, and padding. */
  function MaterialBlock(sha: Hash, role: u32, m: V.Material): (b: Bytes)
    ensures |b| == MATERIAL_LEN
  {
    var body := MaterialBody(role, m);
    body + sha(body) + [255, 255, 255, 255]
  }

  /** What the key page holds for a device in this role, if it is in order. */
  function ParseMaterial(sha: Hash, role: u32, page: Bytes): Option<V.Material>
    requires |page| >= BODY_LEN + 32
  {
    if page[..8] != Magic() || GetU32(page[8..]) != 1 || GetU32(page[12..]) != role
       || GetU32(page[112..]) != MEASURE_START || GetU32(page[116..]) != MEASURE_LENGTH || GetU32(page[120..]) == 0
       || sha(page[..BODY_LEN]) != page[BODY_LEN..BODY_LEN + 32]
    then None
    else Some(V.Material(page[16..48], page[48..80], page[80..112], GetU32(page[120..])))
  }

  lemma {:induction false} BodyFields(role: u32, m: V.Material, b: Bytes)
    requires |b| >= BODY_LEN && b[..BODY_LEN] == MaterialBody(role, m)
    ensures b[..8] == Magic() && GetU32(b[8..]) == 1 && GetU32(b[12..]) == role
    ensures b[16..48] == m.kAuth && b[48..80] == m.kAttest && b[80..112] == m.reference
    ensures GetU32(b[112..]) == MEASURE_START && GetU32(b[116..]) == MEASURE_LENGTH && GetU32(b[120..]) == m.counter
  {
    var body := MaterialBody(role, m);
    SliceOfTake(b, BODY_LEN, 0, 8);
    SliceOfTake(b, BODY_LEN, 8, 12);
    SliceOfTake(b, BODY_LEN, 12, 16);
    SliceOfTake(b, BODY_LEN, 16, 48);
    SliceOfTake(b, BODY_LEN, 48, 80);
    SliceOfTake(b, BODY_LEN, 80, 112);
    SliceOfTake(b, BODY_LEN, 112, 116);
    SliceOfTake(b, BODY_LEN, 116, 120);
    SliceOfTake(b, BODY_LEN, 120, 124);
    assert body[0..8] == Magic() && b[0..8] == b[..8];
    FieldIs(b, 8, 1);
    FieldIs(b, 12, role);
    FieldIs(b, 112, MEASURE_START);
    FieldIs(b, 116, MEASURE_LENGTH);
    FieldIs(b, 120, m.counter);
  }

  lemma {:induction false} FieldIs(b: Bytes, at: nat, v: u32)
    requires at + 4 <= |b| && b[at..at + 4] == PutU32(v)
    ensures GetU32(b[at..]) == v
  {
    assert b[at..][..4] == PutU32(v);
    GetPut(v);
  }

  lemma {:induction false} FieldHolds(b: Bytes, at: nat, v: u32)
    requires at + 4 <= |b| && GetU32(b[at..]) == v
    ensures b[at..at + 4] == PutU32(v)
  {
    PutGet(b[at..]);
    assert b[at..][..4] == b[at..at + 4];
  }

  lemma {:induction false} BodyFromFields(role: u32, m: V.Material, b: Bytes)
    requires |b| >= BODY_LEN
    requires b[..8] == Magic() && GetU32(b[8..]) == 1 && GetU32(b[12..]) == role
    requires b[16..48] == m.kAuth && b[48..80] == m.kAttest && b[80..112] == m.reference
    requires GetU32(b[112..]) == MEASURE_START && GetU32(b[116..]) == MEASURE_LENGTH && GetU32(b[120..]) == m.counter
    ensures b[..BODY_LEN] == MaterialBody(role, m)
  {
    FieldHolds(b, 8, 1);
    FieldHolds(b, 12, role);
    FieldHolds(b, 112, MEASURE_START);
    FieldHolds(b, 116, MEASURE_LENGTH);
    FieldHolds(b, 120, m.counter);
    assert b[..BODY_LEN] == b[..8] + b[8..12] + b[12..16] + b[16..48] + b[48..80] + b[80..112]
                          + b[112..116] + b[116..120] + b[120..124];
  }

  /** A key page is in order exactly when it holds, but for the padding, the block made for this
      role from some material with a counter other than zero, and then it yields that material. */
  lemma {:induction false} MaterialRoundTrip(sha: Hash, role: u32, page: Bytes, m: V.Material)
    requires |page| >= BODY_LEN + 32
    ensures ParseMaterial(sha, role, page) == Some(m) <==>
              m.counter != 0 && page[..BODY_LEN + 32] == MaterialBlock(sha, role, m)[..BODY_LEN + 32]
  {
    var body := MaterialBody(role, m);
    assert MaterialBlock(sha, role, m)[..BODY_LEN + 32] == body + sha(body);
    assert page[..BODY_LEN + 32] == page[..BODY_LEN] + page[BODY_LEN..BODY_LEN + 32];
    if page[..BODY_LEN + 32] == body + sha(body) {
      assert page[..BODY_LEN] == page[..BODY_LEN + 32][..BODY_LEN] == body;
      assert page[BODY_LEN..BODY_LEN + 32] == page[..BODY_LEN + 32][BODY_LEN..] == sha(body);
      BodyFields(role, m, page);
    }
    if ParseMaterial(sha, role, page) == Some(m) {
      BodyFromFields(role, m, page);
    }
  }

  /** Load the material and the journal that belongs to it. This succeeds exactly when the flash is
      protected, the key page is in order, the journal can be recovered, and nothing fails on the way. */
  method StoreLoad(flash: Flash, h: Mac, sha: Hash, role: u32, page: Bytes, protectionOk: bool, shaOk: bool)
    returns (loaded: Option<V.Material>, journal: Journal)
    requires flash.Valid() && |page| >= BODY_LEN + 32
    modifies flash`used
    ensures fresh(journal) && journal.Valid() && journal.flash == flash && journal.h == h
    ensures old(flash.used) <= flash.used
    ensures loaded.Some? <==>
              var m := ParseMaterial(sha, role, page);
              && protectionOk && shaOk && m.Some? && flash.size >= SLOT && flash.size % SLOT == 0
              && !flash.Failed(old(flash.used), flash.used)
              && Recoverable(RecordFormat(h, m.value.kAuth), flash.Contents(), m.value.counter)
    ensures loaded.Some? ==>
              var m := ParseMaterial(sha, role, page);
              && m.Some? && journal.key == m.value.kAuth && journal.ready && journal.floor == m.value.counter
              && LoadStep(RecordFormat(h, m.value.kAuth), m.value.counter, Store(flash.Contents(), None), true,
                          journal.State())
              && loaded == Some(System.LoadedMaterial(m.value, journal.State()))
    ensures loaded.None? ==> journal.State() == Store(flash.Contents(), None)
  {
    loaded := None;
    var m := ParseMaterial(sha, role, page);
    if !protectionOk || m.None? || !shaOk {
      journal := new Journal(flash, h, []);
      return;
    }
    journal := new Journal(flash, h, m.value.kAuth);
    var ok := journal.Load(m.value.counter);
    if ok {
      loaded := Some(m.value.(counter := journal.counter));
    }
  }
}
