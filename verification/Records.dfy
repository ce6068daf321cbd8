/** The journal record, and why a record that was only partly written or partly erased is
    never taken for another one. */
module Records {
  import opened Bits
  import opened Bytes
  import opened Simple

  const SLOT := 32

  type Slot = s: Bytes | |s| == SLOT witness seq(SLOT, _ => 255)

  /** What a journal writes for a counter. */
  type Format = u32 -> Slot

  predicate Erased(r: Slot) {
    forall i | 0 <= i < SLOT :: r[i] == 255
  }

  /** Every bit set in slot `b` is set in slot `a`. */
  predicate CoversSlot(a: Slot, b: Slot) {
    forall i | 0 <= i < SLOT :: Covers(a[i], b[i])
  }

  /** Records are told apart from erased slots and from one another even when bits that should
      be clear are still set, or are set again. */
  ghost predicate TornProof(rec: Format) {
    && (forall c: u32 :: !Erased(rec(c)))
    && (forall c: u32, d: u32 :: CoversSlot(rec(d), rec(c)) ==> c == d)
  }

  /** The first 24 octets of the record MAC. */
  function RecordTag(h: Mac, key: Bytes, counter: u32): (t: Bytes)
    ensures |t| == 24
  {
    h(key, RecordInput(counter))[..24]
  }

  function Record(h: Mac, key: Bytes, counter: u32): Slot {
    PutU32(counter) + PutU32(Not(counter)) + RecordTag(h, key, counter)
  }

  function RecordFormat(h: Mac, key: Bytes): Format {
    counter => Record(h, key, counter)
  }

  /** The checks that a slot read back from flash has to pass on its own. */
  predicate Accepts(h: Mac, key: Bytes, r: Slot) {
    var c := GetU32(r);
    c != 0 && GetU32(r[4..]) == Not(c) && r[8..] == RecordTag(h, key, c)
  }

  lemma {:induction false} RecordFields(h: Mac, key: Bytes, c: u32)
    ensures GetU32(Record(h, key, c)) == c
    ensures GetU32(Record(h, key, c)[4..]) == Not(c)
    ensures Record(h, key, c)[8..] == RecordTag(h, key, c)
  {
    var r := Record(h, key, c);
    assert r[..4] == PutU32(c) && r[4..][..4] == PutU32(Not(c));
    GetPut(c);
    GetPut(Not(c));
  }

  /** A slot passes the checks exactly when it is, octet for octet, the record of the non-zero
      counter it names. */
  lemma {:induction false} AcceptsIffRecord(h: Mac, key: Bytes, r: Slot)
    ensures Accepts(h, key, r) <==> GetU32(r) != 0 && r == Record(h, key, GetU32(r))
  {
    var c := GetU32(r);
    if Accepts(h, key, r) {
      PutGet(r);
      PutGet(r[4..]);
      assert r == r[..4] + r[4..][..4] + r[8..];
    } else if c != 0 && r == Record(h, key, c) {
      RecordFields(h, key, c);
    }
  }

  /** A word whose octets cover those of `c`, with a complement that covers that of `c`, is `c`. */
  lemma {:induction false} ComplementPins(c: u32, d: u32)
    requires forall i | 0 <= i < 4 :: Covers(PutU32(d)[i], PutU32(c)[i])
    requires forall i | 0 <= i < 4 :: Covers(PutU32(Not(d))[i], PutU32(Not(c))[i])
    ensures c == d
  {
    var s, t := PutU32(c), PutU32(d);
    var s', t' := PutU32(Not(c)), PutU32(Not(d));
    forall i | 0 <= i < 4 ensures s[i] == t[i] {
      CoversIsMonotone(t[i], s[i]);
      CoversIsMonotone(t'[i], s'[i]);
      PutNot(c, i);
      PutNot(d, i);
    }
    PutInjective(c, d);
  }

  /** The complement field makes the record format torn-proof, whatever the MAC is. */
  lemma {:induction false} RecordsAreTornProof(h: Mac, key: Bytes)
    ensures TornProof(RecordFormat(h, key))
  {
    forall c: u32 ensures !Erased(Record(h, key, c)) {
      PutNot(c, 0);
      assert Record(h, key, c)[0] + Record(h, key, c)[4] == 255;
    }
    forall c: u32, d: u32 | CoversSlot(Record(h, key, d), Record(h, key, c)) ensures c == d {
      var w, r := Record(h, key, c), Record(h, key, d);
      forall i | 0 <= i < 4
        ensures Covers(PutU32(d)[i], PutU32(c)[i]) && Covers(PutU32(Not(d))[i], PutU32(Not(c))[i])
      {
        assert Covers(r[i], w[i]) && Covers(r[4 + i], w[4 + i]);
      }
      ComplementPins(c, d);
    }
  }

  /** A slot that covers a record bit by bit and passes the checks is that record, octet for
      octet: the complement field pins the counter, the tag pins the rest. */
  lemma {:induction false} TornSlotIsWhole(h: Mac, key: Bytes, c: u32, r: Slot)
    requires CoversSlot(r, Record(h, key, c))
    requires Accepts(h, key, r)
    ensures r == Record(h, key, c)
  {
    RecordsAreTornProof(h, key);
    AcceptsIffRecord(h, key, r);
    var rec := RecordFormat(h, key);
    assert CoversSlot(rec(GetU32(r)), rec(c));
  }
}
