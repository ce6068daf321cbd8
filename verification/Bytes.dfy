/** Octets, 32-bit words and the keyed functions that the whole model shares. */
module Bytes {

  type byte = x: int | 0 <= x < 256

  type u32 = x: int | 0 <= x < 0x1_0000_0000

  type Bytes = seq<byte>

  const UINT32_MAX: u32 := 0xFFFF_FFFF

  /** A full-length MAC or hash value. */
  type Digest = d: Bytes | |d| == 32 witness seq(32, _ => 0)

  type Nonce = n: Bytes | |n| == 16 witness seq(16, _ => 0)

  /** HMAC-SHA256 (section 2 of RFC 2104), left uninterpreted: key, then message. */
  type Mac = (Bytes, Bytes) -> Digest

  /** SHA-256, left uninterpreted. */
  type Hash = Bytes -> Digest

  lemma {:induction false} SliceOfTake<T>(s: seq<T>, n: nat, from: nat, to: nat)
    requires from <= to <= n <= |s|
    ensures s[..n][from..to] == s[from..to]
  {
  }

  lemma {:induction false} SliceOfDrop<T>(s: seq<T>, n: nat, from: nat, to: nat)
    requires from <= to && n + to <= |s|
    ensures s[n..][from..to] == s[n + from..n + to]
  {
  }

  /** The complement of a 32-bit word. */
  function Not(v: u32): u32 {
    UINT32_MAX - v
  }

  function PutU32(v: u32): (out: Bytes)
    ensures |out| == 4
  {
    [v / 0x100_0000, v / 0x1_0000 % 0x100, v / 0x100 % 0x100, v % 0x100]
  }

  function GetU32(s: Bytes): u32
    requires |s| >= 4
  {
    s[0] as int * 0x100_0000 + s[1] as int * 0x1_0000 + s[2] as int * 0x100 + s[3]
  }

  lemma {:induction false} GetPut(v: u32)
    ensures GetU32(PutU32(v)) == v
  {
    var h: int, m: int, l: int := v / 0x100_0000, v / 0x1_0000, v / 0x100;
    assert m == 0x100 * h + m % 0x100 && l == 0x100 * m + l % 0x100 && v as int == 0x100 * l + v as int % 0x100;
  }

  lemma {:induction false} PutGet(s: Bytes)
    requires |s| >= 4
    ensures PutU32(GetU32(s)) == s[..4]
  {
    var high := s[0] as int * 0x100 + s[1];
    SplitAt24(s[0], s[1] as int * 0x1_0000 + s[2] as int * 0x100 + s[3]);
    SplitAt16(high, s[2] as int * 0x100 + s[3]);
    SplitAt8(high * 0x100 + s[2], s[3]);
    SplitAt8(high, s[2]);
    SplitAt8(s[0], s[1]);
  }

  /** The first octet in which the two differ is the smaller one in `s`. */
  predicate Precedes(s: Bytes, t: Bytes)
    requires |s| == |t|
  {
    s != [] && (s[0] < t[0] || (s[0] == t[0] && Precedes(s[1..], t[1..])))
  }

  /** Words are stored most significant octet first: in the order of the stored octets they are in the
      order of their values. */
  lemma {:induction false} PutKeepsOrder(v: u32, w: u32)
    ensures v < w <==> Precedes(PutU32(v), PutU32(w))
  {
    GetPut(v);
    GetPut(w);
    GetInOrder(PutU32(v), PutU32(w));
  }

  lemma {:induction false} GetInOrder(s: Bytes, t: Bytes)
    requires |s| == |t| == 4
    ensures GetU32(s) < GetU32(t) <==> Precedes(s, t)
  {
    var (s1, t1) := (s[1..], t[1..]);
    var (s2, t2) := (s1[1..], t1[1..]);
    var (s3, t3) := (s2[1..], t2[1..]);
    assert Precedes(s3, t3) <==> s[3] < t[3];
    assert Precedes(s2, t2) <==> s[2] < t[2] || (s[2] == t[2] && Precedes(s3, t3));
    assert Precedes(s1, t1) <==> s[1] < t[1] || (s[1] == t[1] && Precedes(s2, t2));
  }

  lemma {:induction false} SplitAt8(q: int, r: int)
    requires 0 <= r < 0x100
    ensures (q * 0x100 + r) / 0x100 == q && (q * 0x100 + r) % 0x100 == r
  {
  }

  lemma {:induction false} SplitAt16(q: int, r: int)
    requires 0 <= r < 0x1_0000
    ensures (q * 0x1_0000 + r) / 0x1_0000 == q
  {
  }

  lemma {:induction false} SplitAt24(q: int, r: int)
    requires 0 <= r < 0x100_0000
    ensures (q * 0x100_0000 + r) / 0x100_0000 == q
  {
  }

  lemma {:induction false} PutInjective(v: u32, w: u32)
    requires PutU32(v) == PutU32(w)
    ensures v == w
  {
    GetPut(v);
    GetPut(w);
  }

  /** Complementing the word complements each of its four octets. */
  lemma {:induction false} PutNot(v: u32, i: nat)
    requires i < 4
    ensures PutU32(Not(v))[i] == 255 - PutU32(v)[i]
  {
    var s := PutU32(v);
    GetPut(v);
    var t: Bytes := [255 - s[0], 255 - s[1], 255 - s[2], 255 - s[3]];
    assert GetU32(t) == Not(v);
    PutGet(t);
  }
}
