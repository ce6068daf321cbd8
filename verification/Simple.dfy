/** The fixed wire formats, and the three byte strings that are authenticated under `k_auth`. */
module Simple {
  import Bits
  import opened Bytes
  import opened Wrappers

  const REQUEST_LEN := 84
  const MSG_LEN := 52
  const REPORT_LEN := 33
  const REPORT_AUTH_LEN := 21

  datatype Msg = Msg(counter: u32, vs: Digest, nonce: Nonce, hmac: Digest)

  datatype Report = Report(result: byte, hmac: Digest)

  /** The authenticated part of a request. */
  function RequestBody(counter: u32, vs: Digest, nonce: Nonce): (b: Bytes)
    ensures |b| == MSG_LEN
  {
    PutU32(counter) + vs + nonce
  }

  function RequestBytes(m: Msg): (b: Bytes)
    ensures |b| == REQUEST_LEN
  {
    RequestBody(m.counter, m.vs, m.nonce) + m.hmac
  }

  function ReportBytes(r: Report): (b: Bytes)
    ensures |b| == REPORT_LEN
  {
    [r.result] + r.hmac
  }

  /** The authenticated input of a response; the counter is never transmitted. */
  function ReportInput(result: byte, counter: u32, nonce: Nonce): (b: Bytes)
    ensures |b| == REPORT_AUTH_LEN
  {
    [result] + PutU32(counter) + nonce
  }

  /** The authenticated input of a journal record: "CTR1", then the counter. */
  function RecordInput(counter: u32): (b: Bytes)
    ensures |b| == 8
  {
    [0x43, 0x54, 0x52, 0x31] + PutU32(counter)
  }

  function ParseMsg(buf: Bytes): Option<Msg> {
    if |buf| != REQUEST_LEN then None
    else Some(Msg(GetU32(buf), buf[4..36], buf[36..52], buf[52..]))
  }

  function ParseReport(buf: Bytes): Option<Report> {
    if |buf| != REPORT_LEN || buf[0] > 1 then None
    else Some(Report(buf[0], buf[1..]))
  }

  /** A buffer parses as a request exactly when it is that request serialised. */
  lemma {:induction false} RequestRoundTrip(buf: Bytes, m: Msg)
    ensures ParseMsg(buf) == Some(m) <==> buf == RequestBytes(m)
    ensures ParseMsg(buf) == Some(m) ==> buf[..MSG_LEN] == RequestBody(m.counter, m.vs, m.nonce)
  {
    if buf == RequestBytes(m) {
      GetPut(m.counter);
      assert buf[..4] == PutU32(m.counter);
      assert buf[4..36] == m.vs && buf[36..52] == m.nonce && buf[52..] == m.hmac;
    }
    if ParseMsg(buf) == Some(m) {
      PutGet(buf);
      assert buf == buf[..4] + buf[4..36] + buf[36..52] + buf[52..];
      assert buf[..MSG_LEN] == buf[..4] + buf[4..36] + buf[36..52];
    }
  }

  /** A buffer parses as a report exactly when it is that report serialised and its result
      octet is 0 or 1. */
  lemma {:induction false} ReportRoundTrip(buf: Bytes, r: Report)
    ensures ParseReport(buf) == Some(r) <==> r.result <= 1 && buf == ReportBytes(r)
  {
    if ParseReport(buf) == Some(r) {
      assert buf == [buf[0]] + buf[1..];
    }
  }

  lemma {:induction false} RequestBodyInjective(c: u32, vs: Digest, n: Nonce, c': u32, vs': Digest, n': Nonce)
    requires RequestBody(c, vs, n) == RequestBody(c', vs', n')
    ensures c == c' && vs == vs' && n == n'
  {
    var b, b' := RequestBody(c, vs, n), RequestBody(c', vs', n');
    assert b[..4] == PutU32(c) && b'[..4] == PutU32(c');
    PutInjective(c, c');
    assert b[4..36] == vs && b'[4..36] == vs';
    assert b[36..] == n && b'[36..] == n';
  }

  lemma {:induction false} ReportInputInjective(r: byte, c: u32, n: Nonce, r': byte, c': u32, n': Nonce)
    requires ReportInput(r, c, n) == ReportInput(r', c', n')
    ensures r == r' && c == c' && n == n'
  {
    var b, b' := ReportInput(r, c, n), ReportInput(r', c', n');
    assert b[0] == r && b'[0] == r';
    assert b[1..5] == PutU32(c) && b'[1..5] == PutU32(c');
    PutInjective(c, c');
    assert b[5..] == n && b'[5..] == n';
  }

  lemma {:induction false} RecordInputInjective(c: u32, c': u32)
    requires RecordInput(c) == RecordInput(c')
    ensures c == c'
  {
    assert RecordInput(c)[4..] == PutU32(c) && RecordInput(c')[4..] == PutU32(c');
    PutInjective(c, c');
  }

  /** The role, with all its fields, that a `k_auth` input plays. */
  datatype Role =
    | RequestRole(counter: u32, vs: Digest, nonce: Nonce)
    | ReportRole(result: byte, counter: u32, nonce: Nonce)
    | RecordRole(counter: u32)

  function AuthInput(role: Role): Bytes {
    match role
    case RequestRole(c, vs, n) => RequestBody(c, vs, n)
    case ReportRole(r, c, n) => ReportInput(r, c, n)
    case RecordRole(c) => RecordInput(c)
  }

  /** An authenticated input determines its role and every field of it, so a tag made for one
      role, or for one set of fields, is never a tag for another. */
  lemma {:induction false} DomainSeparation(a: Role, b: Role)
    ensures AuthInput(a) == AuthInput(b) ==> a == b
  {
    if AuthInput(a) == AuthInput(b) {
      match (a, b)
      case (RequestRole(c, vs, n), RequestRole(c', vs', n')) => RequestBodyInjective(c, vs, n, c', vs', n');
      case (ReportRole(r, c, n), ReportRole(r', c', n')) => ReportInputInjective(r, c, n, r', c', n');
      case (RecordRole(c), RecordRole(c')) => RecordInputInjective(c, c');
      case _ =>
    }
  }

  /** Copy `data` into `out` from `off` on. */
  method CopyInto(out: array<byte>, off: nat, data: Bytes)
    requires off + |data| <= out.Length
    modifies out
    ensures out[..] == old(out[..off]) + data + old(out[off + |data|..])
  {
    for i := 0 to |data|
      invariant out[..] == old(out[..off]) + data[..i] + old(out[off + i..])
    {
      out[off + i] := data[i];
    }
  }

  /** Serialise a request; nothing is written when the buffer is too small. */
  method SerializeMsg(m: Msg, out: array<byte>, capacity: nat) returns (n: nat)
    requires capacity <= out.Length
    modifies out
    ensures n == if capacity < REQUEST_LEN then 0 else REQUEST_LEN
    ensures out[..] == if n == 0 then old(out[..]) else RequestBytes(m) + old(out[REQUEST_LEN..])
  {
    if capacity < REQUEST_LEN {
      return 0;
    }
    ghost var was := out[..];
    CopyInto(out, 0, PutU32(m.counter));
    assert out[..] == PutU32(m.counter) + was[4..];
    CopyInto(out, 4, m.vs);
    assert out[..] == PutU32(m.counter) + m.vs + was[36..];
    CopyInto(out, 36, m.nonce);
    assert out[..] == RequestBody(m.counter, m.vs, m.nonce) + was[52..];
    CopyInto(out, 52, m.hmac);
    assert out[..] == RequestBytes(m) + was[84..];
    n := REQUEST_LEN;
  }

  /** Serialise a report; a result other than 0 or 1 is refused. */
  method SerializeReport(r: Report, out: array<byte>, capacity: nat) returns (n: nat)
    requires capacity <= out.Length
    modifies out
    ensures n == if capacity < REPORT_LEN || r.result > 1 then 0 else REPORT_LEN
    ensures out[..] == if n == 0 then old(out[..]) else ReportBytes(r) + old(out[REPORT_LEN..])
  {
    if capacity < REPORT_LEN || r.result > 1 {
      return 0;
    }
    out[0] := r.result;
    CopyInto(out, 1, r.hmac);
    n := REPORT_LEN;
  }

  function Zeros(n: nat): Bytes {
    seq(n, _ => 0)
  }

  /** Wipe the first `n` octets. */
  method Zero(out: array<byte>, n: nat)
    requires n <= out.Length
    modifies out
    ensures out[..n] == Zeros(n) && out[n..] == old(out[n..])
  {
    for i := 0 to n
      invariant out[..i] == Zeros(i) && out[i..] == old(out[i..])
    {
      out[i] := 0;
    }
  }

  /** Compare without stopping at the first difference. */
  method CtCompare(a: Bytes, b: Bytes) returns (equal: bool)
    requires |a| == |b|
    ensures equal <==> a == b
  {
    var diff := 0;
    for i := 0 to |a|
      invariant diff == 0 <==> a[..i] == b[..i]
    {
      Bits.OrXorZero(diff, a[i], b[i]);
      assert a[..i + 1] == a[..i] + [a[i]] && b[..i + 1] == b[..i] + [b[i]];
      diff := Bits.Or(diff, Bits.Xor(a[i], b[i]));
    }
    equal := diff == 0;
    assert a[..|a|] == a && b[..|b|] == b;
  }
}
