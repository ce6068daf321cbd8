/** Consistent Overhead Byte Stuffing (Cheshire and Baker, IEEE/ACM Transactions on Networking
    7(2), 1999) of short packets, and the encoder of typed frames. */
module Cobs {
  import opened Bytes
  import opened Simple
  import opened Wrappers

  const FRAME_MAX := REQUEST_LEN + 4
  const RAW_MAX := REQUEST_LEN + 2

  const REQUEST: byte := 1
  const RESPONSE: byte := 2
  const DIAGNOSTIC: byte := 3

  predicate NoZero(s: Bytes) {
    forall i | 0 <= i < |s| :: s[i] != 0
  }

  /** The index of the first zero, or the length when there is none. */
  function FirstZero(s: Bytes): (z: nat)
    ensures z <= |s| && NoZero(s[..z]) && (z < |s| ==> s[z] == 0)
  {
    if s == [] || s[0] == 0 then 0 else
      var z := FirstZero(s[1..]) + 1;
      assert s[..z] == [s[0]] + s[1..][..z - 1];
      z
  }

  /** Each zero-free stretch is preceded by its length plus one; the zeros are dropped. */
  function Encode(raw: Bytes): (enc: Bytes)
    requires |raw| <= 254
    decreases |raw|
  {
    var z := FirstZero(raw);
    if z == |raw| then [z + 1] + raw else [z + 1] + raw[..z] + Encode(raw[z + 1..])
  }

  /** Undo the stuffing; a code of 255 stands for a stretch that no zero follows. */
  function Decode(enc: Bytes): Option<Bytes>
    decreases |enc|
  {
    if enc == [] then Some([])
    else if enc[0] == 0 || enc[0] as int - 1 > |enc| - 1 then None
    else
      match Decode(enc[enc[0]..])
      case None => None
      case Some(rest) =>
        Some(enc[1..enc[0]] + (if enc[0] != 255 && enc[0] as int < |enc| then [0] else []) + rest)
  }

  lemma {:induction false} FirstZeroIs(s: Bytes, z: nat)
    requires z <= |s| && (forall i | 0 <= i < z :: s[i] != 0) && (z < |s| ==> s[z] == 0)
    ensures FirstZero(s) == z
  {
    if 0 < z {
      FirstZeroIs(s[1..], z - 1);
    }
  }

  lemma {:induction false} EncodedShape(raw: Bytes)
    requires |raw| <= 254
    ensures |Encode(raw)| == |raw| + 1
    ensures NoZero(Encode(raw))
    decreases |raw|
  {
    var z := FirstZero(raw);
    if z < |raw| {
      EncodedShape(raw[z + 1..]);
    }
  }

  lemma {:induction false} DecodeStretch(block: Bytes, rest: Bytes)
    requires |block| < 255
    ensures var first := block + if |block| != 254 && rest != [] then [0] else [];
            Decode([|block| + 1] + block + rest) ==
              match Decode(rest) { case None => None case Some(tail) => Some(first + tail) }
  {
    var enc: Bytes := [|block| + 1] + block + rest;
    assert enc[1..|block| + 1] == block && enc[|block| + 1..] == rest;
  }

  lemma {:induction false} EncodeStretch(block: Bytes, tail: Bytes)
    requires NoZero(block) && |block| + 1 + |tail| <= 254
    ensures Encode(block + [0] + tail) == [|block| + 1] + block + Encode(tail)
  {
    var raw := block + [0] + tail;
    FirstZeroIs(raw, |block|);
    assert raw[..|block|] == block && raw[|block| + 1..] == tail;
  }

  lemma {:induction false} EncodeLast(block: Bytes)
    requires NoZero(block) && |block| <= 254
    ensures Encode(block) == [|block| + 1] + block
  {
    FirstZeroIs(block, |block|);
  }

  /** Decoding an encoding gives back the packet. */
  lemma {:induction false} DecodeEncode(raw: Bytes)
    requires |raw| <= 254
    ensures Decode(Encode(raw)) == Some(raw)
    decreases |raw|
  {
    var z := FirstZero(raw);
    if z == |raw| {
      assert raw[..z] == raw;
      DecodeStretch(raw, []);
      assert [z + 1] + raw + [] == [z + 1] + raw;
      assert raw + [] + [] == raw;
    } else {
      var (block, tail) := (raw[..z], raw[z + 1..]);
      assert raw == block + [0] + tail;
      EncodedShape(tail);
      DecodeEncode(tail);
      EncodeStretch(block, tail);
      DecodeStretch(block, Encode(tail));
    }
  }

  /** Whatever zero-free string decodes is the encoding of what it decodes to. */
  lemma {:induction false} EncodeDecode(enc: Bytes, raw: Bytes)
    requires 0 < |enc| <= 254 && NoZero(enc) && Decode(enc) == Some(raw)
    ensures |raw| == |enc| - 1 && Encode(raw) == enc
    decreases |enc|
  {
    var code := enc[0];
    var (block, rest) := (enc[1..code], enc[code..]);
    assert enc == [|block| + 1] + block + rest;
    DecodeStretch(block, rest);
    if rest == [] {
      assert raw == block + [] + [] == block;
      EncodeLast(block);
    } else {
      var tail := Decode(rest).value;
      EncodeDecode(rest, tail);
      assert raw == block + [0] + tail;
      EncodeStretch(block, tail);
    }
  }

  /** Up to the first zero, an encoding is a code and the octets of the packet. */
  lemma {:induction false} EncodedBefore(raw: Bytes, p: nat)
    requires |raw| <= 254 && p <= FirstZero(raw)
    ensures |Encode(raw)| == |raw| + 1
    ensures p == 0 ==> Encode(raw)[0] as int == FirstZero(raw) + 1
    ensures 0 < p ==> Encode(raw)[p] == raw[p - 1] != 0
  {
    EncodedShape(raw);
    assert 0 < p ==> raw[p - 1] == raw[..FirstZero(raw)][p - 1];
  }

  lemma {:induction false} EncodeSplits(raw: Bytes)
    requires |raw| <= 254 && FirstZero(raw) < |raw|
    ensures var z := FirstZero(raw);
            Encode(raw) == ([z + 1] + raw[..z]) + Encode(raw[z + 1..])
  {
  }

  lemma {:induction false} InSecondPart(enc: Bytes, head: Bytes, rest: Bytes, p: nat)
    requires enc == head + rest && |head| <= p < |enc|
    ensures enc[p] == rest[p - |head|]
  {
  }

  /** Behind the first zero, an encoding is the encoding of what follows that zero. */
  lemma {:induction false} EncodedBehind(raw: Bytes, p: nat, tail: Bytes, q: nat)
    requires |raw| <= 254 && FirstZero(raw) < p <= |raw|
    requires tail == raw[FirstZero(raw) + 1..] && q == p - FirstZero(raw) - 1
    requires |Encode(raw)| == |raw| + 1 && |Encode(tail)| == |tail| + 1
    ensures Encode(raw)[p] == Encode(tail)[q]
  {
    var z := FirstZero(raw);
    EncodeSplits(raw);
    InSecondPart(Encode(raw), [z + 1] + raw[..z], Encode(tail), p);
  }

  /** What stands at position `p` of an encoding: a code where a stretch begins, else the packet's octet. */
  function OctetAt(raw: Bytes, p: nat): nat
    requires p <= |raw|
  {
    if p == 0 then FirstZero(raw) + 1 else if raw[p - 1] == 0 then FirstZero(raw[p..]) + 1 else raw[p - 1]
  }

  lemma {:induction false} OctetBehind(raw: Bytes, k: nat, p: nat)
    requires k < p <= |raw| && raw[k] == 0
    ensures OctetAt(raw[k + 1..], p - k - 1) == OctetAt(raw, p)
  {
    assert raw[k + 1..][p - k - 1..] == raw[p..];
  }

  lemma {:induction false} EncodedAt(raw: Bytes, p: nat)
    requires |raw| <= 254 && p <= |raw|
    ensures |Encode(raw)| == |raw| + 1
    ensures Encode(raw)[p] as int == OctetAt(raw, p)
    decreases |raw|
  {
    var z := FirstZero(raw);
    if p <= z {
      EncodedBefore(raw, p);
    } else {
      var (tail, q) := (raw[z + 1..], p - z - 1);
      EncodedShape(raw);
      EncodedAt(tail, q);
      EncodedBehind(raw, p, tail, q);
      OctetBehind(raw, z, p);
      assert OctetAt(raw, p) == OctetAt(tail, q);
    }
  }

  // ----- Frames -----

  predicate LegalFrame(kind: byte, len: nat) {
    || (kind == REQUEST && len == REQUEST_LEN)
    || (kind == RESPONSE && len == REPORT_LEN)
    || (kind == DIAGNOSTIC && len == 1)
  }

  function Raw(kind: byte, payload: Bytes): Bytes
    requires |payload| < 256
  {
    [kind, |payload|] + payload
  }

  /** A frame on the wire, with its delimiter. */
  function Wire(kind: byte, payload: Bytes): Bytes
    requires LegalFrame(kind, |payload|)
  {
    Encode(Raw(kind, payload)) + [0]
  }

  /** A diagnostic is a legal frame of one octet, and this is how it looks on the wire. */
  lemma {:induction false} DiagnosticWire(b: byte)
    ensures LegalFrame(DIAGNOSTIC, 1)
    ensures Wire(DIAGNOSTIC, [b]) == if b == 0 then [3, 3, 1, 1, 0] else [4, 3, 1, b, 0]
  {
    var raw := Raw(DIAGNOSTIC, [b]);
    assert raw == [3, 1, b];
    if b == 0 {
      assert raw == [3, 1] + [0] + [];
      EncodeLast([]);
      EncodeStretch([3, 1], []);
      assert Wire(DIAGNOSTIC, [b]) == [2 + 1] + [3, 1] + [1] + [0];
    } else {
      EncodeLast(raw);
    }
  }

  /** A frame is four octets longer than its payload, and its only zero is the last octet. */
  lemma {:induction false} WireShape(kind: byte, payload: Bytes)
    requires LegalFrame(kind, |payload|)
    ensures |Wire(kind, payload)| == |payload| + 4 <= FRAME_MAX
    ensures NoZero(Wire(kind, payload)[..|payload| + 3]) && Wire(kind, payload)[|payload| + 3] == 0
  {
    EncodedShape(Raw(kind, payload));
  }

  /** The first `pos` octets of the encoding have been written, except the code of the stretch
      that is still open. */
  ghost predicate Partial(raw: Bytes, buf: Bytes, pos: nat, codePos: nat)
    requires |raw| <= 254
  {
    && codePos < pos <= |raw| + 1 <= |buf|
    && (codePos == 0 || raw[codePos - 1] == 0)
    && NoZero(raw[codePos..pos - 1])
    && |Encode(raw)| == |raw| + 1
    && forall p | 0 <= p < pos && p != codePos :: buf[p] == Encode(raw)[p]
  }

  lemma {:induction false} PartialCopied(raw: Bytes, buf: Bytes, pos: nat, codePos: nat)
    requires |raw| <= 254 && Partial(raw, buf, pos, codePos) && pos <= |raw| && raw[pos - 1] != 0
    ensures Partial(raw, buf[pos := raw[pos - 1]], pos + 1, codePos)
  {
    assert raw[codePos..pos] == raw[codePos..pos - 1] + [raw[pos - 1]];
    EncodedAt(raw, pos);
  }

  lemma {:induction false} CodeIsDue(raw: Bytes, buf: Bytes, pos: nat, codePos: nat)
    requires |raw| <= 254 && Partial(raw, buf, pos, codePos) && (pos <= |raw| ==> raw[pos - 1] == 0)
    ensures Encode(raw)[codePos] as int == pos - codePos
  {
    EncodedAt(raw, codePos);
    var s, n := raw[codePos..], pos - 1 - codePos;
    forall i | 0 <= i < n ensures s[i] != 0 {
      assert s[i] == raw[codePos..pos - 1][i];
    }
    FirstZeroIs(s, n);
  }

  lemma {:induction false} PartialClosed(raw: Bytes, buf: Bytes, pos: nat, codePos: nat, code: byte)
    requires |raw| <= 254 && Partial(raw, buf, pos, codePos) && pos <= |raw| && raw[pos - 1] == 0
    requires code as int == pos - codePos
    ensures Partial(raw, buf[codePos := code], pos + 1, pos)
  {
    CodeIsDue(raw, buf, pos, codePos);
  }

  /** A buffer whose middle is a partial encoding, between octets that stay as they were. */
  ghost predicate Stuffing(raw: Bytes, all: Bytes, front: Bytes, back: Bytes, pos: nat, codePos: nat)
    requires |raw| <= 254
  {
    && |all| == |front| + |raw| + 2 + |back|
    && all[..|front|] == front && all[|front| + |raw| + 2..] == back
    && Partial(raw, all[|front|..|front| + |raw| + 2], pos, codePos)
  }

  lemma {:induction false} UpdateMiddle(all: Bytes, from: nat, len: nat, k: nat, b: byte)
    requires from + len <= |all| && k < len
    ensures var now := all[from + k := b];
            && now[..from] == all[..from] && now[from + len..] == all[from + len..]
            && now[from..from + len] == all[from..from + len][k := b]
  {
  }

  lemma {:induction false} StuffingCopied(raw: Bytes, all: Bytes, front: Bytes, back: Bytes, pos: nat, codePos: nat)
    requires |raw| <= 254 && Stuffing(raw, all, front, back, pos, codePos) && pos <= |raw| && raw[pos - 1] != 0
    ensures Stuffing(raw, all[|front| + pos := raw[pos - 1]], front, back, pos + 1, codePos)
  {
    PartialCopied(raw, all[|front|..|front| + |raw| + 2], pos, codePos);
    UpdateMiddle(all, |front|, |raw| + 2, pos, raw[pos - 1]);
  }

  lemma {:induction false} StuffingClosed(raw: Bytes, all: Bytes, front: Bytes, back: Bytes, pos: nat,
                                          codePos: nat, code: byte)
    requires |raw| <= 254 && Stuffing(raw, all, front, back, pos, codePos) && pos <= |raw| && raw[pos - 1] == 0
    requires code as int == pos - codePos
    ensures Stuffing(raw, all[|front| + codePos := code], front, back, pos + 1, pos)
  {
    PartialClosed(raw, all[|front|..|front| + |raw| + 2], pos, codePos, code);
    UpdateMiddle(all, |front|, |raw| + 2, codePos, code);
  }

  lemma {:induction false} PartialDone(raw: Bytes, buf: Bytes, codePos: nat, code: byte)
    requires |raw| <= 254 && |buf| == |raw| + 2 && Partial(raw, buf, |raw| + 1, codePos)
    requires code as int == |raw| + 1 - codePos
    ensures buf[codePos := code][|raw| + 1 := 0] == Encode(raw) + [0]
  {
    CodeIsDue(raw, buf, |raw| + 1, codePos);
  }

  lemma {:induction false} ThreeSlices(all: Bytes, from: nat, len: nat)
    requires from + len <= |all|
    ensures all == all[..from] + all[from..from + len] + all[from + len..]
  {
  }

  lemma {:induction false} StuffingDone(raw: Bytes, all: Bytes, front: Bytes, back: Bytes, codePos: nat, code: byte)
    requires |raw| <= 254 && Stuffing(raw, all, front, back, |raw| + 1, codePos) && code as int == |raw| + 1 - codePos
    ensures all[|front| + codePos := code][|front| + |raw| + 1 := 0] == front + (Encode(raw) + [0]) + back
  {
    var (from, len) := (|front|, |raw| + 2);
    var closed := all[from + codePos := code];
    UpdateMiddle(all, from, len, codePos, code);
    UpdateMiddle(closed, from, len, |raw| + 1, 0);
    PartialDone(raw, all[from..from + len], codePos, code);
    ThreeSlices(closed[from + |raw| + 1 := 0], from, len);
  }

  lemma {:induction false} StuffingStarts(raw: Bytes, all: Bytes, from: nat)
    requires |raw| <= 254 && from + |raw| + 2 <= |all|
    ensures Stuffing(raw, all, all[..from], all[from + |raw| + 2..], 1, 0)
  {
    EncodedShape(raw);
  }

  /** Copy an octet that is not zero into its place. */
  method Copy(ghost raw: Bytes, out: array<byte>, from: nat, pos: nat, ghost codePos: nat, b: byte, ghost front: Bytes,
              ghost back: Bytes)
    requires |raw| <= 254 && Stuffing(raw, out[..], front, back, pos, codePos) && from == |front|
    requires 1 <= pos <= |raw| && b == raw[pos - 1] != 0
    modifies out
    ensures Stuffing(raw, out[..], front, back, pos + 1, codePos)
  {
    StuffingCopied(raw, out[..], front, back, pos, codePos);
    out[from + pos] := b;
    assert out[..] == old(out[..])[from + pos := b];
  }

  /** Write the code that was left open; the stretch after it starts at `pos`. */
  method Close(ghost raw: Bytes, out: array<byte>, from: nat, ghost pos: nat, codePos: nat, code: byte, ghost front: Bytes,
               ghost back: Bytes)
    requires |raw| <= 254 && Stuffing(raw, out[..], front, back, pos, codePos) && from == |front|
    requires 1 <= pos <= |raw| && raw[pos - 1] == 0 && code as int == pos - codePos
    modifies out
    ensures Stuffing(raw, out[..], front, back, pos + 1, pos)
  {
    StuffingClosed(raw, out[..], front, back, pos, codePos, code);
    out[from + codePos] := code;
    assert out[..] == old(out[..])[from + codePos := code];
  }

  /** Write the last code and the delimiter. */
  method Finish(ghost raw: Bytes, out: array<byte>, from: nat, pos: nat, codePos: nat, code: byte, ghost front: Bytes,
                ghost back: Bytes)
    requires |raw| <= 254 && Stuffing(raw, out[..], front, back, pos, codePos) && from == |front|
    requires pos == |raw| + 1 && code as int == pos - codePos
    modifies out
    ensures out[..] == front + (Encode(raw) + [0]) + back
  {
    StuffingDone(raw, out[..], front, back, codePos, code);
    out[from + codePos] := code;
    out[from + pos] := 0;
    assert out[..] == old(out[..])[from + codePos := code][from + pos := 0];
  }

  /** Stuff a packet into `out` from `from` on, backpatching each code when its stretch ends, and
      close it with a delimiter. */
  method Stuff(raw: Bytes, out: array<byte>, from: nat) returns (n: nat)
    requires |raw| <= RAW_MAX && from + |raw| + 2 <= out.Length
    modifies out
    ensures n == |raw| + 2
    ensures out[..] == old(out[..from]) + (Encode(raw) + [0]) + old(out[from + n..])
  {
    ghost var front, back := out[..from], out[from + |raw| + 2..];
    assert back == out[..][from + |raw| + 2..];
    StuffingStarts(raw, out[..], from);
    var pos, codePos := 1, 0;
    var code: byte := 1;
    for i := 0 to |raw|
      invariant pos == i + 1 && codePos < pos && code as int == pos - codePos
      invariant Stuffing(raw, out[..], front, back, pos, codePos)
    {
      if raw[i] == 0 {
        Close(raw, out, from, pos, codePos, code, front, back);
        codePos, pos, code := pos, pos + 1, 1;
      } else {
        Copy(raw, out, from, pos, codePos, raw[i], front, back);
        pos, code := pos + 1, code + 1;
      }
    }
    Finish(raw, out, from, pos, codePos, code, front, back);
    n := pos + 1;
  }

  /** Encode a frame into `out` from `from` on; nothing is written when it is no legal frame or
      does not fit. */
  method FrameEncode(kind: byte, payload: Bytes, out: array<byte>, from: nat) returns (n: nat)
    requires from <= out.Length
    modifies out
    ensures n == if LegalFrame(kind, |payload|) && |payload| + 4 <= out.Length - from then |payload| + 4 else 0
    ensures out[..from] == old(out[..from]) && out[from + n..] == old(out[from + n..])
    ensures n > 0 ==> out[from..from + n] == Wire(kind, payload)
  {
    if !LegalFrame(kind, |payload|) || out.Length - from < |payload| + 4 {
      return 0;
    }
    n := Stuff(Raw(kind, payload), out, from);
  }
}
