/** The frame receiver as the device runs it, with its fixed buffers, and the frame sender. */
module Transport {
  import opened Bytes
  import opened Clock
  import opened Cobs
  import opened Reception
  import opened Wrappers

  function Prepend(front: Bytes, rest: Option<Bytes>): Option<Bytes> {
    match rest
    case None => None
    case Some(tail) => Some(front + tail)
  }

  /** What the stretch coded at position `i` adds to the packet. */
  function Stretch(enc: Bytes, i: nat): Bytes
    requires i < |enc| && 0 < enc[i] as int <= |enc| - i
  {
    enc[i + 1..i + enc[i]] + if enc[i] != 255 && i + enc[i] < |enc| then [0] else []
  }

  /** One stretch of the decoder, seen from position `i` of the buffer. */
  lemma {:induction false} DecodeFrom(enc: Bytes, i: nat)
    requires i < |enc|
    ensures enc[i] == 0 || enc[i] as int - 1 > |enc| - i - 1 ==> Decode(enc[i..]) == None
    ensures enc[i] != 0 && enc[i] as int - 1 <= |enc| - i - 1 ==>
              Decode(enc[i..]) == Prepend(Stretch(enc, i), Decode(enc[i + enc[i]..]))
  {
    if enc[i] != 0 && enc[i] as int - 1 <= |enc| - i - 1 {
      var next := i + enc[i];
      assert enc[i..][enc[i]..] == enc[next..] && enc[i..][1..enc[i]] == enc[i + 1..next];
    }
  }

  lemma {:induction false} StretchDone(enc: Bytes, i: nat, done: Bytes)
    requires i < |enc| && 0 < enc[i] as int <= |enc| - i
    requires Decode(enc) == Prepend(done, Decode(enc[i..]))
    ensures Decode(enc) == Prepend(done + Stretch(enc, i), Decode(enc[i + enc[i]..]))
  {
    DecodeFrom(enc, i);
    PrependTwice(done, Stretch(enc, i), Decode(enc[i + enc[i]..]));
  }

  lemma {:induction false} PrependTwice(a: Bytes, b: Bytes, rest: Option<Bytes>)
    ensures Prepend(a, Prepend(b, rest)) == Prepend(a + b, rest)
  {
    if rest.Some? {
      assert a + (b + rest.value) == (a + b) + rest.value;
    }
  }

  class FrameReceiver {
    const encoded: array<byte>
    var used: nat
    var started: u32
    var discard: bool

    ghost predicate Valid()
      reads this
    {
      encoded.Length == FRAME_MAX && used <= FRAME_MAX
    }

    ghost function State(): Receiver
      requires Valid()
      reads this, encoded
    {
      Receiver(encoded[..used], started, discard)
    }

    constructor ()
      ensures Valid() && State() == Receiver([], 0, false) && fresh(encoded)
    {
      encoded := new byte[FRAME_MAX](_ => 0);
      used, started, discard := 0, 0, false;
    }

    /** Mark the frame under way as lost. */
    method LineFault()
      requires Valid()
      modifies this`discard
      ensures Valid() && State() == old(State()).(discard := true)
    {
      discard := true;
    }

    /** Append `count` octets of the buffer, which starts with `enc`, to the `n` in `raw`, octet by octet. */
    method CopyStretch(ghost enc: Bytes, start: nat, count: nat, raw: array<byte>, n: nat) returns (ok: bool)
      requires start + count <= |enc| <= encoded.Length && encoded[..|enc|] == enc
      requires n <= raw.Length == RAW_MAX && raw != encoded
      modifies raw
      ensures ok == (n + count <= RAW_MAX)
      ensures ok ==> raw[..n + count] == old(raw[..n]) + enc[start..start + count]
    {
      for j := 0 to count
        invariant n + j <= RAW_MAX
        invariant raw[..n + j] == old(raw[..n]) + enc[start..start + j]
      {
        if n + j >= RAW_MAX {
          return false;
        }
        assert encoded[start + j] == encoded[..|enc|][start + j];
        raw[n + j] := encoded[start + j];
      }
      ok := true;
    }

    /** Append the stretch coded at position `i` of the first `len` octets, and the zero that
        follows it, if any. */
    method TakeStretch(len: nat, i: nat, raw: array<byte>, n: nat) returns (ok: bool, m: nat)
      requires i < len <= encoded.Length && 0 < encoded[i] as int <= len - i
      requires n <= raw.Length == RAW_MAX && raw != encoded
      modifies raw
      ensures ok ==> m <= RAW_MAX && raw[..m] == old(raw[..n]) + Stretch(encoded[..len], i)
      ensures !ok ==> n + |Stretch(encoded[..len], i)| > RAW_MAX
    {
      var code := encoded[i];
      ghost var enc, done := encoded[..len], raw[..n];
      ghost var block := enc[i + 1..i + code];
      m := n;
      ok := CopyStretch(enc, i + 1, code - 1, raw, n);
      if !ok {
        return;
      }
      m := n + code - 1;
      assert raw[..m] == done + block;
      if code != 255 && i + code < len {
        if m >= RAW_MAX {
          return false, m;
        }
        raw[m] := 0;
        m := m + 1;
        assert raw[..m] == (done + block) + [0] == done + (block + [0]);
      } else {
        assert block + [] == block;
      }
    }

    /** Undo the stuffing of the first `len` octets of the buffer into `raw`, which may be too
        small for them. */
    method Unstuff(len: nat, raw: array<byte>) returns (ok: bool, n: nat)
      requires len <= encoded.Length && raw.Length == RAW_MAX && raw != encoded
      modifies raw
      ensures n <= RAW_MAX
      ensures ok ==> Decode(encoded[..len]) == Some(raw[..n])
      ensures !ok ==> Decode(encoded[..len]) == None || |Decode(encoded[..len]).value| > RAW_MAX
    {
      ghost var enc := encoded[..len];
      var i := 0;
      n := 0;
      assert raw[..0] == [] && enc[0..] == enc;
      PrependNothing(Decode(enc));
      while i < len
        invariant i <= len && n <= RAW_MAX
        invariant Decode(enc) == Prepend(raw[..n], Decode(enc[i..]))
      {
        var code := encoded[i];
        if code == 0 || code as int - 1 > len - i - 1 {
          DecodeFrom(enc, i);
          return false, n;
        }
        StretchDone(enc, i, raw[..n]);
        var room, m := TakeStretch(len, i, raw, n);
        if !room {
          return false, n;
        }
        i, n := i + code, m;
      }
      ok := true;
      assert enc[i..] == [];
      assert raw[..n] + [] == raw[..n];
    }

    /** Take one octet; `framed` is 1 for a complete frame, 0 while incomplete and -1 when a
        frame is discarded. The payload buffer is written only with a complete frame. */
    method Feed(octet: byte, now: u32, timeout: u32, payload: array<byte>, capacity: nat)
      returns (framed: int, kind: byte, len: nat)
      requires Valid() && capacity <= payload.Length && payload != encoded
      modifies this, encoded, payload
      ensures Valid()
      ensures framed in {-1, 0, 1} && len <= capacity
      ensures (State(), if framed == 1 then Frame(kind, payload[..len]) else if framed == 0 then Incomplete else Discarded)
              == old(Reception.Feed(State(), octet, now, timeout, capacity))
      ensures payload[len..] == old(payload[len..]) && (framed != 1 ==> len == 0)
    {
      framed, kind, len := -1, 0, 0;
      if timeout == 0 {
        return;
      }
      if used != 0 && Expired(now, started, timeout) {
        discard := true;
      }
      if octet != 0 {
        framed := 0;
        if used == 0 && !discard {
          started := now;
        }
        if discard {
          return;
        }
        if used >= FRAME_MAX {
          discard := true;
          return;
        }
        encoded[used] := octet;
        used := used + 1;
        assert encoded[..used] == old(encoded[..used]) + [octet];
        return;
      }
      var n := used;
      used := 0;
      if discard {
        discard := false;
        return;
      }
      if n == 0 {
        framed := 0;
        return;
      }
      framed, kind, len := Deliver(n, payload, capacity);
    }

    /** Decode and check a complete frame. */
    method Deliver(n: nat, payload: array<byte>, capacity: nat) returns (framed: int, kind: byte, len: nat)
      requires n <= encoded.Length && capacity <= payload.Length && payload != encoded
      modifies payload
      ensures framed in {-1, 1} && len <= capacity
      ensures Judge(old(encoded[..n]), capacity) == if framed == 1 then Frame(kind, payload[..len]) else Discarded
      ensures payload[len..] == old(payload[len..]) && (framed != 1 ==> len == 0)
    {
      framed, kind, len := -1, 0, 0;
      var raw := new byte[RAW_MAX](_ => 0);
      var ok, m := Unstuff(n, raw);
      if !ok || m < 2 || raw[1] as int != m - 2 || capacity < m - 2 || !LegalFrame(raw[0], raw[1]) {
        return;
      }
      Simple.CopyInto(payload, 0, raw[2..m]);
      framed, kind, len := 1, raw[0], m - 2;
    }
  }

  lemma {:induction false} PrependNothing(rest: Option<Bytes>)
    ensures Prepend([], rest) == rest
  {
    if rest.Some? {
      assert [] + rest.value == rest.value;
    }
  }

  /** Encode a frame behind a leading delimiter and hand it to the link, which may fail. */
  method FrameSend(kind: byte, payload: Bytes, timeout: u32, writeOk: bool) returns (ok: bool, written: Bytes)
    ensures written == if timeout != 0 && LegalFrame(kind, |payload|) then Sent(kind, payload) else []
    ensures ok <==> timeout != 0 && LegalFrame(kind, |payload|) && writeOk
  {
    ok, written := false, [];
    if timeout == 0 {
      return;
    }
    var frame := new byte[FRAME_MAX + 1](_ => 0);
    frame[0] := 0;
    var n := FrameEncode(kind, payload, frame, 1);
    if n != 0 {
      written := frame[..n + 1];
      assert written == frame[..1] + frame[1..n + 1];
      ok := writeOk;
    }
  }
}
