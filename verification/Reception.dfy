/** Byte-at-a-time reception of frames, and the batch description that it refines: cut the
    stream at its delimiters and judge each piece on its own. */
module Reception {
  import opened Bytes
  import opened Clock
  import opened Cobs

  /** The receiver between two octets; `encoded` is the used part of its buffer. */
  datatype Receiver = Receiver(encoded: Bytes, started: u32, discard: bool)

  datatype Outcome = Incomplete | Discarded | Frame(kind: byte, payload: Bytes)

  /** What the contents of a packet amount to for a caller with room for `capacity` octets. */
  function Typed(raw: Bytes, capacity: nat): Outcome {
    if |raw| < 2 || raw[1] as int != |raw| - 2 || capacity < |raw| - 2 || !LegalFrame(raw[0], raw[1])
    then Discarded
    else Frame(raw[0], raw[2..])
  }

  /** What the octets between two delimiters amount to. */
  function Judge(encoded: Bytes, capacity: nat): Outcome {
    match Decode(encoded)
    case None => Discarded
    case Some(raw) => if |raw| > RAW_MAX then Discarded else Typed(raw, capacity)
  }

  function Feed(r: Receiver, octet: byte, now: u32, timeout: u32, capacity: nat): (Receiver, Outcome) {
    if timeout == 0 then (r, Discarded) else
      var discard := r.discard || (r.encoded != [] && Expired(now, r.started, timeout));
      if octet == 0 then
        (Receiver([], r.started, false),
         if discard then Discarded else if r.encoded == [] then Incomplete else Judge(r.encoded, capacity))
      else
        var started := if r.encoded == [] && !discard then now else r.started;
        if discard || |r.encoded| >= FRAME_MAX then (Receiver(r.encoded, started, true), Incomplete)
        else (Receiver(r.encoded + [octet], started, false), Incomplete)
  }

  // ----- The batch description -----

  /** What the main loop gets from the link, with the time at which it handles it. */
  datatype Input = Octet(value: byte, now: u32) | LineError

  predicate Delimits(i: Input) {
    i.Octet? && i.value == 0
  }

  /** The octets of a piece, in order. */
  function Octets(piece: seq<Input>): seq<Input> {
    if piece == [] then []
    else
      var (front, last) := (piece[..|piece| - 1], piece[|piece| - 1]);
      if last.Octet? then Octets(front) + [last] else Octets(front)
  }

  function Values(octets: seq<Input>): Bytes {
    seq(|octets|, k requires 0 <= k < |octets| => if octets[k].Octet? then octets[k].value else 0)
  }

  /** Some octet after the first came when the frame timeout, counted from the first, was over. */
  predicate Late(octets: seq<Input>, timeout: u32) {
    exists k :: 0 < k < |octets| && octets[0].Octet? && octets[k].Octet? && Expired(octets[k].now, octets[0].now, timeout)
  }

  /** A piece is spoilt by a line error, by more octets than the buffer holds, or by a late one. */
  predicate Spoilt(piece: seq<Input>, timeout: u32) {
    LineError in piece || |Octets(piece)| > FRAME_MAX || Late(Octets(piece), timeout)
  }

  /** The verdict on a piece and the delimiter after it. */
  function JudgePiece(piece: seq<Input>, end: u32, timeout: u32, capacity: nat): Outcome {
    var octets := Octets(piece);
    if Spoilt(piece, timeout) || (octets != [] && octets[0].Octet? && Expired(end, octets[0].now, timeout)) then Discarded
    else if octets == [] then Incomplete
    else Judge(Values(octets), capacity)
  }

  /** Where the piece that input `i` belongs to begins. */
  function PieceStart(inputs: seq<Input>, i: nat): (s: nat)
    requires i <= |inputs|
    ensures s <= i
    ensures forall k | s <= k < i :: !Delimits(inputs[k])
    ensures s == 0 || Delimits(inputs[s - 1])
  {
    if i == 0 then 0 else if Delimits(inputs[i - 1]) then i else PieceStart(inputs, i - 1)
  }

  /** The batch description: a frame can only come out at a delimiter, and then it is the verdict
      on the piece before it. */
  function Batch(inputs: seq<Input>, i: nat, timeout: u32, capacity: nat): Outcome
    requires i < |inputs|
  {
    if Delimits(inputs[i]) then JudgePiece(inputs[PieceStart(inputs, i)..i], inputs[i].now, timeout, capacity)
    else Incomplete
  }

  // ----- Refinement -----

  function Handle(r: Receiver, i: Input, timeout: u32, capacity: nat): (Receiver, Outcome) {
    match i
    case LineError => (r.(discard := true), Incomplete)
    case Octet(v, now) => Feed(r, v, now, timeout, capacity)
  }

  /** The receiver after a stream, and the outcome at each of its inputs. */
  function Receive(r: Receiver, inputs: seq<Input>, timeout: u32, capacity: nat): (res: (Receiver, seq<Outcome>))
    ensures |res.1| == |inputs|
  {
    if inputs == [] then (r, [])
    else
      var (before, outs) := Receive(r, inputs[..|inputs| - 1], timeout, capacity);
      var (after, out) := Handle(before, inputs[|inputs| - 1], timeout, capacity);
      (after, outs + [out])
  }

  predicate Idle(r: Receiver) {
    r.encoded == [] && !r.discard
  }

  /** What the receiver remembers of the piece it is in. */
  predicate Remembers(r: Receiver, piece: seq<Input>, timeout: u32) {
    var octets := Octets(piece);
    && r.discard == Spoilt(piece, timeout)
    && (!r.discard ==> r.encoded == Values(octets) && (octets != [] ==> octets[0].Octet? && r.started == octets[0].now))
  }

  lemma {:induction false} LateNext(octets: seq<Input>, o: Input, timeout: u32)
    requires o.Octet?
    ensures Late(octets + [o], timeout) <==>
              Late(octets, timeout) || (octets != [] && octets[0].Octet? && Expired(o.now, octets[0].now, timeout))
  {
    var next := octets + [o];
    if Late(octets, timeout) {
      var k :| 0 < k < |octets| && octets[0].Octet? && octets[k].Octet? && Expired(octets[k].now, octets[0].now, timeout);
      assert next[k] == octets[k];
    }
    if octets != [] && octets[0].Octet? && Expired(o.now, octets[0].now, timeout) {
      assert next[|octets|] == o;
    }
  }

  /** One more input that is no delimiter. */
  lemma {:induction false} RemembersNext(r: Receiver, piece: seq<Input>, i: Input, timeout: u32, capacity: nat)
    requires 0 < timeout && Remembers(r, piece, timeout) && !Delimits(i)
    ensures Remembers(Handle(r, i, timeout, capacity).0, piece + [i], timeout)
    ensures Handle(r, i, timeout, capacity).1 == Incomplete
  {
    var next := piece + [i];
    assert next[..|next| - 1] == piece;
    if i.Octet? {
      LateNext(Octets(piece), i, timeout);
      assert Octets(next) == Octets(piece) + [i];
      assert LineError in next <==> LineError in piece;
      assert !r.discard ==> Values(Octets(next)) == Values(Octets(piece)) + [i.value];
    }
  }

  /** After any stream the receiver remembers exactly the piece that is under way. */
  lemma {:induction false} ReceiveRemembers(r: Receiver, inputs: seq<Input>, timeout: u32, capacity: nat)
    requires 0 < timeout && Idle(r)
    ensures Remembers(Receive(r, inputs, timeout, capacity).0, inputs[PieceStart(inputs, |inputs|)..], timeout)
    decreases |inputs|
  {
    if inputs != [] {
      var n := |inputs| - 1;
      ReceiveRemembers(r, inputs[..n], timeout, capacity);
      PieceStartFront(inputs, n, n);
      var s := PieceStart(inputs, n);
      assert inputs[..n][s..] == inputs[s..n];
      if Delimits(inputs[n]) {
        assert inputs[n + 1..] == [];
      } else {
        RemembersNext(Receive(r, inputs[..n], timeout, capacity).0, inputs[s..n], inputs[n], timeout, capacity);
        assert inputs[s..n] + [inputs[n]] == inputs[s..];
      }
    }
  }

  /** Whatever the stream, the receiver puts out exactly what the batch description says, frame
      by frame and at the same inputs. */
  lemma {:induction false} ReceiveRefinesBatch(r: Receiver, inputs: seq<Input>, timeout: u32, capacity: nat)
    requires 0 < timeout && Idle(r)
    ensures forall i | 0 <= i < |inputs| ::
              Receive(r, inputs, timeout, capacity).1[i] == Batch(inputs, i, timeout, capacity)
    decreases |inputs|
  {
    if inputs != [] {
      var n := |inputs| - 1;
      ReceiveRefinesBatch(r, inputs[..n], timeout, capacity);
      forall i | 0 <= i < n ensures Batch(inputs[..n], i, timeout, capacity) == Batch(inputs, i, timeout, capacity) {
        BatchFront(inputs, n, i, timeout, capacity);
      }
      LastOutcome(r, inputs, timeout, capacity);
    }
  }

  lemma {:induction false} LastOutcome(r: Receiver, inputs: seq<Input>, timeout: u32, capacity: nat)
    requires 0 < timeout && Idle(r) && inputs != []
    ensures Receive(r, inputs, timeout, capacity).1[|inputs| - 1] == Batch(inputs, |inputs| - 1, timeout, capacity)
  {
    var n := |inputs| - 1;
    ReceiveRemembers(r, inputs[..n], timeout, capacity);
    PieceStartFront(inputs, n, n);
    assert inputs[..n][PieceStart(inputs, n)..] == inputs[PieceStart(inputs, n)..n];
  }

  lemma {:induction false} BatchFront(inputs: seq<Input>, n: nat, i: nat, timeout: u32, capacity: nat)
    requires i < n <= |inputs|
    ensures Batch(inputs[..n], i, timeout, capacity) == Batch(inputs, i, timeout, capacity)
  {
    PieceStartFront(inputs, n, i);
    assert inputs[..n][PieceStart(inputs[..n], i)..i] == inputs[PieceStart(inputs, i)..i];
  }

  lemma {:induction false} PieceStartFront(inputs: seq<Input>, n: nat, i: nat)
    requires i <= n <= |inputs|
    ensures PieceStart(inputs[..n], i) == PieceStart(inputs, i)
    decreases i
  {
    if 0 < i {
      PieceStartFront(inputs, n, i - 1);
    }
  }

  // ----- What is delivered -----

  /** A zero-free buffer is judged to be a frame exactly when it is, up to its delimiter, the
      wire form of that frame. */
  lemma {:induction false} JudgedIffWire(enc: Bytes, kind: byte, payload: Bytes, capacity: nat)
    requires 0 < |enc| <= FRAME_MAX && NoZero(enc)
    ensures Judge(enc, capacity) == Frame(kind, payload) <==>
              LegalFrame(kind, |payload|) && |payload| <= capacity && enc + [0] == Wire(kind, payload)
  {
    if Judge(enc, capacity) == Frame(kind, payload) {
      var raw := Decode(enc).value;
      EncodeDecode(enc, raw);
      assert raw == Raw(kind, payload);
    }
    if LegalFrame(kind, |payload|) && |payload| <= capacity && enc + [0] == Wire(kind, payload) {
      var raw := Raw(kind, payload);
      assert enc == (enc + [0])[..|enc|] == Encode(raw);
      DecodeEncode(raw);
      assert raw[2..] == payload;
    }
  }

  lemma {:induction false} ValuesNoZero(piece: seq<Input>)
    requires forall k | 0 <= k < |piece| :: !Delimits(piece[k])
    ensures NoZero(Values(Octets(piece)))
  {
    if piece != [] {
      var (front, last) := (piece[..|piece| - 1], piece[|piece| - 1]);
      ValuesNoZero(front);
      if last.Octet? {
        assert Values(Octets(piece)) == Values(Octets(front)) + [last.value];
      }
    }
  }

  /** A stream delivers a frame at input `i` exactly when that input is a delimiter, the piece
      before it is that frame on the wire, no line error was flagged in it, and no octet of it,
      the delimiter included, came after the timeout. */
  lemma {:induction false} DeliveredIff(r: Receiver, inputs: seq<Input>, i: nat, timeout: u32, capacity: nat,
                                        kind: byte, payload: Bytes)
    requires 0 < timeout && Idle(r) && i < |inputs|
    ensures Receive(r, inputs, timeout, capacity).1[i] == Frame(kind, payload) <==>
              && Delimits(inputs[i])
              && var piece := inputs[PieceStart(inputs, i)..i];
              && var octets := Octets(piece);
              && LineError !in piece
              && LegalFrame(kind, |payload|) && |payload| <= capacity
              && Values(octets) + [0] == Wire(kind, payload)
              && !Late(octets + [inputs[i]], timeout)
  {
    ReceiveRefinesBatch(r, inputs, timeout, capacity);
    if Delimits(inputs[i]) {
      var piece := inputs[PieceStart(inputs, i)..i];
      var octets := Octets(piece);
      ValuesNoZero(piece);
      LateNext(octets, inputs[i], timeout);
      if LegalFrame(kind, |payload|) {
        WireShape(kind, payload);
        assert Values(octets) + [0] == Wire(kind, payload) ==> |octets| + 1 == |payload| + 4;
      }
      if 0 < |octets| <= FRAME_MAX {
        JudgedIffWire(Values(octets), kind, payload, capacity);
      }
      OctetsAreOctets(piece);
    }
  }

  lemma {:induction false} OctetsAreOctets(piece: seq<Input>)
    ensures forall k | 0 <= k < |Octets(piece)| :: Octets(piece)[k].Octet?
  {
    if piece != [] {
      OctetsAreOctets(piece[..|piece| - 1]);
    }
  }

  // ----- Late octets on real time -----

  /** The inputs, each handled when the clock showed real time `times[k]`, in order. */
  ghost predicate Clocked(inputs: seq<Input>, times: seq<nat>) {
    && |times| == |inputs|
    && (forall k | 0 <= k < |inputs| && inputs[k].Octet? :: inputs[k].now == Tick(times[k]))
    && (forall j, k | 0 <= j <= k < |times| :: times[j] <= times[k])
  }

  /** Each octet comes before the timeout, counted modulo one wrap of the clock from the first. */
  predicate OnTick(times: seq<nat>, timeout: u32) {
    forall k | 0 <= k < |times| :: (times[k] - times[0]) % WRAP < timeout
  }

  /** Each octet comes before the timeout, counted from the first. */
  predicate OnTime(times: seq<nat>, timeout: u32) {
    forall k | 0 <= k < |times| :: times[k] < times[0] + timeout
  }

  lemma {:induction false} LateOnTick(octets: seq<Input>, times: seq<nat>, timeout: u32)
    requires 0 < timeout && Clocked(octets, times) && forall k | 0 <= k < |octets| :: octets[k].Octet?
    ensures Late(octets, timeout) <==> !OnTick(times, timeout)
  {
    if octets != [] {
      forall k | 0 <= k < |octets|
        ensures Expired(octets[k].now, octets[0].now, timeout) <==> (times[k] - times[0]) % WRAP >= timeout
      {
        ExpiredModulo(times[k], times[0], timeout);
      }
      assert (times[0] - times[0]) % WRAP == 0;
    }
  }

  lemma {:induction false} OctetsAreAll(piece: seq<Input>)
    requires LineError !in piece
    ensures Octets(piece) == piece
  {
    if piece != [] {
      var n := |piece| - 1;
      assert piece[n] in piece;
      OctetsAreAll(piece[..n]);
      assert piece == piece[..n] + [piece[n]];
    }
  }

  lemma {:induction false} ClockedSlice(inputs: seq<Input>, times: seq<nat>, s: nat, e: nat)
    requires Clocked(inputs, times) && s <= e <= |inputs|
    ensures Clocked(inputs[s..e], times[s..e])
  {
  }

  lemma {:induction false} PieceOnTick(inputs: seq<Input>, times: seq<nat>, s: nat, i: nat, timeout: u32)
    requires 0 < timeout && Clocked(inputs, times) && s <= i < |inputs|
    requires Delimits(inputs[i]) && LineError !in inputs[s..i]
    ensures Octets(inputs[s..i]) == inputs[s..i]
    ensures Late(inputs[s..i] + [inputs[i]], timeout) <==> !OnTick(times[s..i + 1], timeout)
  {
    var piece := inputs[s..i + 1];
    OctetsAreAll(inputs[s..i]);
    OctetsAreOctets(inputs[s..i]);
    assert inputs[s..i] + [inputs[i]] == piece;
    forall k | 0 <= k < |piece| ensures piece[k].Octet? {
      if k < i - s {
        assert piece[k] == inputs[s..i][k];
      }
    }
    ClockedSlice(inputs, times, s, i + 1);
    LateOnTick(piece, times[s..i + 1], timeout);
  }

  /** On real time, a frame is delivered exactly when it is on the wire without a line error, and each
      of its octets, the delimiter included, beats the timeout modulo one wrap of the clock. */
  lemma {:induction false} DeliveredOnTick(r: Receiver, inputs: seq<Input>, times: seq<nat>, i: nat, timeout: u32,
                                           capacity: nat, kind: byte, payload: Bytes)
    requires 0 < timeout && Idle(r) && i < |inputs| && Clocked(inputs, times)
    ensures Receive(r, inputs, timeout, capacity).1[i] == Frame(kind, payload) <==>
              && Delimits(inputs[i])
              && var s := PieceStart(inputs, i);
              && LineError !in inputs[s..i]
              && LegalFrame(kind, |payload|) && |payload| <= capacity
              && Values(inputs[s..i]) + [0] == Wire(kind, payload)
              && OnTick(times[s..i + 1], timeout)
  {
    DeliveredIff(r, inputs, i, timeout, capacity, kind, payload);
    if Delimits(inputs[i]) && LineError !in inputs[PieceStart(inputs, i)..i] {
      PieceOnTick(inputs, times, PieceStart(inputs, i), i, timeout);
    }
  }

  /** Octets less than one wrap of the clock after the first are late exactly when they miss the
      timeout. */
  lemma {:induction false} TickIsTime(times: seq<nat>, timeout: u32)
    requires forall k | 0 <= k < |times| :: times[0] <= times[k] < times[0] + WRAP
    ensures OnTick(times, timeout) <==> OnTime(times, timeout)
  {
    forall k | 0 <= k < |times| ensures (times[k] - times[0]) % WRAP == times[k] - times[0] {
    }
  }

  /** A later one is taken to be in time: an octet one wrap after the first. */
  lemma {:induction false} WrapIsForgotten(t: nat, timeout: u32)
    requires 0 < timeout
    ensures OnTick([t, t + WRAP], timeout) && !OnTime([t, t + WRAP], timeout)
  {
    var times := [t, t + WRAP];
    assert (times[1] - times[0]) % WRAP == 0;
  }

  // ----- Resynchronisation -----

  /** What a sender transmits: a delimiter, then the frame. */
  function Sent(kind: byte, payload: Bytes): Bytes
    requires LegalFrame(kind, |payload|)
  {
    [0] + Wire(kind, payload)
  }

  /** The octets of `bytes`, handled at `times`. */
  function Timed(bytes: Bytes, times: seq<u32>): seq<Input>
    requires |bytes| == |times|
  {
    seq(|bytes|, k requires 0 <= k < |bytes| => Octet(bytes[k], times[k]))
  }

  lemma {:induction false} OctetsOfTimed(bytes: Bytes, times: seq<u32>)
    requires |bytes| == |times|
    ensures Octets(Timed(bytes, times)) == Timed(bytes, times)
  {
    if bytes != [] {
      var n := |bytes| - 1;
      OctetsOfTimed(bytes[..n], times[..n]);
      assert Timed(bytes, times)[..n] == Timed(bytes[..n], times[..n]);
    }
  }

  lemma {:induction false} PieceStartIs(inputs: seq<Input>, s: nat, i: nat)
    requires s <= i <= |inputs|
    requires s == 0 || Delimits(inputs[s - 1])
    requires forall k | s <= k < i :: !Delimits(inputs[k])
    ensures PieceStart(inputs, i) == s
  {
    if s < i {
      PieceStartIs(inputs, s, i - 1);
    }
  }

  /** The piece that a frame on the wire makes: one octet for each but the delimiter. */
  lemma {:induction false} WirePiece(kind: byte, payload: Bytes, times: seq<u32>, timeout: u32)
    requires LegalFrame(kind, |payload|) && |times| == |Wire(kind, payload)|
    requires forall k | 1 <= k < |times| :: !Expired(times[k], times[0], timeout)
    ensures var (wire, n) := (Wire(kind, payload), |payload| + 3);
            var inputs := Timed(wire, times);
            && |inputs| == n + 1 && Delimits(inputs[n]) && (forall k | 0 <= k < n :: !Delimits(inputs[k]))
            && PieceStart(inputs, n) == 0
            && LineError !in inputs[..n]
            && Octets(inputs[..n]) == inputs[..n]
            && Values(inputs[..n]) + [0] == wire
            && !Late(inputs[..n] + [inputs[n]], timeout)
  {
    WireShape(kind, payload);
    var (wire, n) := (Wire(kind, payload), |payload| + 3);
    var inputs := Timed(wire, times);
    forall k | 0 <= k < n ensures !Delimits(inputs[k]) {
      assert inputs[k].value == wire[..n][k];
    }
    PieceStartIs(inputs, 0, n);
    assert inputs[..n] == Timed(wire[..n], times[..n]);
    OctetsOfTimed(wire[..n], times[..n]);
    assert Values(inputs[..n]) == wire[..n];
    assert inputs[..n] + [inputs[n]] == inputs;
  }

  lemma {:induction false} FrameFromIdle(r: Receiver, kind: byte, payload: Bytes, times: seq<u32>, timeout: u32,
                                         capacity: nat)
    requires 0 < timeout && LegalFrame(kind, |payload|) && |payload| <= capacity && Idle(r)
    requires |times| == |Wire(kind, payload)|
    requires forall k | 1 <= k < |times| :: !Expired(times[k], times[0], timeout)
    ensures var (after, outs) := Receive(r, Timed(Wire(kind, payload), times), timeout, capacity);
            && |outs| == |payload| + 4 && outs[|outs| - 1] == Frame(kind, payload)
            && (forall k | 0 <= k < |outs| - 1 :: outs[k] == Incomplete)
            && Idle(after)
  {
    var inputs, n := Timed(Wire(kind, payload), times), |payload| + 3;
    WirePiece(kind, payload, times, timeout);
    ReceiveRefinesBatch(r, inputs, timeout, capacity);
    ReceiveRemembers(r, inputs, timeout, capacity);
    DeliveredIff(r, inputs, n, timeout, capacity, kind, payload);
    assert inputs[0..n] == inputs[..n] && inputs[n + 1..] == [];
  }

  /** From whatever state the receiver is in, a frame that arrives whole and in time is delivered
      on its last octet, and nothing else is delivered after the leading delimiter. */
  lemma {:induction false} Resynchronises(r: Receiver, kind: byte, payload: Bytes, times: seq<u32>, timeout: u32,
                                          capacity: nat)
    requires 0 < timeout && LegalFrame(kind, |payload|) && |payload| <= capacity
    requires |times| == |Sent(kind, payload)|
    requires forall k | 2 <= k < |times| :: !Expired(times[k], times[1], timeout)
    ensures var (after, outs) := Receive(r, Timed(Sent(kind, payload), times), timeout, capacity);
            && |outs| == |payload| + 5 && outs[|outs| - 1] == Frame(kind, payload)
            && (forall k | 0 < k < |outs| - 1 :: outs[k] == Incomplete)
            && Idle(after)
  {
    var inputs := Timed(Sent(kind, payload), times);
    WireShape(kind, payload);
    assert inputs == [inputs[0]] + Timed(Wire(kind, payload), times[1..]);
    ReceiveSplit(r, inputs[0], Timed(Wire(kind, payload), times[1..]), timeout, capacity);
    FrameFromIdle(Handle(r, inputs[0], timeout, capacity).0, kind, payload, times[1..], timeout, capacity);
  }

  lemma {:induction false} ReceiveSplit(r: Receiver, i: Input, rest: seq<Input>, timeout: u32, capacity: nat)
    ensures var (next, out) := Handle(r, i, timeout, capacity);
            && Receive(r, [i] + rest, timeout, capacity).0 == Receive(next, rest, timeout, capacity).0
            && Receive(r, [i] + rest, timeout, capacity).1 == [out] + Receive(next, rest, timeout, capacity).1
    decreases |rest|
  {
    var all := [i] + rest;
    if rest == [] {
      assert all == [i] && all[..0] == [];
    } else {
      var n := |rest| - 1;
      assert all[..n + 1] == [i] + rest[..n];
      ReceiveSplit(r, i, rest[..n], timeout, capacity);
    }
  }
}
