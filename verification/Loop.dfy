/** The main loops of the two devices: each pass is a step, or a few steps, of the system. */
module Loop {
  import opened Bytes
  import opened Clock
  import opened Cobs
  import opened DeviceStore
  import opened Paths
  import opened Journal
  import opened Reception
  import opened Records
  import opened Register
  import opened Simple
  import opened System
  import opened Trace
  import opened Transport
  import opened Wrappers
  import P = Prover
  import V = Verifier

  const AUTH_INTERVAL: u32 := 60000
  const FIRST_DELAY: u32 := 2000
  const SEND_TIMEOUT: u32 := 100

  /** Counted from the start at `now`, the first challenge is due after 2 seconds and not before. */
  ghost predicate FirstDue(now: u32, lastSession: u32) {
    forall t: nat | now <= t < now + WRAP - AUTH_INTERVAL ::
      Expired(Tick(t), lastSession, AUTH_INTERVAL) <==> t >= now + FIRST_DELAY
  }

  lemma {:induction false} FirstIsDue(now: u32, lastSession: u32)
    requires lastSession == (now as int - (AUTH_INTERVAL - FIRST_DELAY)) % WRAP
    ensures FirstDue(now, lastSession)
  {
    var t0: nat := now + WRAP - (AUTH_INTERVAL - FIRST_DELAY);
    assert lastSession == Tick(t0);
    forall t: nat | now <= t < now + WRAP - AUTH_INTERVAL
      ensures Expired(Tick(t), lastSession, AUTH_INTERVAL) <==> t >= now + FIRST_DELAY
    {
      assert Tick(t) == Tick(t + WRAP);
      ExpiredExact(t + WRAP, t0, AUTH_INTERVAL);
    }
  }

  class VerifierLoop {
    const device: V.Device
    const receiver: FrameReceiver
    const payload: array<byte>
    var lastSession: u32
    var halted: bool

    ghost predicate Valid()
      reads device, device.journal, device.journal.flash.a, device.journal.flash.b, receiver
    {
      && device.Valid() && receiver.Valid() && payload.Length == REQUEST_LEN
      && Separate(payload, receiver.encoded, device.journal.flash)
    }

    /** The part of the system that this device is. */
    ghost predicate Shows(cfg: Config, s: System)
      requires Valid()
      reads device, device.journal, device.journal.flash.a, device.journal.flash.b, receiver, receiver.encoded
    {
      && cfg.frameTimeout == FRAME_TIMEOUT && cfg.h == device.h && cfg.verifier.kAuth == device.journal.key
      && s.v == device.State() && s.vStore == device.journal.State() && s.vLink == receiver.State()
    }

    constructor (device: V.Device, receiver: FrameReceiver, now: u32)
      requires device.Valid() && receiver.Valid()
      requires receiver.encoded != device.journal.flash.a && receiver.encoded != device.journal.flash.b
      ensures Valid() && this.device == device && this.receiver == receiver && !halted
      ensures FirstDue(now, lastSession)
    {
      this.device, this.receiver := device, receiver;
      payload := new byte[REQUEST_LEN](_ => 0);
      lastSession, halted := (now as int - (AUTH_INTERVAL - FIRST_DELAY)) % WRAP, false;
      new;
      FirstIsDue(now, lastSession);
    }

    /** Give up a challenge whose time is over. */
    method Poll(now: u32, after: u32, ghost cfg: Config, ghost s: System) returns (ghost t: System)
      requires Valid() && Shows(cfg, s)
      modifies device`outstanding, device`nonce, `lastSession
      ensures Valid() && Shows(cfg, t)
      ensures Next(cfg, s, VerifierPoll(now), t)
      ensures lastSession == if V.Polled(s.v, now).1 == V.Timeout then after else old(lastSession)
    {
      var r := device.Poll(now);
      if r == V.Timeout {
        lastSession := after;
      }
      t := s.(v := device.State(), trace := s.trace + Closing(s.v, r));
    }

    /** Commit the next challenge; only a committed one is in the buffer afterwards. */
    method Commit(draw: V.Draw, ghost cfg: Config, ghost s: System) returns (n: nat, ghost t: System)
      requires Valid() && Shows(cfg, s)
      modifies device, device.journal, device.journal.flash.a, device.journal.flash.b, payload
      modifies device.journal.flash`log, device.journal.flash`used
      ensures Valid() && Shows(cfg, t) && old(device.journal.flash.used) <= device.journal.flash.used
      ensures n != 0 <==> s.v.ready && !s.v.outstanding && s.v.material.counter < UINT32_MAX && draw.randomOk && draw.macOk
                          && !device.journal.flash.Failed(old(device.journal.flash.used), device.journal.flash.used)
      ensures Path(Stepping(cfg), s, [VerifierChallenge(draw, n != 0)], t)
      ensures t == s.(v := t.v, vStore := t.vStore, trace := t.trace)
      ensures n == 0 ==> t.trace == s.trace
      ensures n != 0 ==> n == REQUEST_LEN && t.v.outstanding && RequestOf(cfg, s, draw, payload[..n], t.trace)
    {
      var saved;
      n, saved := device.Challenge(draw, payload, REQUEST_LEN);
      t := Committed(cfg, s, draw, saved, device.journal.State());
    }

    /** When nothing is outstanding and the interval is over, commit and send the next challenge, or halt;
        what goes out is the request of the challenge just released. The challenge stays outstanding
        exactly when the link has taken it. */
    method Challenge(now: u32, draw: V.Draw, writeOk: bool, after: u32, ghost cfg: Config, ghost s: System)
      returns (sent: Bytes, ghost steps: seq<Step>, ghost t: System)
      requires Valid() && Shows(cfg, s)
      modifies this, payload, device, device.journal, device.journal.flash.a, device.journal.flash.b
      modifies device.journal.flash`log, device.journal.flash`used
      ensures Valid() && Shows(cfg, t) && old(device.journal.flash.used) <= device.journal.flash.used
      ensures Path(Stepping(cfg), s, steps, t) && t == s.(v := t.v, vStore := t.vStore, trace := t.trace)
      ensures var due := !s.v.outstanding && Expired(now, old(lastSession), AUTH_INTERVAL);
              var working := !device.journal.flash.Failed(old(device.journal.flash.used), device.journal.flash.used);
              var committed := due && s.v.ready && s.v.material.counter < UINT32_MAX
                               && draw.randomOk && draw.macOk && working;
              && steps == (if due then [VerifierChallenge(draw, committed)] else [])
                          + (if committed && !writeOk then [VerifierSendFailure] else [])
              && (if committed
                  then
                    && RequestOf(cfg, s, draw, payload[..REQUEST_LEN], t.trace)
                    && sent == Sent(REQUEST, payload[..REQUEST_LEN]) && t.v.outstanding == writeOk
                  else sent == [] && t.trace == s.trace)
              && lastSession == (if committed then after else old(lastSession))
              && halted == (old(halted) || (due && !committed))
    {
      sent, steps, t := [], [], s;
      if !device.outstanding && Expired(now, lastSession, AUTH_INTERVAL) {
        var n;
        n, t := Commit(draw, cfg, s);
        steps := [VerifierChallenge(draw, n != 0)];
        if n == 0 {
          halted := true;
          return;
        }
        sent, steps, t := Send(n, writeOk, VerifierChallenge(draw, true), cfg, s, t);
        lastSession := after;
      }
    }

    /** Send the request that the step from `s` to `t` has left in the buffer; give up its challenge
        when that fails. */
    method Send(n: nat, writeOk: bool, ghost step: Step, ghost cfg: Config, ghost s: System, ghost t: System)
      returns (sent: Bytes, ghost steps: seq<Step>, ghost u: System)
      requires Valid() && Shows(cfg, t) && t.v.outstanding && n == REQUEST_LEN && Path(Stepping(cfg), s, [step], t)
      modifies device`outstanding, device`nonce
      ensures Valid() && Shows(cfg, u)
      ensures steps == [step] + if writeOk then [] else [VerifierSendFailure]
      ensures Path(Stepping(cfg), s, steps, u) && u == t.(v := u.v, trace := u.trace) && t.trace <= u.trace
      ensures u.v == if writeOk then t.v else V.Cancelled(t.v)
      ensures sent == Sent(REQUEST, payload[..n])
    {
      var ok;
      ok, sent := FrameSend(REQUEST, payload[..n], SEND_TIMEOUT, writeOk);
      steps, u := [step], t;
      if !ok {
        device.Cancel();
        u := t.(v := V.Cancelled(t.v), trace := t.trace + [Abandoned(t.v.material.counter)]);
        PathSnoc(Stepping(cfg), s, steps, t, VerifierSendFailure, u);
        steps := [step] + [VerifierSendFailure];
      }
    }

    /** Take one octet or one line error from the link. */
    method Take(input: Input, macOk: bool, now: u32, later: u32, after: u32, ghost cfg: Config, ghost s: System)
      returns (ghost t: System)
      requires Valid() && Shows(cfg, s)
      requires var out := Reception.Handle(s.vLink, input, cfg.frameTimeout, REQUEST_LEN).1;
               out.Frame? && out.kind == RESPONSE ==> UnforgedResponse(cfg, s, out.payload)
      modifies device`outstanding, device`nonce, receiver, receiver.encoded, payload, `lastSession
      ensures Valid() && Shows(cfg, t)
      ensures Next(cfg, s, VerifierInput(input, now, later, macOk), t)
      ensures var out := Reception.Handle(s.vLink, input, cfg.frameTimeout, REQUEST_LEN).1;
              var ended := out.Frame? && out.kind == RESPONSE
                           && V.Verified(cfg.h, s.v, out.payload, macOk, now, later).1 in {V.Pass, V.Mismatch, V.Timeout};
              lastSession == if ended then after else old(lastSession)
    {
      match input
      case LineError =>
        receiver.LineFault();
        t := s.(vLink := receiver.State());
      case Octet(value, at) =>
        var framed, kind, len := receiver.Feed(value, at, FRAME_TIMEOUT, payload, REQUEST_LEN);
        t := s.(vLink := receiver.State());
        if framed == 1 && kind == RESPONSE {
          t := Judge(payload[..len], macOk, now, later, after, cfg, t);
        }
    }

    /** Judge a response; the end of a session restarts the interval. */
    method Judge(response: Bytes, macOk: bool, now: u32, later: u32, after: u32, ghost cfg: Config, ghost s: System)
      returns (ghost t: System)
      requires Valid() && Shows(cfg, s)
      modifies device`outstanding, device`nonce, `lastSession
      ensures Valid() && Shows(cfg, t)
      ensures var (v, r) := V.Verified(cfg.h, s.v, response, macOk, now, later);
              && t == s.(v := v, trace := s.trace + Closing(s.v, r))
              && lastSession == if r in {V.Pass, V.Mismatch, V.Timeout} then after else old(lastSession)
    {
      var r := device.Verify(response, macOk, now, later);
      if r in {V.Pass, V.Mismatch, V.Timeout} {
        lastSession := after;
      }
      t := s.(v := device.State(), trace := s.trace + Closing(s.v, r));
    }
  }

  /** The octets are the request of the challenge that this state releases next, and trace `tr`
      records that release. */
  ghost predicate RequestOf(cfg: Config, s: System, draw: V.Draw, request: Bytes, tr: Trace) {
    && V.Commits(s.v, draw, REQUEST_LEN)
    && var m := V.NextChallenge(cfg.h, s.v, draw.nonce);
    && request == RequestBytes(m)
    && s.trace + [Released(m.counter, m.nonce, m.vs)] <= tr
  }

  /** What a challenge makes of the system, when its save leaves this store. */
  lemma {:induction false} Committed(cfg: Config, s: System, draw: V.Draw, saved: bool, store: Store) returns (t: System)
    requires V.CommitStep(Rec(cfg), s.v, draw, REQUEST_LEN, s.vStore, saved, store)
    ensures t == s.(v := V.Challenged(cfg.h, s.v, draw, REQUEST_LEN, saved).0, vStore := store, trace := t.trace)
    ensures Path(Stepping(cfg), s, [VerifierChallenge(draw, saved)], t)
    ensures match V.Challenged(cfg.h, s.v, draw, REQUEST_LEN, saved).1
            case None => t.trace == s.trace
            case Some(m) => t.v.outstanding && RequestOf(cfg, s, draw, RequestBytes(m), t.trace)
  {
    var (v, msg) := V.Challenged(cfg.h, s.v, draw, REQUEST_LEN, saved);
    t := s.(v := v, vStore := store,
            trace := s.trace + match msg { case None => [] case Some(m) => [Released(m.counter, m.nonce, m.vs)] });
    PathOne(Stepping(cfg), s, VerifierChallenge(draw, saved), t);
  }

  predicate Separate(payload: array<byte>, encoded: array<byte>, flash: Flash) {
    && payload != encoded
    && payload != flash.a && payload != flash.b && encoded != flash.a && encoded != flash.b
  }

  /** What goes out on the line in answer to a request. */
  function Reply(cfg: Config, p: P.Agent, req: Bytes, env: P.Surroundings, saved: bool): Bytes {
    match P.Handled(cfg.h, p, req, env, REPORT_LEN, saved).1
    case None => []
    case Some(r) => Sent(RESPONSE, ReportBytes(r))
  }

  /** What goes out is the report that has just been released, and nothing else ever does. */
  lemma {:induction false} ReplyIsReported(cfg: Config, p: P.Agent, req: Bytes, env: P.Surroundings, saved: bool)
    ensures var events := Handling(p, req, env, saved, cfg.h);
            if events != [] && events[|events| - 1].Reported?
            then
              var e := events[|events| - 1];
              var tag := cfg.h(p.material.kAuth, ReportInput(e.result, e.counter, e.nonce));
              Reply(cfg, p, req, env, saved) == Sent(RESPONSE, ReportBytes(Report(e.result, tag)))
            else Reply(cfg, p, req, env, saved) == []
  {
  }

  class ProverLoop {
    const device: P.Device
    const receiver: FrameReceiver
    const payload: array<byte>
    const response: array<byte>
    var halted: bool

    ghost predicate Valid()
      reads device, device.journal, device.journal.flash.a, device.journal.flash.b, receiver
    {
      && device.Valid() && receiver.Valid() && payload.Length == REQUEST_LEN && response.Length == REPORT_LEN
      && Separate(payload, receiver.encoded, device.journal.flash)
      && Separate(response, receiver.encoded, device.journal.flash)
    }

    ghost predicate Shows(cfg: Config, s: System)
      requires Valid()
      reads device, device.journal, device.journal.flash.a, device.journal.flash.b, receiver, receiver.encoded
    {
      && cfg.frameTimeout == FRAME_TIMEOUT && cfg.h == device.h && cfg.verifier.kAuth == device.journal.key
      && s.p == device.State() && s.pStore == device.journal.State() && s.pLink == receiver.State()
    }

    constructor (device: P.Device, receiver: FrameReceiver)
      requires device.Valid() && receiver.Valid()
      requires receiver.encoded != device.journal.flash.a && receiver.encoded != device.journal.flash.b
      ensures Valid() && this.device == device && this.receiver == receiver && !halted
    {
      this.device, this.receiver, halted := device, receiver, false;
      payload := new byte[REQUEST_LEN](_ => 0);
      response := new byte[REPORT_LEN](_ => 0);
    }

    /** Take one octet or one line error from the link, and answer a request that it completes;
        what goes out is the report that has just been released. */
    method Take(input: Input, env: P.Surroundings, writeOk: bool, ghost cfg: Config, ghost s: System)
      returns (sent: Bytes, ghost saved: bool, ghost t: System)
      requires Valid() && Shows(cfg, s)
      requires var out := Reception.Handle(s.pLink, input, cfg.frameTimeout, REQUEST_LEN).1;
               out.Frame? && out.kind == REQUEST ==> UnforgedRequest(cfg, s, out.payload)
      modifies this`halted, device, device.journal, device.journal.flash.a, device.journal.flash.b
      modifies device.journal.flash`log, device.journal.flash`used, receiver, receiver.encoded, payload, response
      ensures Valid() && Shows(cfg, t) && old(device.journal.flash.used) <= device.journal.flash.used
      ensures var out := Reception.Handle(s.pLink, input, cfg.frameTimeout, REQUEST_LEN).1;
              saved <==> out.Frame? && out.kind == REQUEST
                         && P.Acceptable(cfg.h, s.p, out.payload, env, REPORT_LEN).Some?
                         && !device.journal.flash.Failed(old(device.journal.flash.used), device.journal.flash.used)
      ensures Next(cfg, s, ProverInput(input, env, saved), t)
      ensures var out := Reception.Handle(s.pLink, input, cfg.frameTimeout, REQUEST_LEN).1;
              if out.Frame? && out.kind == REQUEST
              then sent == Reply(cfg, s.p, out.payload, env, saved) && halted == (old(halted) || !t.p.ready)
              else sent == [] && halted == old(halted)
    {
      sent, saved := [], false;
      match input
      case LineError =>
        receiver.LineFault();
        t := s.(pLink := receiver.State());
      case Octet(value, at) =>
        var framed, kind, len := receiver.Feed(value, at, FRAME_TIMEOUT, payload, REQUEST_LEN);
        t := s.(pLink := receiver.State());
        if framed == 1 && kind == REQUEST {
          sent, saved, t := Answer(payload[..len], env, writeOk, cfg, t);
        }
    }

    /** Handle a request and send the report, if there is one. */
    method Answer(req: Bytes, env: P.Surroundings, writeOk: bool, ghost cfg: Config, ghost s: System)
      returns (sent: Bytes, ghost saved: bool, ghost t: System)
      requires Valid() && Shows(cfg, s)
      modifies this`halted, device, device.journal, device.journal.flash.a, device.journal.flash.b
      modifies device.journal.flash`log, device.journal.flash`used, response
      ensures Valid() && Shows(cfg, t) && old(device.journal.flash.used) <= device.journal.flash.used
      ensures saved <==> P.Acceptable(cfg.h, s.p, req, env, REPORT_LEN).Some?
                         && !device.journal.flash.Failed(old(device.journal.flash.used), device.journal.flash.used)
      ensures t == s.(p := P.Handled(cfg.h, s.p, req, env, REPORT_LEN, saved).0, pStore := t.pStore,
                      trace := s.trace + Handling(s.p, req, env, saved, cfg.h))
      ensures P.AcceptStep(Rec(cfg), cfg.h, s.p, req, env, REPORT_LEN, s.pStore, saved, t.pStore)
      ensures sent == Reply(cfg, s.p, req, env, saved) && halted == (old(halted) || !t.p.ready)
    {
      var n, committed := device.HandleRequest(req, env, response, REPORT_LEN);
      saved, sent := committed, [];
      t := s.(p := device.State(), pStore := device.journal.State(),
              trace := s.trace + Handling(s.p, req, env, saved, cfg.h));
      if !device.ready {
        halted := true;
      } else if n != 0 {
        var ok;
        ok, sent := FrameSend(RESPONSE, response[..n], SEND_TIMEOUT, writeOk);
      }
    }
  }

  /** What a device needs of its flash to come up: a journal that can be recovered. */
  ghost predicate Bootable(flash: Flash, h: Mac, m: V.Material)
    requires flash.Valid()
    reads flash.a, flash.b
  {
    flash.size >= SLOT && flash.size % SLOT == 0 && Recoverable(RecordFormat(h, m.kAuth), flash.Contents(), m.counter)
  }

  /** Start the verifier on its flash, which holds what the system says. This is a restart of the system,
      and it comes up exactly when its flash is protected and bootable and nothing fails on the way. */
  method StartVerifier(flash: Flash, h: Mac, sha: Hash, page: Bytes, protectionOk: bool, shaOk: bool, now: u32,
                       ghost cfg: Config, ghost s: System)
    returns (loop: Option<VerifierLoop>, ghost t: System)
    requires flash.Valid() && |page| >= BODY_LEN + 32
    requires ParseMaterial(sha, VERIFIER_LAYOUT.role, page) == Some(cfg.verifier)
    requires cfg.h == h && cfg.timeout == AUTH_TIMEOUT && cfg.frameTimeout == FRAME_TIMEOUT
    requires s.vStore.img == flash.Contents()
    modifies flash`used
    ensures old(flash.used) <= flash.used
    ensures loop.Some? <==> protectionOk && shaOk && Bootable(flash, h, cfg.verifier)
                            && !flash.Failed(old(flash.used), flash.used)
    ensures Next(cfg, s, VerifierBoot(loop.Some?), t)
    ensures loop.Some? ==> loop.value.Valid() && loop.value.Shows(cfg, t) && loop.value.device.journal.flash == flash
    ensures loop.Some? ==> !loop.value.halted && FirstDue(now, loop.value.lastSession)
  {
    var loaded, journal := StoreLoad(flash, h, sha, VERIFIER_LAYOUT.role, page, protectionOk, shaOk);
    t := s.(vStore := journal.State(), v := Booted(cfg, journal.State()), vLink := Fresh());
    if loaded.None? {
      return None, t;
    }
    var device := new V.Device(h, journal, loaded, AUTH_TIMEOUT);
    var receiver := new FrameReceiver();
    var running := new VerifierLoop(device, receiver, now);
    loop := Some(running);
  }

  method StartProver(flash: Flash, h: Mac, sha: Hash, page: Bytes, protectionOk: bool, shaOk: bool,
                     ghost cfg: Config, ghost s: System)
    returns (loop: Option<ProverLoop>, ghost t: System)
    requires flash.Valid() && |page| >= BODY_LEN + 32
    requires ParseMaterial(sha, PROVER_LAYOUT.role, page) == Some(cfg.prover) && Paired(cfg)
    requires cfg.h == h && cfg.frameTimeout == FRAME_TIMEOUT
    requires s.pStore.img == flash.Contents()
    modifies flash`used
    ensures old(flash.used) <= flash.used
    ensures loop.Some? <==> protectionOk && shaOk && Bootable(flash, h, cfg.prover)
                            && !flash.Failed(old(flash.used), flash.used)
    ensures Next(cfg, s, ProverBoot(loop.Some?), t)
    ensures loop.Some? ==> loop.value.Valid() && loop.value.Shows(cfg, t) && loop.value.device.journal.flash == flash
    ensures loop.Some? ==> !loop.value.halted
  {
    var loaded, journal := StoreLoad(flash, h, sha, PROVER_LAYOUT.role, page, protectionOk, shaOk);
    t := s.(pStore := journal.State(), p := P.Agent(loaded.Some?, LoadedMaterial(cfg.prover, journal.State())),
            pLink := Fresh());
    if loaded.None? {
      return None, t;
    }
    var device := new P.Device(h, journal, loaded);
    var receiver := new FrameReceiver();
    var running := new ProverLoop(device, receiver);
    loop := Some(running);
  }
}
