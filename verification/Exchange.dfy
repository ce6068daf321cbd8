/** An exchange that nothing disturbs, from the release of a challenge to its verdict, octet by
    octet through both receivers. */
module Exchange {
  import Bits
  import opened Blocks
  import opened Bytes
  import opened Clock
  import opened Cobs
  import opened Paths
  import opened Reception
  import opened Records
  import opened Register
  import opened Simple
  import opened System
  import opened Trace
  import opened Wrappers
  import P = Prover
  import V = Verifier

  /** Whatever steps lead on from a state with the invariant, the invariant holds after them. */
  lemma {:induction false} PathKeeps(cfg: Config, s: System, steps: seq<Step>, t: System)
    requires Invariant(cfg, s) && Path(Stepping(cfg), s, steps, t)
    ensures Invariant(cfg, t)
    decreases |steps|
  {
    if steps != [] {
      var m := PathLast(Stepping(cfg), s, steps, t);
      PathKeeps(cfg, s, steps[..|steps| - 1], m);
      StepKeepsInvariant(cfg, m, steps[|steps| - 1], t);
    }
  }

  /** The states along a path from an initial state make up a run, so every theorem about runs
      holds of where a path leads. */
  lemma {:induction false} PathIsRun(cfg: Config, s: System, steps: seq<Step>, t: System) returns (ss: seq<System>)
    requires Initial(cfg, s) && Path(Stepping(cfg), s, steps, t)
    ensures Run(cfg, ss, steps) && ss[0] == s && ss[|steps|] == t
  {
    ss := PathStates(Stepping(cfg), s, steps, t);
    forall k | 0 <= k < |steps| ensures StepAt(cfg, ss, steps, k) {
      assert MayAt(Stepping(cfg), ss, steps, k);
    }
  }

  // ----- Frames on their way -----

  /** The octets come from the link one by one, and the last of them is handled with `env`. What the
      environment would have contributed to a step that handles nothing does not matter. */
  predicate RequestSteps(steps: seq<Step>, inputs: seq<Input>, env: P.Surroundings) {
    && |steps| == |inputs| != 0
    && (forall k | 0 <= k < |steps| :: steps[k].ProverInput? && steps[k].input == inputs[k])
    && var n := |steps| - 1;
    && steps[n] == ProverInput(inputs[n], env, true)
  }

  /** The same for the verifier, which reads its clock as `now` and `later` when it judges. */
  predicate ReportSteps(steps: seq<Step>, inputs: seq<Input>, now: u32, later: u32) {
    && |steps| == |inputs| != 0
    && (forall k | 0 <= k < |steps| :: steps[k].VerifierInput? && steps[k].input == inputs[k])
    && var n := |steps| - 1;
    && steps[n] == VerifierInput(inputs[n], now, later, true)
  }

  lemma {:induction false} RequestSplit(steps: seq<Step>, front: seq<Input>, last: Input, env: P.Surroundings)
    requires RequestSteps(steps, front + [last], env)
    ensures steps == steps[..|front|] + [ProverInput(last, env, true)]
    ensures forall k | 0 <= k < |front| :: steps[..|front|][k].ProverInput? && steps[..|front|][k].input == front[k]
  {
    assert forall k | 0 <= k < |front| :: (front + [last])[k] == front[k];
  }

  lemma {:induction false} ReportSplit(steps: seq<Step>, front: seq<Input>, last: Input, now: u32, later: u32)
    requires ReportSteps(steps, front + [last], now, later)
    ensures steps == steps[..|front|] + [VerifierInput(last, now, later, true)]
    ensures forall k | 0 <= k < |front| :: steps[..|front|][k].VerifierInput? && steps[..|front|][k].input == front[k]
  {
    assert forall k | 0 <= k < |front| :: (front + [last])[k] == front[k];
  }

  lemma {:induction false} QuietProverStep(cfg: Config, s: System, step: Step)
    requires step.ProverInput? && !Reception.Handle(s.pLink, step.input, cfg.frameTimeout, REQUEST_LEN).1.Frame?
    ensures Surely(Stepping(cfg), s, step,
                   s.(pLink := Reception.Handle(s.pLink, step.input, cfg.frameTimeout, REQUEST_LEN).0))
  {
  }

  lemma {:induction false} QuietVerifierStep(cfg: Config, s: System, step: Step)
    requires step.VerifierInput? && !Reception.Handle(s.vLink, step.input, cfg.frameTimeout, REQUEST_LEN).1.Frame?
    ensures Surely(Stepping(cfg), s, step,
                   s.(vLink := Reception.Handle(s.vLink, step.input, cfg.frameTimeout, REQUEST_LEN).0))
  {
  }

  /** The receiver after the first `k` inputs. */
  function LinkAfter(cfg: Config, link: Receiver, inputs: seq<Input>, k: nat): Receiver
    requires k <= |inputs|
  {
    Receive(link, inputs[..k], cfg.frameTimeout, REQUEST_LEN).0
  }

  lemma {:induction false} LinkNext(cfg: Config, link: Receiver, inputs: seq<Input>, k: nat)
    requires k < |inputs|
    ensures Reception.Handle(LinkAfter(cfg, link, inputs, k), inputs[k], cfg.frameTimeout, REQUEST_LEN)
            == (LinkAfter(cfg, link, inputs, k + 1), Receive(link, inputs, cfg.frameTimeout, REQUEST_LEN).1[k])
  {
    var next := inputs[..k + 1];
    assert next[..k] == inputs[..k] && next[k] == inputs[k];
    ReceivePrefix(cfg, link, inputs, k + 1);
  }

  lemma {:induction false} ReceivePrefix(cfg: Config, link: Receiver, inputs: seq<Input>, k: nat)
    requires k <= |inputs|
    ensures Receive(link, inputs[..k], cfg.frameTimeout, REQUEST_LEN).1
            == Receive(link, inputs, cfg.frameTimeout, REQUEST_LEN).1[..k]
    decreases |inputs|
  {
    if k == |inputs| {
      assert inputs[..k] == inputs;
    } else {
      var front := inputs[..|inputs| - 1];
      assert front[..k] == inputs[..k];
      ReceivePrefix(cfg, link, front, k);
    }
  }

  /** These inputs complete no frame. */
  predicate Quiet(cfg: Config, link: Receiver, inputs: seq<Input>) {
    forall k | 0 <= k < |inputs| :: !Receive(link, inputs, cfg.frameTimeout, REQUEST_LEN).1[k].Frame?
  }

  /** Octets that complete no frame change nothing but the receiver. */
  lemma {:induction false} QuietProver(cfg: Config, s: System, steps: seq<Step>, inputs: seq<Input>)
    requires |steps| == |inputs| && forall k | 0 <= k < |steps| :: steps[k].ProverInput? && steps[k].input == inputs[k]
    requires Quiet(cfg, s.pLink, inputs)
    ensures Leads(Stepping(cfg), s, steps, s.(pLink := Receive(s.pLink, inputs, cfg.frameTimeout, REQUEST_LEN).0))
  {
    var n := |inputs|;
    var ss := seq(n + 1, k requires 0 <= k <= n => s.(pLink := LinkAfter(cfg, s.pLink, inputs, k)));
    forall k | 0 <= k < n ensures SurelyAt(Stepping(cfg), ss, steps, k) {
      LinkNext(cfg, s.pLink, inputs, k);
      QuietProverStep(cfg, ss[k], steps[k]);
    }
    LeadsAlong(Stepping(cfg), ss, steps);
    assert inputs[..0] == [] && inputs[..n] == inputs && ss[0] == s;
  }

  lemma {:induction false} QuietVerifier(cfg: Config, s: System, steps: seq<Step>, inputs: seq<Input>)
    requires |steps| == |inputs| && forall k | 0 <= k < |steps| :: steps[k].VerifierInput? && steps[k].input == inputs[k]
    requires Quiet(cfg, s.vLink, inputs)
    ensures Leads(Stepping(cfg), s, steps, s.(vLink := Receive(s.vLink, inputs, cfg.frameTimeout, REQUEST_LEN).0))
  {
    var n := |inputs|;
    var ss := seq(n + 1, k requires 0 <= k <= n => s.(vLink := LinkAfter(cfg, s.vLink, inputs, k)));
    forall k | 0 <= k < n ensures SurelyAt(Stepping(cfg), ss, steps, k) {
      LinkNext(cfg, s.vLink, inputs, k);
      QuietVerifierStep(cfg, ss[k], steps[k]);
    }
    LeadsAlong(Stepping(cfg), ss, steps);
    assert inputs[..0] == [] && inputs[..n] == inputs && ss[0] == s;
  }

  /** A delimiter that comes now completes no frame: there is nothing in the receiver that a sender
      has left behind. */
  predicate NothingPending(link: Receiver, now: u32, timeout: u32) {
    !Reception.Handle(link, Octet(0, now), timeout, REQUEST_LEN).1.Frame?
  }

  /** There is nothing in the receiver at all. */
  predicate AtRest(link: Receiver) {
    link.encoded == [] && !link.discard
  }

  /** A receiver that is at rest, or has just completed a frame, is in no one's way. */
  lemma {:induction false} RestIsQuiet(link: Receiver, input: Input, now: u32, timeout: u32)
    ensures AtRest(link) ==> NothingPending(link, now, timeout)
    ensures Reception.Handle(link, input, timeout, REQUEST_LEN).1.Frame? ==>
              AtRest(Reception.Handle(link, input, timeout, REQUEST_LEN).0)
  {
  }

  /** The octets of a frame, all but the last of which complete nothing. */
  lemma {:induction false} FrameArrives(cfg: Config, link: Receiver, kind: byte, payload: Bytes, times: seq<u32>)
    returns (front: seq<Input>, last: Input)
    requires 0 < cfg.frameTimeout && LegalFrame(kind, |payload|) && |payload| <= REQUEST_LEN
    requires |times| == |Sent(kind, payload)|
    requires forall k | 2 <= k < |times| :: !Expired(times[k], times[1], cfg.frameTimeout)
    requires NothingPending(link, times[0], cfg.frameTimeout)
    ensures Timed(Sent(kind, payload), times) == front + [last]
    ensures Quiet(cfg, link, front)
    ensures var before := Receive(link, front, cfg.frameTimeout, REQUEST_LEN).0;
            Reception.Handle(before, last, cfg.frameTimeout, REQUEST_LEN).1 == Frame(kind, payload)
  {
    var inputs := Timed(Sent(kind, payload), times);
    FrameOutcomes(cfg, link, kind, payload, times);
    front, last := LastCompletes(cfg, link, inputs, Frame(kind, payload));
  }

  /** Inputs of which only the last completes a frame. */
  lemma {:induction false} LastCompletes(cfg: Config, link: Receiver, inputs: seq<Input>, f: Outcome)
    returns (front: seq<Input>, last: Input)
    requires var outs := Receive(link, inputs, cfg.frameTimeout, REQUEST_LEN).1;
             |outs| != 0 && (forall k | 0 <= k < |outs| - 1 :: !outs[k].Frame?) && outs[|outs| - 1] == f
    ensures inputs == front + [last] && Quiet(cfg, link, front)
    ensures var before := Receive(link, front, cfg.frameTimeout, REQUEST_LEN).0;
            Reception.Handle(before, last, cfg.frameTimeout, REQUEST_LEN).1 == f
  {
    var n := |inputs| - 1;
    front, last := inputs[..n], inputs[n];
    FrontIsQuiet(cfg, link, inputs, n);
    LinkNext(cfg, link, inputs, n);
  }

  lemma {:induction false} FrontIsQuiet(cfg: Config, link: Receiver, inputs: seq<Input>, n: nat)
    requires n <= |inputs|
    requires forall k | 0 <= k < n :: !Receive(link, inputs, cfg.frameTimeout, REQUEST_LEN).1[k].Frame?
    ensures Quiet(cfg, link, inputs[..n])
  {
    ReceivePrefix(cfg, link, inputs, n);
  }

  lemma {:induction false} FrameOutcomes(cfg: Config, link: Receiver, kind: byte, payload: Bytes, times: seq<u32>)
    requires 0 < cfg.frameTimeout && LegalFrame(kind, |payload|) && |payload| <= REQUEST_LEN
    requires |times| == |Sent(kind, payload)|
    requires forall k | 2 <= k < |times| :: !Expired(times[k], times[1], cfg.frameTimeout)
    requires NothingPending(link, times[0], cfg.frameTimeout)
    ensures var outs := Receive(link, Timed(Sent(kind, payload), times), cfg.frameTimeout, REQUEST_LEN).1;
            && |outs| == |times| != 0
            && (forall k | 0 <= k < |outs| - 1 :: !outs[k].Frame?)
            && outs[|outs| - 1] == Frame(kind, payload)
  {
    var inputs := Timed(Sent(kind, payload), times);
    Resynchronises(link, kind, payload, times, cfg.frameTimeout, REQUEST_LEN);
    LinkNext(cfg, link, inputs, 0);
    assert inputs[..0] == [] && inputs[0] == Octet(0, times[0]);
  }

  /** The store after a save that succeeds. */
  ghost function SavedStore(cfg: Config, s: Store, c: u32): Store
    requires s.ram.Some? && s.ram.value.active < 2 && 0 < s.ram.value.next <= |s.img[0]|
  {
    Store(Written(s.img, s.ram.value, Rec(cfg)(c)), Some(Advance(s.ram.value, |s.img[0]|, c)))
  }

  lemma {:induction false} SavedStoreStep(cfg: Config, floor: u32, s: Store, c: u32)
    requires Coherent(Rec(cfg), floor, s) && s.ram.Some? && s.ram.value.counter < c
    ensures s.ram.value.active < 2 && 0 < s.ram.value.next <= |s.img[0]|
    ensures SaveStep(Rec(cfg), s, c, true, SavedStore(cfg, s, c))
  {
    RecoversBounds(Rec(cfg), s.img, floor, s.ram.value);
    forall i | 0 <= i < SLOT ensures Bits.Covers(Rec(cfg)(c)[i], Rec(cfg)(c)[i]) {
      Bits.CoversReflexive(Rec(cfg)(c)[i]);
    }
    assert CoversSlot(Rec(cfg)(c), Rec(cfg)(c));
  }

  /** The challenge is committed and released. */
  lemma {:induction false} ChallengeStage(cfg: Config, s: System, draw: V.Draw) returns (t: System)
    requires Invariant(cfg, s) && V.Commits(s.v, draw, REQUEST_LEN)
    ensures Next(cfg, s, VerifierChallenge(draw, true), t)
    ensures var m := V.NextChallenge(cfg.h, s.v, draw.nonce);
            && t.v == V.Challenged(cfg.h, s.v, draw, REQUEST_LEN, true).0
            && t == s.(v := t.v, vStore := t.vStore, trace := s.trace + [Released(m.counter, m.nonce, m.vs)])
  {
    var c := s.v.material.counter + 1;
    SavedStoreStep(cfg, cfg.verifier.counter, s.vStore, c);
    var (v, msg) := V.Challenged(cfg.h, s.v, draw, REQUEST_LEN, true);
    t := s.(v := v, vStore := SavedStore(cfg, s.vStore, c),
            trace := s.trace + [Released(msg.value.counter, msg.value.nonce, msg.value.vs)]);
  }

  /** The step in which the prover answers. */
  lemma {:induction false} AnswerStep(cfg: Config, s: System, last: Input, m: Msg, env: P.Surroundings) returns (t: System)
    requires Invariant(cfg, s) && s.p.ready && Working(env)
    requires Reception.Handle(s.pLink, last, cfg.frameTimeout, REQUEST_LEN).1 == Frame(REQUEST, RequestBytes(m))
    requires s.p.material.counter < m.counter
    requires m.hmac == cfg.h(cfg.prover.kAuth, RequestBody(m.counter, m.vs, m.nonce))
    requires Before(s.trace, |s.trace|, Released(m.counter, m.nonce, m.vs))
    ensures Next(cfg, s, ProverInput(last, env, true), t) && AtRest(t.pLink)
    ensures t == s.(p := s.p.(material := s.p.material.(counter := m.counter)), pStore := t.pStore, pLink := t.pLink,
                    trace := s.trace + AnswerEvents(cfg, s.p, m, env))
  {
    RequestRoundTrip(RequestBytes(m), m);
    SavedStoreStep(cfg, cfg.prover.counter, s.pStore, m.counter);
    KnownReleased(s.trace, m.counter, m.vs, m.nonce);
    t := s.(p := P.Handled(cfg.h, s.p, RequestBytes(m), env, REPORT_LEN, true).0,
            pStore := SavedStore(cfg, s.pStore, m.counter),
            pLink := Reception.Handle(s.pLink, last, cfg.frameTimeout, REQUEST_LEN).0,
            trace := s.trace + Handling(s.p, RequestBytes(m), env, true, cfg.h));
  }

  /** What an answered request leaves in the trace. */
  function AnswerEvents(cfg: Config, p: P.Agent, m: Msg, env: P.Surroundings): Trace
    requires env.memory.Some?
  {
    var result := P.Compared(cfg.h, p, env.memory.value, m);
    [Accepted(m.counter), Reported(m.counter, m.nonce, m.vs, env.memory.value, result)]
  }

  /** The prover receives a released request, octet by octet, and answers it. */
  lemma {:induction false} ProverStage(cfg: Config, s: System, m: Msg, times: seq<u32>, env: P.Surroundings,
                                       steps: seq<Step>)
    returns (t: System)
    requires Invariant(cfg, s) && s.p.ready && Working(env)
    requires s.p.material.counter < m.counter
    requires m.hmac == cfg.h(cfg.prover.kAuth, RequestBody(m.counter, m.vs, m.nonce))
    requires Before(s.trace, |s.trace|, Released(m.counter, m.nonce, m.vs))
    requires |times| == |Sent(REQUEST, RequestBytes(m))| && NothingPending(s.pLink, times[0], cfg.frameTimeout)
    requires forall k | 2 <= k < |times| :: !Expired(times[k], times[1], cfg.frameTimeout)
    requires RequestSteps(steps, Timed(Sent(REQUEST, RequestBytes(m)), times), env)
    ensures Leads(Stepping(cfg), s, steps, t) && AtRest(t.pLink)
    ensures t == s.(p := s.p.(material := s.p.material.(counter := m.counter)), pStore := t.pStore, pLink := t.pLink,
                    trace := s.trace + AnswerEvents(cfg, s.p, m, env))
  {
    var front, last := FrameArrives(cfg, s.pLink, REQUEST, RequestBytes(m), times);
    var n := |front|;
    RequestSplit(steps, front, last, env);
    QuietProver(cfg, s, steps[..n], front);
    var mid := s.(pLink := Receive(s.pLink, front, cfg.frameTimeout, REQUEST_LEN).0);
    LinksDoNotMatter(cfg, s, mid);
    t := AnswerStep(cfg, mid, last, m, env);
    SettledIsSure(cfg, mid, ProverInput(last, env, true), t);
    LeadsOne(Stepping(cfg), mid, ProverInput(last, env, true), t);
    LeadsConcat(Stepping(cfg), s, steps[..n], mid, [ProverInput(last, env, true)], t);
  }

  lemma {:induction false} KnownReleased(tr: Trace, c: u32, vs: Digest, nonce: Nonce)
    requires Before(tr, |tr|, Released(c, nonce, vs))
    ensures Known(tr, RequestBody(c, vs, nonce))
  {
    var i :| 0 <= i < |tr| && tr[i] == Released(c, nonce, vs);
    assert tr[i].Released? && RequestBody(c, vs, nonce) == RequestBody(tr[i].counter, tr[i].vs, tr[i].nonce);
  }

  /** Whether the verifier reads its clock before the deadline both times. */
  predicate InTime(started: u32, timeout: u32, now: u32, later: u32) {
    !Expired(now, started, timeout) && !Expired(later, started, timeout)
  }

  /** How a challenge ends that is answered authentically. */
  function Ending(c: u32, nonce: Nonce, pass: bool, inTime: bool): Event {
    if inTime then Decided(c, nonce, pass) else Abandoned(c)
  }

  /** The authentic report on the outstanding challenge ends the session, whenever it is judged. */
  lemma {:induction false} ReportVerified(cfg: Config, v: V.Session, r: Report, now: u32, later: u32)
    requires v.ready && v.outstanding
    requires r.result <= 1 && r.hmac == cfg.h(v.material.kAuth, ReportInput(r.result, v.material.counter, v.nonce))
    ensures V.Verified(cfg.h, v, ReportBytes(r), true, now, later)
            == (V.Cancelled(v), if !InTime(v.started, v.timeout, now, later) then V.Timeout
                                else if r.result == 1 then V.Pass else V.Mismatch)
  {
    ReportRoundTrip(ReportBytes(r), r);
  }

  /** The step in which the verifier decides, or finds that it is too late. */
  lemma {:induction false} DecisionStep(cfg: Config, s: System, last: Input, r: Report, now: u32, later: u32)
    returns (t: System)
    requires Invariant(cfg, s) && s.v.outstanding
    requires Reception.Handle(s.vLink, last, cfg.frameTimeout, REQUEST_LEN).1 == Frame(RESPONSE, ReportBytes(r))
    requires r.result <= 1 && r.hmac == cfg.h(cfg.verifier.kAuth, ReportInput(r.result, s.v.material.counter, s.v.nonce))
    requires ReportedBefore(s.trace, |s.trace|, s.v.material.counter, s.v.nonce, r.result)
    ensures Next(cfg, s, VerifierInput(last, now, later, true), t) && AtRest(t.vLink)
    ensures var inTime := InTime(s.v.started, cfg.timeout, now, later);
            t == s.(v := V.Cancelled(s.v), vLink := t.vLink,
                    trace := s.trace + [Ending(s.v.material.counter, s.v.nonce, r.result == 1, inTime)])
  {
    assert s.v.material.kAuth == cfg.verifier.kAuth;
    ReportVerified(cfg, s.v, r, now, later);
    ReportUnforged(cfg, s, r);
    var inTime := InTime(s.v.started, cfg.timeout, now, later);
    t := s.(v := V.Cancelled(s.v), vLink := Reception.Handle(s.vLink, last, cfg.frameTimeout, REQUEST_LEN).0,
            trace := s.trace + [Ending(s.v.material.counter, s.v.nonce, r.result == 1, inTime)]);
  }

  lemma {:induction false} ReportUnforged(cfg: Config, s: System, r: Report)
    requires r.result <= 1 && ReportedBefore(s.trace, |s.trace|, s.v.material.counter, s.v.nonce, r.result)
    ensures UnforgedResponse(cfg, s, ReportBytes(r))
  {
    ReportRoundTrip(ReportBytes(r), r);
    KnownReported(s.trace, r.result, s.v.material.counter, s.v.nonce);
  }

  /** The verifier receives the report on its outstanding challenge, and decides if it is in time. */
  lemma {:induction false} VerifierStage(cfg: Config, s: System, r: Report, times: seq<u32>, now: u32, later: u32,
                                         steps: seq<Step>)
    returns (t: System)
    requires Invariant(cfg, s) && s.v.outstanding
    requires r.result <= 1 && r.hmac == cfg.h(cfg.verifier.kAuth, ReportInput(r.result, s.v.material.counter, s.v.nonce))
    requires ReportedBefore(s.trace, |s.trace|, s.v.material.counter, s.v.nonce, r.result)
    requires |times| == |Sent(RESPONSE, ReportBytes(r))| && NothingPending(s.vLink, times[0], cfg.frameTimeout)
    requires forall k | 2 <= k < |times| :: !Expired(times[k], times[1], cfg.frameTimeout)
    requires ReportSteps(steps, Timed(Sent(RESPONSE, ReportBytes(r)), times), now, later)
    ensures Leads(Stepping(cfg), s, steps, t) && AtRest(t.vLink)
    ensures var inTime := InTime(s.v.started, cfg.timeout, now, later);
            t == s.(v := V.Cancelled(s.v), vLink := t.vLink,
                    trace := s.trace + [Ending(s.v.material.counter, s.v.nonce, r.result == 1, inTime)])
  {
    var front, last := FrameArrives(cfg, s.vLink, RESPONSE, ReportBytes(r), times);
    var n := |front|;
    ReportSplit(steps, front, last, now, later);
    QuietVerifier(cfg, s, steps[..n], front);
    var mid := s.(vLink := Receive(s.vLink, front, cfg.frameTimeout, REQUEST_LEN).0);
    LinksDoNotMatter(cfg, s, mid);
    t := DecisionStep(cfg, mid, last, r, now, later);
    SettledIsSure(cfg, mid, VerifierInput(last, now, later, true), t);
    LeadsOne(Stepping(cfg), mid, VerifierInput(last, now, later, true), t);
    LeadsConcat(Stepping(cfg), s, steps[..n], mid, [VerifierInput(last, now, later, true)], t);
  }

  lemma {:induction false} KnownReported(tr: Trace, result: byte, c: u32, nonce: Nonce)
    requires ReportedBefore(tr, |tr|, c, nonce, result)
    ensures Known(tr, ReportInput(result, c, nonce))
  {
    var i :| 0 <= i < |tr| && tr[i].Reported? && tr[i].counter == c && tr[i].nonce == nonce && tr[i].result == result;
    assert ReportInput(result, c, nonce) == ReportInput(tr[i].result, tr[i].counter, tr[i].nonce);
  }

  /** Frames whose octets all come before the frame timeout, counted from the first one. */
  predicate Prompt(times: seq<u32>, len: nat, timeout: u32) {
    |times| == len + 5 && forall k | 2 <= k < |times| :: !Expired(times[k], times[1], timeout)
  }

  /** The platform does its part and the measurement works. */
  predicate Working(env: P.Surroundings) {
    env.checkOk && env.memory.Some? && env.macOk
  }

  /** The request that opens the exchange, and the report that the prover then makes. */
  function Opening(cfg: Config, v: V.Session, draw: V.Draw): Msg
    requires v.material.counter < UINT32_MAX
  {
    V.NextChallenge(cfg.h, v, draw.nonce)
  }

  function Reply(cfg: Config, v: V.Session, p: P.Agent, draw: V.Draw, env: P.Surroundings): Report
    requires v.material.counter < UINT32_MAX && env.memory.Some?
  {
    P.Answer(cfg.h, p, env.memory.value, Opening(cfg, v, draw))
  }

  /** When the octets of the two frames arrive, and what the verifier's clock shows before and after
      it checks the report. */
  datatype Schedule = Schedule(request: seq<u32>, report: seq<u32>, now: u32, later: u32)

  /** Both frames come whole and before the frame timeout, with nothing before them in the receivers. */
  predicate Undisturbed(cfg: Config, s: System, at: Schedule) {
    && Prompt(at.request, REQUEST_LEN, cfg.frameTimeout) && NothingPending(s.pLink, at.request[0], cfg.frameTimeout)
    && Prompt(at.report, REPORT_LEN, cfg.frameTimeout) && NothingPending(s.vLink, at.report[0], cfg.frameTimeout)
  }

  /** The steps of an exchange that nothing disturbs: the challenge is committed and released, the
      octets of its request reach the prover, and those of the report on it reach the verifier. */
  predicate IsExchange(cfg: Config, v: V.Session, p: P.Agent, draw: V.Draw, env: P.Surroundings, at: Schedule,
                       steps: seq<Step>)
  {
    && v.material.counter < UINT32_MAX && env.memory.Some?
    && |at.request| == REQUEST_LEN + 5 && |at.report| == REPORT_LEN + 5
    && |steps| == 1 + |at.request| + |at.report|
    && steps[0] == VerifierChallenge(draw, true)
    && RequestArrives(Opening(cfg, v, draw), at.request, env, steps[1..1 + |at.request|])
    && ReportArrives(Reply(cfg, v, p, draw, env), at.report, at.now, at.later, steps[1 + |at.request|..])
  }

  predicate RequestArrives(m: Msg, times: seq<u32>, env: P.Surroundings, steps: seq<Step>) {
    WireShape(REQUEST, RequestBytes(m));
    |times| == |Sent(REQUEST, RequestBytes(m))| && RequestSteps(steps, Timed(Sent(REQUEST, RequestBytes(m)), times), env)
  }

  predicate ReportArrives(r: Report, times: seq<u32>, now: u32, later: u32, steps: seq<Step>) {
    WireShape(RESPONSE, ReportBytes(r));
    && |times| == |Sent(RESPONSE, ReportBytes(r))|
    && ReportSteps(steps, Timed(Sent(RESPONSE, ReportBytes(r)), times), now, later)
  }

  /** What an exchange that begins at counter `c` leaves in the trace: the verdict is PASS exactly when the
      HMAC of the measured memory is the reference, provided that it comes in time; otherwise the
      challenge is given up. */
  function ExchangeEvents(cfg: Config, c: u32, nonce: Nonce, env: P.Surroundings, inTime: bool): Trace
    requires c < UINT32_MAX && env.memory.Some?
  {
    var (vs, memory) := (cfg.verifier.reference, env.memory.value);
    var pass := cfg.h(cfg.prover.kAttest, memory) == vs;
    [Released(c + 1, nonce, vs), Accepted(c + 1), Reported(c + 1, nonce, vs, memory, if pass then 1 else 0),
     Ending(c + 1, nonce, pass, inTime)]
  }

  /** Both devices are ready, with their provisioned material and nothing under way. */
  predicate Resting(cfg: Config, s: System, v: u32, p: u32) {
    && s.v.ready && Closed(cfg, s) && s.v.material == cfg.verifier.(counter := v) && AtRest(s.vLink)
    && s.p == P.Agent(true, cfg.prover.(counter := p)) && AtRest(s.pLink)
  }

  /** The exchange that began at counter `c`, after the trace `before`, is over, and both devices are ready
      for the next one, with one counter. */
  predicate Concludes(cfg: Config, before: Trace, c: u32, nonce: Nonce, env: P.Surroundings, inTime: bool, t: System) {
    && env.memory.Some? && c < UINT32_MAX
    && t.trace == before + ExchangeEvents(cfg, c, nonce, env, inTime)
    && Resting(cfg, t, c + 1, c + 1)
  }

  /** What the release of a challenge makes of the system. */
  ghost predicate AfterRelease(cfg: Config, s: System, draw: V.Draw, t: System)
    requires s.v.material.counter < UINT32_MAX
  {
    var m := Opening(cfg, s.v, draw);
    && t.v == V.Challenged(cfg.h, s.v, draw, REQUEST_LEN, true).0
    && t == s.(v := t.v, vStore := t.vStore, trace := s.trace + [Released(m.counter, m.nonce, m.vs)])
  }

  /** And what the answer makes of it. */
  ghost predicate AfterAnswer(cfg: Config, s: System, draw: V.Draw, env: P.Surroundings, t: System)
    requires s.v.material.counter < UINT32_MAX && env.memory.Some?
  {
    var r := Reply(cfg, s.v, s.p, draw, env);
    && Invariant(cfg, t)
    && t.v == V.Challenged(cfg.h, s.v, draw, REQUEST_LEN, true).0 && t.vLink == s.vLink && AtRest(t.pLink)
    && t.p == s.p.(material := s.p.material.(counter := s.v.material.counter + 1))
    && t.trace == s.trace + [Released(t.v.material.counter, t.v.nonce, cfg.verifier.reference)]
                  + AnswerEvents(cfg, s.p, Opening(cfg, s.v, draw), env)
    && r.result == (if cfg.h(cfg.prover.kAttest, env.memory.value) == cfg.verifier.reference then 1 else 0)
    && r.hmac == cfg.h(cfg.verifier.kAuth, ReportInput(r.result, t.v.material.counter, t.v.nonce))
    && ReportedBefore(t.trace, |t.trace|, t.v.material.counter, t.v.nonce, r.result)
  }

  lemma {:induction false} ReleaseLeads(cfg: Config, s: System, draw: V.Draw) returns (t: System)
    requires Invariant(cfg, s) && V.Commits(s.v, draw, REQUEST_LEN)
    ensures Leads(Stepping(cfg), s, [VerifierChallenge(draw, true)], t)
    ensures Invariant(cfg, t) && AfterRelease(cfg, s, draw, t)
  {
    t := ChallengeStage(cfg, s, draw);
    StepKeepsInvariant(cfg, s, VerifierChallenge(draw, true), t);
    SettledIsSure(cfg, s, VerifierChallenge(draw, true), t);
    LeadsOne(Stepping(cfg), s, VerifierChallenge(draw, true), t);
  }

  /** The released challenge is delivered and answered. */
  lemma {:induction false} AnswerLeads(cfg: Config, s: System, s1: System, draw: V.Draw, env: P.Surroundings,
                                       times: seq<u32>, steps: seq<Step>)
    returns (t: System)
    requires Invariant(cfg, s) && V.Commits(s.v, draw, REQUEST_LEN) && s.p.ready && Working(env)
    requires s.p.material.counter <= s.v.material.counter
    requires Invariant(cfg, s1) && AfterRelease(cfg, s, draw, s1)
    requires Prompt(times, REQUEST_LEN, cfg.frameTimeout) && NothingPending(s.pLink, times[0], cfg.frameTimeout)
    requires RequestArrives(Opening(cfg, s.v, draw), times, env, steps)
    ensures Leads(Stepping(cfg), s1, steps, t) && AfterAnswer(cfg, s, draw, env, t)
  {
    var m := Opening(cfg, s.v, draw);
    assert s1.trace[|s.trace|] == Released(m.counter, m.nonce, m.vs);
    t := ProverStage(cfg, s1, m, times, env, steps);
    PathKeeps(cfg, s1, steps, t);
    AnswerReported(cfg, s1, m, env, t);
  }

  lemma {:induction false} AnswerReported(cfg: Config, s: System, m: Msg, env: P.Surroundings, t: System)
    requires env.memory.Some? && t.trace == s.trace + AnswerEvents(cfg, s.p, m, env)
    ensures ReportedBefore(t.trace, |t.trace|, m.counter, m.nonce, P.Compared(cfg.h, s.p, env.memory.value, m))
  {
    var k := |s.trace| + 1;
    assert t.trace[k] == AnswerEvents(cfg, s.p, m, env)[1];
    assert t.trace[k].Reported?;
  }

  /** These steps lead to the end of the exchange. */
  lemma {:induction false} ExchangeLeads(cfg: Config, s: System, draw: V.Draw, env: P.Surroundings, at: Schedule,
                                         steps: seq<Step>)
    returns (t: System)
    requires Invariant(cfg, s) && V.Commits(s.v, draw, REQUEST_LEN) && s.p.ready && Working(env)
    requires s.p.material.counter <= s.v.material.counter && Undisturbed(cfg, s, at)
    requires IsExchange(cfg, s.v, s.p, draw, env, at, steps)
    ensures Leads(Stepping(cfg), s, steps, t)
    ensures Concludes(cfg, s.trace, s.v.material.counter, draw.nonce, env,
                      InTime(draw.now, cfg.timeout, at.now, at.later), t)
  {
    var n := 1 + |at.request|;
    ThreeParts(steps, n);
    t := PartsLead(cfg, s, draw, env, at, steps[1..n], steps[n..]);
  }

  lemma {:induction false} ThreeParts(steps: seq<Step>, n: nat)
    requires 1 <= n <= |steps|
    ensures steps == [steps[0]] + steps[1..n] + steps[n..]
  {
  }

  lemma {:induction false} PartsLead(cfg: Config, s: System, draw: V.Draw, env: P.Surroundings, at: Schedule,
                                     request: seq<Step>, report: seq<Step>)
    returns (t: System)
    requires Invariant(cfg, s) && V.Commits(s.v, draw, REQUEST_LEN) && s.p.ready && Working(env)
    requires s.p.material.counter <= s.v.material.counter && Undisturbed(cfg, s, at)
    requires RequestArrives(Opening(cfg, s.v, draw), at.request, env, request)
    requires ReportArrives(Reply(cfg, s.v, s.p, draw, env), at.report, at.now, at.later, report)
    ensures Leads(Stepping(cfg), s, [VerifierChallenge(draw, true)] + request + report, t)
    ensures Concludes(cfg, s.trace, s.v.material.counter, draw.nonce, env,
                      InTime(draw.now, cfg.timeout, at.now, at.later), t)
  {
    var s1 := ReleaseLeads(cfg, s, draw);
    var s2 := AnswerLeads(cfg, s, s1, draw, env, at.request, request);
    t := ReportLeads(cfg, s, s2, draw, env, at, report);
    LeadsThrice(Stepping(cfg), s, [VerifierChallenge(draw, true)], s1, request, s2, report, t);
  }

  /** The report is delivered and judged. */
  lemma {:induction false} ReportLeads(cfg: Config, s: System, s2: System, draw: V.Draw, env: P.Surroundings, at: Schedule,
                                       steps: seq<Step>)
    returns (t: System)
    requires V.Commits(s.v, draw, REQUEST_LEN) && s.p.ready && env.memory.Some? && AfterAnswer(cfg, s, draw, env, s2)
    requires Prompt(at.report, REPORT_LEN, cfg.frameTimeout) && NothingPending(s2.vLink, at.report[0], cfg.frameTimeout)
    requires ReportArrives(Reply(cfg, s.v, s.p, draw, env), at.report, at.now, at.later, steps)
    ensures Leads(Stepping(cfg), s2, steps, t)
    ensures Concludes(cfg, s.trace, s.v.material.counter, draw.nonce, env,
                      InTime(draw.now, cfg.timeout, at.now, at.later), t)
  {
    t := VerifierStage(cfg, s2, Reply(cfg, s.v, s.p, draw, env), at.report, at.now, at.later, steps);
  }

  // ----- Steps that can come out in one way only -----

  lemma {:induction false} SavesAgree(cfg: Config, s: Store, c: u32, t: Store, u: Store)
    requires SaveStep(Rec(cfg), s, c, true, t) && SaveStep(Rec(cfg), s, c, true, u)
    ensures t == u
  {
  }

  lemma {:induction false} LoadsAgree(cfg: Config, floor: u32, s: Store, ok: bool, t: Store, u: Store)
    requires LoadStep(Rec(cfg), floor, s, ok, t) && LoadStep(Rec(cfg), floor, s, ok, u)
    ensures t == u
  {
    RecordsAreTornProof(cfg.h, cfg.verifier.kAuth);
    if ok {
      RecoversUnique(Rec(cfg), s.img, floor, t.ram.value, u.ram.value);
    }
  }

  /** The environment has said how the step comes out: every save in it succeeds. */
  predicate Settled(step: Step) {
    (step.VerifierChallenge? ==> step.saved) && (step.ProverInput? ==> step.saved)
  }

  /** With its saves known to succeed, a step leads to one state only. */
  lemma {:induction false} NextIsSettled(cfg: Config, s: System, step: Step, t: System, u: System)
    requires Settled(step) && Next(cfg, s, step, t) && Next(cfg, s, step, u)
    ensures t == u
  {
    match step
    case VerifierBoot(ok) => LoadsAgree(cfg, cfg.verifier.counter, s.vStore, ok, t.vStore, u.vStore);
    case ProverBoot(ok) => LoadsAgree(cfg, cfg.prover.counter, s.pStore, ok, t.pStore, u.pStore);
    case VerifierChallenge(draw, saved) =>
      SavesAgree(cfg, s.vStore, s.v.material.counter + 1, t.vStore, u.vStore);
    case ProverInput(input, env, saved) =>
      var out := Reception.Handle(s.pLink, input, cfg.frameTimeout, REQUEST_LEN).1;
      if out.Frame? && out.kind == REQUEST {
        var m := P.Acceptable(cfg.h, s.p, out.payload, env, REPORT_LEN).value;
        SavesAgree(cfg, s.pStore, m.counter, t.pStore, u.pStore);
      }
    case _ =>
  }

  lemma {:induction false} SettledIsSure(cfg: Config, s: System, step: Step, t: System)
    requires Settled(step) && Next(cfg, s, step, t)
    ensures Surely(Stepping(cfg), s, step, t)
  {
    forall u | Stepping(cfg)(s, step, u) ensures u == t {
      NextIsSettled(cfg, s, step, t, u);
    }
  }

  // ----- Polls in between -----

  /** The steps that are no polls. */
  function WithoutPolls(steps: seq<Step>): seq<Step> {
    if steps == [] then []
    else
      var n := |steps| - 1;
      WithoutPolls(steps[..n]) + if steps[n].VerifierPoll? then [] else [steps[n]]
  }

  /** Challenges are released at `started`, and every poll between such a release and a later step that
      is no poll comes before the deadline. What the clock shows at other polls does not matter. */
  predicate PollsInTime(steps: seq<Step>, started: u32, timeout: u32) {
    && ReleasesAt(steps, started)
    && (forall j, k, l | 0 <= j < k < l < |steps| && steps[j].VerifierChallenge? && steps[k].VerifierPoll?
                         && !steps[l].VerifierPoll? :: !Expired(steps[k].now, started, timeout))
  }

  /** A session that was released at `started`, if there is one. */
  predicate StartedAt(cfg: Config, s: System, started: u32) {
    s.v.timeout == cfg.timeout && (s.v.outstanding ==> s.v.started == started)
  }

  predicate Closed(cfg: Config, s: System) {
    s.v.timeout == cfg.timeout && !s.v.outstanding
  }

  lemma {:induction false} StartedKept(cfg: Config, s: System, step: Step, t: System, started: u32)
    requires Next(cfg, s, step, t) && StartedAt(cfg, s, started)
    requires step.VerifierChallenge? ==> step.draw.now == started
    ensures StartedAt(cfg, t, started)
    ensures Closed(cfg, s) && !step.VerifierChallenge? ==> Closed(cfg, t)
  {
  }

  /** Every challenge among these steps is released at `started`. */
  predicate ReleasesAt(steps: seq<Step>, started: u32) {
    forall k | 0 <= k < |steps| && steps[k].VerifierChallenge? :: steps[k].draw.now == started
  }

  predicate ReleasesNone(steps: seq<Step>) {
    forall k | 0 <= k < |steps| :: !steps[k].VerifierChallenge?
  }

  lemma {:induction false} EarlierReleases(steps: seq<Step>, started: u32)
    requires steps != []
    ensures ReleasesAt(steps, started) ==> ReleasesAt(steps[..|steps| - 1], started)
    ensures ReleasesNone(steps) ==> ReleasesNone(steps[..|steps| - 1])
  {
  }

  /** After these steps the session, if any, is the one released at `started`; and there is none without
      a challenge among them. */
  lemma {:induction false} PathStarted(cfg: Config, s: System, steps: seq<Step>, t: System, started: u32)
    requires Path(Stepping(cfg), s, steps, t) && Closed(cfg, s) && ReleasesAt(steps, started)
    ensures StartedAt(cfg, t, started)
    ensures ReleasesNone(steps) ==> Closed(cfg, t)
    decreases |steps|
  {
    if steps != [] {
      var n := |steps| - 1;
      var m := PathLast(Stepping(cfg), s, steps, t);
      EarlierReleases(steps, started);
      PathStarted(cfg, s, steps[..n], m, started);
      StartedKept(cfg, m, steps[n], t, started);
    }
  }

  lemma {:induction false} IdlePoll(cfg: Config, s: System, now: u32, t: System, started: u32)
    requires StartedAt(cfg, s, started) && (s.v.outstanding ==> !Expired(now, started, cfg.timeout))
    ensures Next(cfg, s, VerifierPoll(now), t) <==> t == s
  {
    assert s.trace + [] == s.trace;
  }

  lemma {:induction false} ClosedPoll(cfg: Config, s: System, step: Step, started: u32)
    requires Closed(cfg, s) && step.VerifierPoll?
    ensures Surely(Stepping(cfg), s, step, s)
  {
    forall u ensures Stepping(cfg)(s, step, u) <==> u == s {
      IdlePoll(cfg, s, step.now, u, started);
    }
  }

  /** Polls that come before everything else may show any time. */
  lemma {:induction false} EarlyPollsAreFree(polls: seq<Step>, steps: seq<Step>, started: u32, timeout: u32)
    requires (forall k | 0 <= k < |polls| :: polls[k].VerifierPoll?) && PollsInTime(steps, started, timeout)
    ensures PollsInTime(polls + steps, started, timeout)
  {
    var (all, n) := (polls + steps, |polls|);
    forall k | 0 <= k < |all| && !all[k].VerifierPoll? ensures n <= k && all[k] == steps[k - n] {
    }
    forall j, k, l | 0 <= j < k < l < |all| && all[j].VerifierChallenge? && all[k].VerifierPoll? && !all[l].VerifierPoll?
      ensures !Expired(all[k].now, started, timeout)
    {
      assert steps[j - n].VerifierChallenge? && steps[k - n].VerifierPoll? && !steps[l - n].VerifierPoll?;
    }
  }

  /** No poll after a release comes late. */
  predicate NoLatePoll(steps: seq<Step>, started: u32, timeout: u32) {
    && ReleasesAt(steps, started)
    && (forall j, k | 0 <= j < k < |steps| && steps[j].VerifierChallenge? && steps[k].VerifierPoll? ::
          !Expired(steps[k].now, started, timeout))
  }

  lemma {:induction false} NoPollAtEnd(steps: seq<Step>, started: u32, timeout: u32)
    requires PollsInTime(steps, started, timeout) && (steps != [] ==> !steps[|steps| - 1].VerifierPoll?)
    ensures NoLatePoll(steps, started, timeout)
  {
    var l := |steps| - 1;
    forall j, k | 0 <= j < k < |steps| && steps[j].VerifierChallenge? && steps[k].VerifierPoll?
      ensures !Expired(steps[k].now, started, timeout)
    {
      assert k < l && !steps[l].VerifierPoll?;
    }
  }

  /** The last of these steps is a poll. It changes nothing, because it comes before the release or
      before the deadline. */
  lemma {:induction false} LastPollIsIdle(cfg: Config, s: System, steps: seq<Step>, started: u32, m: System, t: System)
    requires Closed(cfg, s) && NoLatePoll(steps, started, cfg.timeout)
    requires steps != [] && steps[|steps| - 1].VerifierPoll? && Path(Stepping(cfg), s, steps[..|steps| - 1], m)
    ensures Next(cfg, m, steps[|steps| - 1], t) <==> t == m
  {
    var n := |steps| - 1;
    PathStarted(cfg, s, steps[..n], m, started);
    if j :| 0 <= j < n && steps[j].VerifierChallenge? {
      assert steps[n].VerifierPoll?;
    } else {
      assert ReleasesNone(steps[..n]);
    }
    IdlePoll(cfg, m, steps[n].now, t, started);
  }

  lemma {:induction false} EarlierPolls(steps: seq<Step>, started: u32, timeout: u32)
    requires NoLatePoll(steps, started, timeout) && steps != []
    ensures NoLatePoll(steps[..|steps| - 1], started, timeout)
  {
  }

  lemma {:induction false} LastDropped(steps: seq<Step>)
    requires steps != [] && steps[|steps| - 1].VerifierPoll?
    ensures WithoutPolls(steps) == WithoutPolls(steps[..|steps| - 1])
  {
  }

  lemma {:induction false} PollsDropped(cfg: Config, s: System, steps: seq<Step>, t: System, started: u32)
    requires Closed(cfg, s) && NoLatePoll(steps, started, cfg.timeout)
    requires Path(Stepping(cfg), s, steps, t)
    ensures Path(Stepping(cfg), s, WithoutPolls(steps), t)
    decreases |steps|
  {
    if steps != [] {
      var n := |steps| - 1;
      var m := PathLast(Stepping(cfg), s, steps, t);
      EarlierPolls(steps, started, cfg.timeout);
      PollsDropped(cfg, s, steps[..n], m, started);
      if steps[n].VerifierPoll? {
        LastPollIsIdle(cfg, s, steps, started, m, t);
        LastDropped(steps);
      } else {
        PathSnoc(Stepping(cfg), s, WithoutPolls(steps[..n]), m, steps[n], t);
      }
    }
  }

  lemma {:induction false} LastNotDropped(cfg: Config, s: System, steps: seq<Step>, t: System) returns (m: System)
    requires steps != [] && !steps[|steps| - 1].VerifierPoll? && Path(Stepping(cfg), s, WithoutPolls(steps), t)
    ensures Path(Stepping(cfg), s, WithoutPolls(steps[..|steps| - 1]), m) && Stepping(cfg)(m, steps[|steps| - 1], t)
  {
    var core := WithoutPolls(steps);
    assert core[..|core| - 1] == WithoutPolls(steps[..|steps| - 1]);
    m := PathLast(Stepping(cfg), s, core, t);
  }

  lemma {:induction false} PollsAdded(cfg: Config, s: System, steps: seq<Step>, t: System, started: u32)
    requires Closed(cfg, s) && NoLatePoll(steps, started, cfg.timeout)
    requires Path(Stepping(cfg), s, WithoutPolls(steps), t)
    ensures Path(Stepping(cfg), s, steps, t)
    decreases |steps|
  {
    if steps != [] {
      var n := |steps| - 1;
      var m := t;
      EarlierPolls(steps, started, cfg.timeout);
      if steps[n].VerifierPoll? {
        LastDropped(steps);
        PollsAdded(cfg, s, steps[..n], t, started);
        LastPollIsIdle(cfg, s, steps, started, t, t);
      } else {
        m := LastNotDropped(cfg, s, steps, t);
        PollsAdded(cfg, s, steps[..n], m, started);
      }
      PathEnds(Stepping(cfg), s, steps, m, t);
    }
  }

  /** Polls do not matter: where steps surely lead to the end of a session, they still do with any polls
      before it, between them and after it, as long as none between the release and the end is late. */
  lemma {:induction false} PollsDoNotMatter(cfg: Config, s: System, core: seq<Step>, steps: seq<Step>, t: System,
                                            started: u32)
    requires Closed(cfg, s) && Closed(cfg, t) && PollsInTime(steps, started, cfg.timeout)
    requires WithoutPolls(steps) == core && Leads(Stepping(cfg), s, core, t)
    ensures Leads(Stepping(cfg), s, steps, t)
    decreases |steps|
  {
    if steps != [] && steps[|steps| - 1].VerifierPoll? {
      var n := |steps| - 1;
      LastDropped(steps);
      PollsDoNotMatter(cfg, s, core, steps[..n], t, started);
      ClosedPoll(cfg, t, steps[n], started);
      LeadsEnds(Stepping(cfg), s, steps, t, t);
    } else {
      NoPollAtEnd(steps, started, cfg.timeout);
      PollsAdded(cfg, s, steps, t, started);
      forall u | Path(Stepping(cfg), s, steps, u) ensures u == t {
        PollsDropped(cfg, s, steps, u, started);
      }
    }
  }

  // ----- The theorems -----

  /** Two ready devices run an exchange that nothing disturbs. Its steps, with whatever polls the main
      loop makes before the release, after the end, and before the deadline in between, are possible,
      and they lead to one state only, in which the exchange has concluded: with PASS when the HMAC of the
      measured memory is the reference and MISMATCH when it is not, if the report is judged in time, and
      without a verdict otherwise. In each case both devices are ready for the next one. */
  lemma {:induction false} HonestExchange(cfg: Config, s: System, draw: V.Draw, env: P.Surroundings, at: Schedule,
                                          steps: seq<Step>)
    returns (t: System)
    requires Invariant(cfg, s) && s.v.ready && !s.v.outstanding && s.p.ready
    requires s.p.material.counter <= s.v.material.counter < UINT32_MAX
    requires draw.randomOk && draw.macOk && Working(env) && Undisturbed(cfg, s, at)
    requires IsExchange(cfg, s.v, s.p, draw, env, at, WithoutPolls(steps))
    requires PollsInTime(steps, draw.now, cfg.timeout)
    ensures Leads(Stepping(cfg), s, steps, t)
    ensures Concludes(cfg, s.trace, s.v.material.counter, draw.nonce, env,
                      InTime(draw.now, cfg.timeout, at.now, at.later), t)
  {
    var core := WithoutPolls(steps);
    t := ExchangeLeads(cfg, s, draw, env, at, core);
    PathKeeps(cfg, s, core, t);
    PollsDoNotMatter(cfg, s, core, steps, t, draw.now);
  }

  /** The steps from power-up to the end of the first exchange; either device may come up first. */
  predicate IsFirstExchange(cfg: Config, draw: V.Draw, env: P.Surroundings, at: Schedule, steps: seq<Step>) {
    && |steps| >= 2
    && (steps[..2] == [VerifierBoot(true), ProverBoot(true)] || steps[..2] == [ProverBoot(true), VerifierBoot(true)])
    && IsExchange(cfg, Started(cfg), P.Agent(true, cfg.prover), draw, env, at, steps[2..])
  }

  /** The verifier's session after it has come up for the first time. */
  function Started(cfg: Config): V.Session {
    V.Session(true, false, cfg.verifier, V.NoNonce(), 0, cfg.timeout)
  }

  /** From paired provisioning with an unexhausted counter, both devices start, and their first
      exchange, when nothing disturbs it, is possible and concludes in the same way. */
  lemma {:induction false} FromPairedProvisioning(cfg: Config, s: System, draw: V.Draw, env: P.Surroundings, at: Schedule,
                                                  steps: seq<Step>)
    returns (t: System)
    requires Initial(cfg, s) && cfg.verifier.counter < UINT32_MAX && draw.randomOk && draw.macOk && Working(env)
    requires Prompt(at.request, REQUEST_LEN, cfg.frameTimeout) && Prompt(at.report, REPORT_LEN, cfg.frameTimeout)
    requires IsFirstExchange(cfg, draw, env, at, WithoutPolls(steps))
    requires PollsInTime(steps, draw.now, cfg.timeout)
    ensures Leads(Stepping(cfg), s, steps, t)
    ensures Concludes(cfg, [], cfg.verifier.counter, draw.nonce, env, InTime(draw.now, cfg.timeout, at.now, at.later), t)
  {
    var core := WithoutPolls(steps);
    InitialHolds(cfg, s);
    t := FirstExchangeLeads(cfg, s, draw, env, at, core);
    PathKeeps(cfg, s, core, t);
    PollsDoNotMatter(cfg, s, core, steps, t, draw.now);
  }

  lemma {:induction false} FirstExchangeLeads(cfg: Config, s: System, draw: V.Draw, env: P.Surroundings, at: Schedule,
                                              core: seq<Step>)
    returns (t: System)
    requires Initial(cfg, s) && cfg.verifier.counter < UINT32_MAX && draw.randomOk && draw.macOk && Working(env)
    requires Prompt(at.request, REQUEST_LEN, cfg.frameTimeout) && Prompt(at.report, REPORT_LEN, cfg.frameTimeout)
    requires IsFirstExchange(cfg, draw, env, at, core)
    ensures Leads(Stepping(cfg), s, core, t)
    ensures Concludes(cfg, [], cfg.verifier.counter, draw.nonce, env, InTime(draw.now, cfg.timeout, at.now, at.later), t)
  {
    var s2 := BootStage(cfg, s, core[..2]);
    assert cfg.verifier.(counter := cfg.verifier.counter) == cfg.verifier;
    t := ExchangeLeads(cfg, s2, draw, env, at, core[2..]);
    LeadsConcat(Stepping(cfg), s, core[..2], s2, core[2..], t);
    assert core == core[..2] + core[2..];
  }

  lemma {:induction false} BootStage(cfg: Config, s: System, boots: seq<Step>) returns (s2: System)
    requires Initial(cfg, s)
    requires boots == [VerifierBoot(true), ProverBoot(true)] || boots == [ProverBoot(true), VerifierBoot(true)]
    ensures Leads(Stepping(cfg), s, boots, s2) && Invariant(cfg, s2)
    ensures s2.v == Started(cfg) && s2.p == P.Agent(true, cfg.prover)
    ensures s2.pLink == s2.vLink == Fresh() && s2.trace == []
  {
    InitialHolds(cfg, s);
    var s1;
    if boots[0].VerifierBoot? {
      s1 := VerifierComesUp(cfg, s);
      s2 := ProverComesUp(cfg, s1);
    } else {
      s1 := ProverComesUp(cfg, s);
      s2 := VerifierComesUp(cfg, s1);
    }
    LeadsConcat(Stepping(cfg), s, [boots[0]], s1, [boots[1]], s2);
    assert boots == [boots[0]] + [boots[1]];
  }

  lemma {:induction false} VerifierComesUp(cfg: Config, s: System) returns (t: System)
    requires Invariant(cfg, s) && Worth(Rec(cfg), cfg.verifier.counter, s.vStore.img, Alive(cfg.verifier.counter))
    ensures Leads(Stepping(cfg), s, [VerifierBoot(true)], t) && Invariant(cfg, t)
    ensures t == s.(vStore := t.vStore, v := Started(cfg), vLink := Fresh()) && t.vStore.img == s.vStore.img
  {
    var p :| Recovers(Rec(cfg), s.vStore.img, cfg.verifier.counter, p) && p.counter == cfg.verifier.counter;
    var store := Store(s.vStore.img, Some(p));
    t := s.(vStore := store, v := Booted(cfg, store), vLink := Fresh());
    StepKeepsInvariant(cfg, s, VerifierBoot(true), t);
    SettledIsSure(cfg, s, VerifierBoot(true), t);
    LeadsOne(Stepping(cfg), s, VerifierBoot(true), t);
  }

  lemma {:induction false} ProverComesUp(cfg: Config, s: System) returns (t: System)
    requires Invariant(cfg, s) && Worth(Rec(cfg), cfg.prover.counter, s.pStore.img, Alive(cfg.prover.counter))
    ensures Leads(Stepping(cfg), s, [ProverBoot(true)], t) && Invariant(cfg, t)
    ensures t == s.(pStore := t.pStore, p := P.Agent(true, cfg.prover), pLink := Fresh()) && t.pStore.img == s.pStore.img
  {
    var p :| Recovers(Rec(cfg), s.pStore.img, cfg.prover.counter, p) && p.counter == cfg.prover.counter;
    var store := Store(s.pStore.img, Some(p));
    t := s.(pStore := store, p := P.Agent(true, LoadedMaterial(cfg.prover, store)), pLink := Fresh());
    StepKeepsInvariant(cfg, s, ProverBoot(true), t);
    SettledIsSure(cfg, s, ProverBoot(true), t);
    LeadsOne(Stepping(cfg), s, ProverBoot(true), t);
  }
}
