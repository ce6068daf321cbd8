/** One exchange after the other: what the two devices do for as long as nothing disturbs them. */
module Rounds {
  import opened Bytes
  import opened Clock
  import opened Cobs
  import opened Exchange
  import opened Paths
  import opened Reception
  import opened Simple
  import opened System
  import opened Trace
  import opened Wrappers
  import P = Prover
  import V = Verifier

  /** One exchange: what it takes from the platforms, when its octets arrive, and its steps. */
  datatype Round = Round(draw: V.Draw, env: P.Surroundings, at: Schedule, steps: seq<Step>)

  /** The session of a verifier that rests at this counter; of a prover, likewise. */
  function SessionAt(cfg: Config, c: u32): V.Session {
    V.Session(true, false, cfg.verifier.(counter := c), V.NoNonce(), 0, cfg.timeout)
  }

  function AgentAt(cfg: Config, c: u32): P.Agent {
    P.Agent(true, cfg.prover.(counter := c))
  }

  /** The steps of this round are those of an exchange that begins at counter `c` and that nothing
      disturbs, with polls of the main loop wherever it makes them. */
  predicate Smooth(cfg: Config, c: nat, r: Round) {
    && c < UINT32_MAX && r.draw.randomOk && r.draw.macOk && Working(r.env)
    && Prompt(r.at.request, REQUEST_LEN, cfg.frameTimeout) && Prompt(r.at.report, REPORT_LEN, cfg.frameTimeout)
    && IsExchange(cfg, SessionAt(cfg, c), AgentAt(cfg, c), r.draw, r.env, r.at, WithoutPolls(r.steps))
    && PollsInTime(r.steps, r.draw.now, cfg.timeout)
  }

  type Test = (nat, Round) -> bool

  /** Rounds that begin at counter `c`, each at the counter at which the one before it ended. */
  predicate AllPass(good: Test, c: nat, rounds: seq<Round>) {
    forall k | 0 <= k < |rounds| :: good(c + k, rounds[k])
  }

  lemma {:induction false} Shorter(good: Test, c: nat, rounds: seq<Round>)
    requires AllPass(good, c, rounds) && rounds != []
    ensures AllPass(good, c, rounds[..|rounds| - 1]) && good(c + |rounds| - 1, rounds[|rounds| - 1])
  {
    var n := |rounds| - 1;
    assert good(c + n, rounds[n]);
  }

  function Smoothness(cfg: Config): Test {
    (c: nat, r: Round) => Smooth(cfg, c, r)
  }

  predicate AllSmooth(cfg: Config, c: nat, rounds: seq<Round>) {
    AllPass(Smoothness(cfg), c, rounds)
  }

  function AllSteps(rounds: seq<Round>): seq<Step> {
    if rounds == [] then [] else AllSteps(rounds[..|rounds| - 1]) + rounds[|rounds| - 1].steps
  }

  function RoundEvents(cfg: Config, c: u32, r: Round): Trace
    requires c < UINT32_MAX && r.env.memory.Some?
  {
    ExchangeEvents(cfg, c, r.draw.nonce, r.env, InTime(r.draw.now, cfg.timeout, r.at.now, r.at.later))
  }

  function AllEvents(cfg: Config, c: nat, rounds: seq<Round>): Trace
    requires AllSmooth(cfg, c, rounds)
  {
    if rounds == [] then []
    else
      var n := |rounds| - 1;
      Shorter(Smoothness(cfg), c, rounds);
      AllEvents(cfg, c, rounds[..n]) + RoundEvents(cfg, c + n, rounds[n])
  }

  /** Where a prover rests that was last at counter `p`, after this many rounds from counter `c`. */
  function ProverAt(c: u32, p: u32, rounds: nat): nat {
    if rounds == 0 then p else c + rounds
  }

  /** An exchange depends on the counter that the prover was last at only in that it must be lower. */
  lemma {:induction false} ExchangeFits(cfg: Config, s: System, c: u32, p: u32, r: Round)
    requires Resting(cfg, s, c, p) && Smooth(cfg, c, r)
    ensures IsExchange(cfg, s.v, s.p, r.draw, r.env, r.at, WithoutPolls(r.steps)) && Undisturbed(cfg, s, r.at)
  {
    RestIsQuiet(s.pLink, LineError, r.at.request[0], cfg.frameTimeout);
    RestIsQuiet(s.vLink, LineError, r.at.report[0], cfg.frameTimeout);
  }

  /** What one more round must bring about. */
  ghost predicate AfterRound(cfg: Config, s: System, c: u32, r: Round, t: System) {
    && c < UINT32_MAX && r.env.memory.Some? && Leads(Stepping(cfg), s, r.steps, t)
    && Resting(cfg, t, c + 1, c + 1) && t.trace == s.trace + RoundEvents(cfg, c, r)
  }

  lemma {:induction false} OneMoreRound(cfg: Config, s: System, c: u32, p: u32, r: Round) returns (t: System)
    requires Invariant(cfg, s) && Resting(cfg, s, c, p) && p <= c && Smooth(cfg, c, r)
    ensures AfterRound(cfg, s, c, r, t) && Invariant(cfg, t)
  {
    ExchangeFits(cfg, s, c, p, r);
    t := HonestExchange(cfg, s, r.draw, r.env, r.at, r.steps);
    PathKeeps(cfg, s, r.steps, t);
  }

  /** These rounds lead from `s`, at counter `c`, to `t` and to no other state. Every round has left its own
      events in the trace, and the counters have advanced by one a round. */
  ghost predicate AfterRounds(cfg: Config, s: System, c: u32, p: u32, rounds: seq<Round>, t: System)
    requires AllSmooth(cfg, c, rounds)
  {
    && c + |rounds| <= UINT32_MAX
    && Leads(Stepping(cfg), s, AllSteps(rounds), t)
    && Resting(cfg, t, c + |rounds|, ProverAt(c, p, |rounds|))
    && t.trace == s.trace + AllEvents(cfg, c, rounds)
  }

  lemma {:induction false} NextCounters(cfg: Config, s: System, c: u32, p: u32, rounds: seq<Round>, m: System)
    returns (c': u32, p': u32)
    requires rounds != [] && AllSmooth(cfg, c, rounds) && AllSmooth(cfg, c, rounds[..|rounds| - 1]) && p <= c
    requires AfterRounds(cfg, s, c, p, rounds[..|rounds| - 1], m)
    ensures c' == c + |rounds| - 1 && p' <= c' && Resting(cfg, m, c', p') && Smooth(cfg, c', rounds[|rounds| - 1])
  {
    Shorter(Smoothness(cfg), c, rounds);
    c', p' := c + |rounds| - 1, ProverAt(c, p, |rounds| - 1);
  }

  lemma {:induction false} NoRound(cfg: Config, s: System, c: u32, p: u32)
    requires Resting(cfg, s, c, p)
    ensures AfterRounds(cfg, s, c, p, [], s)
  {
    assert s.trace + [] == s.trace;
  }

  lemma {:induction false} LastRound(cfg: Config, s: System, c: u32, p: u32, rounds: seq<Round>, c': u32, m: System,
                                     t: System)
    requires rounds != [] && AllSmooth(cfg, c, rounds) && AllSmooth(cfg, c, rounds[..|rounds| - 1])
    requires AfterRounds(cfg, s, c, p, rounds[..|rounds| - 1], m)
    requires c' == c + |rounds| - 1 && AfterRound(cfg, m, c', rounds[|rounds| - 1], t)
    ensures AfterRounds(cfg, s, c, p, rounds, t)
  {
    var n := |rounds| - 1;
    LeadsConcat(Stepping(cfg), s, AllSteps(rounds[..n]), m, rounds[n].steps, t);
    TracesJoin(s.trace, AllEvents(cfg, c, rounds[..n]), RoundEvents(cfg, c', rounds[n]));
  }

  lemma {:induction false} TracesJoin(a: Trace, b: Trace, c: Trace)
    ensures a + b + c == a + (b + c)
  {
  }

  /** Any number of undisturbed exchanges, from any state in which both devices rest: all of them are
      possible, and there is one outcome only. */
  lemma {:induction false} EveryRound(cfg: Config, s: System, c: u32, p: u32, rounds: seq<Round>) returns (t: System)
    requires Invariant(cfg, s) && Resting(cfg, s, c, p) && p <= c && AllSmooth(cfg, c, rounds)
    ensures AfterRounds(cfg, s, c, p, rounds, t) && Invariant(cfg, t)
    decreases |rounds|
  {
    if rounds == [] {
      t := s;
      NoRound(cfg, s, c, p);
    } else {
      var n := |rounds| - 1;
      Shorter(Smoothness(cfg), c, rounds);
      var m := EveryRound(cfg, s, c, p, rounds[..n]);
      var c', p' := NextCounters(cfg, s, c, p, rounds, m);
      t := OneMoreRound(cfg, m, c', p', rounds[n]);
      LastRound(cfg, s, c, p, rounds, c', m, t);
    }
  }

  /** A provisioned pair comes up and runs any number of rounds. */
  lemma {:induction false} EveryRoundFromProvisioning(cfg: Config, s: System, boots: seq<Step>, rounds: seq<Round>)
    returns (t: System)
    requires Initial(cfg, s)
    requires boots == [VerifierBoot(true), ProverBoot(true)] || boots == [ProverBoot(true), VerifierBoot(true)]
    requires AllSmooth(cfg, cfg.verifier.counter, rounds)
    ensures cfg.verifier.counter + |rounds| <= UINT32_MAX
    ensures Leads(Stepping(cfg), s, boots + AllSteps(rounds), t)
    ensures t.trace == AllEvents(cfg, cfg.verifier.counter, rounds)
    ensures t.v.ready && t.p.ready && t.v.material.counter == cfg.verifier.counter + |rounds|
  {
    var c := cfg.verifier.counter;
    var s2 := BootStage(cfg, s, boots);
    t := EveryRound(cfg, s2, c, cfg.prover.counter, rounds);
    LeadsConcat(Stepping(cfg), s, boots, s2, AllSteps(rounds), t);
    assert [] + AllEvents(cfg, c, rounds) == AllEvents(cfg, c, rounds);
  }

  // ----- There are such rounds -----

  /** Octets that all arrive at once. */
  function AtOnce(n: nat): seq<u32> {
    seq(n, _ => 0)
  }

  function RequestTaken(inputs: seq<Input>, env: P.Surroundings): (steps: seq<Step>)
    ensures |steps| == |inputs| && (inputs != [] ==> RequestSteps(steps, inputs, env))
  {
    seq(|inputs|, k requires 0 <= k < |inputs| => ProverInput(inputs[k], env, true))
  }

  function ReportTaken(inputs: seq<Input>): (steps: seq<Step>)
    ensures |steps| == |inputs| && (inputs != [] ==> ReportSteps(steps, inputs, 0, 0))
  {
    seq(|inputs|, k requires 0 <= k < |inputs| => VerifierInput(inputs[k], 0, 0, true))
  }

  lemma {:induction false} SentLength(kind: byte, payload: Bytes)
    requires LegalFrame(kind, |payload|)
    ensures |Sent(kind, payload)| == |payload| + 5
  {
    WireShape(kind, payload);
  }

  /** Steps of which none is a poll. */
  lemma {:induction false} NoPolls(steps: seq<Step>, started: u32, timeout: u32)
    requires (forall k | 0 <= k < |steps| :: !steps[k].VerifierPoll?) && ReleasesAt(steps, started)
    ensures WithoutPolls(steps) == steps && PollsInTime(steps, started, timeout)
    decreases |steps|
  {
    if steps != [] {
      var n := |steps| - 1;
      NoPolls(steps[..n], started, timeout);
      assert steps[..n] + [steps[n]] == steps;
    }
  }

  /** The steps of an exchange on this nonce and this memory. */
  function PlainSteps(cfg: Config, c: u32, nonce: Nonce, memory: Bytes): (steps: seq<Step>)
    requires c < UINT32_MAX
    ensures (forall k | 0 <= k < |steps| :: !steps[k].VerifierPoll?) && ReleasesAt(steps, 0)
  {
    var (draw, env) := (V.Draw(true, nonce, true, 0), P.Surroundings(true, Some(memory), true));
    var request := RequestBytes(Opening(cfg, SessionAt(cfg, c), draw));
    var report := ReportBytes(Exchange.Reply(cfg, SessionAt(cfg, c), AgentAt(cfg, c), draw, env));
    SentLength(REQUEST, request);
    SentLength(RESPONSE, report);
    [VerifierChallenge(draw, true)] + RequestTaken(Timed(Sent(REQUEST, request), AtOnce(REQUEST_LEN + 5)), env)
    + ReportTaken(Timed(Sent(RESPONSE, report), AtOnce(REPORT_LEN + 5)))
  }

  /** At every counter, for every nonce and every memory, there is a smooth round that is judged in time. */
  lemma {:induction false} SmoothRoundExists(cfg: Config, c: u32, nonce: Nonce, memory: Bytes) returns (r: Round)
    requires Paired(cfg) && c < UINT32_MAX
    ensures Smooth(cfg, c, r) && r.draw.nonce == nonce && r.env.memory == Some(memory)
    ensures InTime(r.draw.now, cfg.timeout, r.at.now, r.at.later)
  {
    var at := Schedule(AtOnce(REQUEST_LEN + 5), AtOnce(REPORT_LEN + 5), 0, 0);
    var steps := PlainSteps(cfg, c, nonce, memory);
    r := Round(V.Draw(true, nonce, true, 0), P.Surroundings(true, Some(memory), true), at, steps);
    NoPolls(steps, 0, cfg.timeout);
    AtOnceIsPrompt(REQUEST_LEN, cfg.frameTimeout);
    AtOnceIsPrompt(REPORT_LEN, cfg.frameTimeout);
    PlainStepsFit(cfg, c, nonce, memory, r);
  }

  lemma {:induction false} AtOnceIsPrompt(len: nat, timeout: u32)
    requires 0 < timeout
    ensures Prompt(AtOnce(len + 5), len, timeout)
  {
    assert !Expired(0, 0, timeout);
  }

  lemma {:induction false} PlainStepsFit(cfg: Config, c: u32, nonce: Nonce, memory: Bytes, r: Round)
    requires c < UINT32_MAX && r.steps == PlainSteps(cfg, c, nonce, memory)
    requires r.draw == V.Draw(true, nonce, true, 0) && r.env == P.Surroundings(true, Some(memory), true)
    requires r.at == Schedule(AtOnce(REQUEST_LEN + 5), AtOnce(REPORT_LEN + 5), 0, 0)
    ensures IsExchange(cfg, SessionAt(cfg, c), AgentAt(cfg, c), r.draw, r.env, r.at, r.steps)
  {
    var request := RequestBytes(Opening(cfg, SessionAt(cfg, c), r.draw));
    var report := ReportBytes(Exchange.Reply(cfg, SessionAt(cfg, c), AgentAt(cfg, c), r.draw, r.env));
    SentLength(REQUEST, request);
    SentLength(RESPONSE, report);
    var a := RequestTaken(Timed(Sent(REQUEST, request), r.at.request), r.env);
    var b := ReportTaken(Timed(Sent(RESPONSE, report), r.at.report));
    assert r.steps == [VerifierChallenge(r.draw, true)] + a + b;
    assert r.steps[1..1 + |a|] == a && r.steps[1 + |a|..] == b;
  }
}
