/** Deadlines over whole runs of the system, on real time. */
module Timing {
  import opened Bytes
  import opened Clock
  import opened Cobs
  import opened Reception
  import opened Simple
  import opened System
  import opened Trace
  import V = Verifier

  /** This step releases a challenge. */
  predicate Releases(s: System, step: Step) {
    step.VerifierChallenge? && step.saved && V.Commits(s.v, step.draw, REQUEST_LEN)
  }

  /** What a frame receiver makes of this step. */
  function Heard(cfg: Config, s: System, step: Step): Outcome
    requires step.VerifierInput?
  {
    Reception.Handle(s.vLink, step.input, cfg.frameTimeout, REQUEST_LEN).1
  }

  /** In this step the verifier judges a response. */
  predicate Judges(cfg: Config, s: System, step: Step) {
    step.VerifierInput? && Heard(cfg, s, step).Frame? && Heard(cfg, s, step).kind == RESPONSE
  }

  /** In this step the verifier looks at the deadline of its outstanding challenge. */
  predicate Looks(cfg: Config, s: System, step: Step) {
    s.v.outstanding && (step.VerifierPoll? || Judges(cfg, s, step))
  }

  /** The clock shows real time `begin`, and `end` when it is read a second time in the same step, which
      is no more than `gap` later. Steps that do not read it say nothing about it. */
  predicate ShowsTime(cfg: Config, s: System, step: Step, begin: nat, end: nat, gap: nat) {
    && (Releases(s, step) ==> step.draw.now == Tick(begin))
    && (Looks(cfg, s, step) && step.VerifierPoll? ==> step.now == Tick(begin))
    && (Looks(cfg, s, step) && step.VerifierInput? ==>
          step.now == Tick(begin) && step.later == Tick(end) && begin <= end <= begin + gap)
  }

  /** A run with the real times of its steps. */
  ghost predicate TimedRun(cfg: Config, ss: seq<System>, steps: seq<Step>, begins: seq<nat>, ends: seq<nat>, gap: nat) {
    && Run(cfg, ss, steps)
    && |begins| == |ends| == |steps|
    && (forall i, j | 0 <= i < j < |begins| :: begins[i] <= begins[j])
    && (forall i | 0 <= i < |steps| :: ShowsTime(cfg, ss[i], steps[i], begins[i], ends[i], gap))
  }

  /** Step `h` releases the challenge that step `i` is about. */
  predicate LastRelease(ss: seq<System>, steps: seq<Step>, h: nat, i: nat)
    requires i <= |steps| < |ss|
  {
    h < i && Releases(ss[h], steps[h]) && forall k | h < k < i :: !Releases(ss[k], steps[k])
  }

  /** The release or some look at its deadline came no more than `gap` before step `i`. */
  predicate LookedSince(cfg: Config, ss: seq<System>, steps: seq<Step>, begins: seq<nat>, h: nat, i: nat, gap: nat)
    requires h < i < |steps| == |begins| < |ss|
  {
    exists j | h <= j < i :: (j == h || Looks(cfg, ss[j], steps[j])) && begins[i] <= begins[j] + gap
  }

  /** While a challenge is outstanding, the verifier looks at its deadline at least every `gap`. */
  ghost predicate Attentive(cfg: Config, ss: seq<System>, steps: seq<Step>, begins: seq<nat>, gap: nat)
    requires |steps| == |begins| < |ss|
  {
    forall h, i | 0 <= h < i < |steps| && LastRelease(ss, steps, h, i) && Looks(cfg, ss[i], steps[i]) ::
      LookedSince(cfg, ss, steps, begins, h, i, gap)
  }

  /** Only a release opens a session, and while it stays open it stays as it is. */
  lemma {:induction false} SessionKept(cfg: Config, s: System, step: Step, t: System)
    requires Next(cfg, s, step, t) && t.v.outstanding && !Releases(s, step)
    ensures t.v == s.v
    ensures Looks(cfg, s, step) && step.VerifierPoll? && s.v.ready ==> !Expired(step.now, s.v.started, s.v.timeout)
    ensures Looks(cfg, s, step) && step.VerifierInput? && s.v.ready ==> !Expired(step.now, s.v.started, s.v.timeout)
  {
  }

  lemma {:induction false} SessionOpens(cfg: Config, s: System, step: Step, t: System)
    requires Next(cfg, s, step, t) && Releases(s, step)
    ensures t.v.started == step.draw.now && t.v.timeout == s.v.timeout && t.v.nonce == step.draw.nonce
    ensures t.v.material.counter == s.v.material.counter + 1
    ensures t.trace == s.trace + [Released(t.v.material.counter, t.v.nonce, s.v.material.reference)]
  {
  }

  /** The challenge that is outstanding in state `n` was released in step `h`, at real time
      `begins[h]`, and no look at its deadline since then came too late. */
  ghost predicate Since(cfg: Config, ss: seq<System>, steps: seq<Step>, begins: seq<nat>, h: nat, n: nat)
    requires n <= |steps| == |begins| < |ss|
  {
    && LastRelease(ss, steps, h, n)
    && ss[n].v.started == Tick(begins[h]) && ss[n].v.timeout == cfg.timeout
    && ss[h + 1].trace == ss[h].trace + [Released(ss[n].v.material.counter, ss[n].v.nonce, cfg.verifier.reference)]
    && forall k | h < k < n && Looks(cfg, ss[k], steps[k]) :: begins[k] < begins[h] + cfg.timeout
  }

  /** A look at the deadline is early enough for the clock to tell the truth. */
  lemma {:induction false} LooksWithinWrap(cfg: Config, ss: seq<System>, steps: seq<Step>, begins: seq<nat>, ends: seq<nat>,
                                           h: nat, n: nat)
    requires 0 < cfg.timeout && TimedRun(cfg, ss, steps, begins, ends, WRAP - cfg.timeout)
    requires Attentive(cfg, ss, steps, begins, WRAP - cfg.timeout)
    requires n < |steps| && Since(cfg, ss, steps, begins, h, n) && Looks(cfg, ss[n], steps[n])
    ensures begins[h] <= begins[n] < begins[h] + WRAP
  {
    var gap: nat := WRAP - cfg.timeout;
    assert LookedSince(cfg, ss, steps, begins, h, n, gap);
    var j :| h <= j < n && (j == h || Looks(cfg, ss[j], steps[j])) && begins[n] <= begins[j] + gap;
  }

  lemma {:induction false} SinceOpens(cfg: Config, ss: seq<System>, steps: seq<Step>, begins: seq<nat>, ends: seq<nat>,
                                      m: nat)
    requires TimedRun(cfg, ss, steps, begins, ends, WRAP - cfg.timeout)
    requires m < |steps| && Releases(ss[m], steps[m])
    ensures Since(cfg, ss, steps, begins, m, m + 1)
  {
    RunKeeps(cfg, ss, steps, m);
    assert StepAt(cfg, ss, steps, m);
    assert ShowsTime(cfg, ss[m], steps[m], begins[m], ends[m], WRAP - cfg.timeout);
    SessionOpens(cfg, ss[m], steps[m], ss[m + 1]);
  }

  /** A look that leaves the challenge outstanding came before the deadline. */
  lemma {:induction false} LookedInTime(cfg: Config, ss: seq<System>, steps: seq<Step>, begins: seq<nat>, ends: seq<nat>,
                                        h: nat, m: nat)
    requires 0 < cfg.timeout && TimedRun(cfg, ss, steps, begins, ends, WRAP - cfg.timeout)
    requires Attentive(cfg, ss, steps, begins, WRAP - cfg.timeout)
    requires m < |steps| && Since(cfg, ss, steps, begins, h, m) && Looks(cfg, ss[m], steps[m])
    requires !Expired(steps[m].now, ss[m].v.started, ss[m].v.timeout)
    ensures begins[m] < begins[h] + cfg.timeout
  {
    assert ShowsTime(cfg, ss[m], steps[m], begins[m], ends[m], WRAP - cfg.timeout);
    LooksWithinWrap(cfg, ss, steps, begins, ends, h, m);
    ExpiredExact(begins[m], begins[h], cfg.timeout);
  }

  lemma {:induction false} SinceStays(cfg: Config, ss: seq<System>, steps: seq<Step>, begins: seq<nat>, h: nat, m: nat)
    requires m < |steps| == |begins| < |ss| && Since(cfg, ss, steps, begins, h, m)
    requires !Releases(ss[m], steps[m]) && ss[m + 1].v == ss[m].v
    requires Looks(cfg, ss[m], steps[m]) ==> begins[m] < begins[h] + cfg.timeout
    ensures Since(cfg, ss, steps, begins, h, m + 1)
  {
  }

  lemma {:induction false} OutstandingSince(cfg: Config, ss: seq<System>, steps: seq<Step>, begins: seq<nat>, ends: seq<nat>,
                                            n: nat)
    returns (h: nat)
    requires TimedRun(cfg, ss, steps, begins, ends, WRAP - cfg.timeout)
    requires Attentive(cfg, ss, steps, begins, WRAP - cfg.timeout)
    requires n <= |steps| && ss[n].v.outstanding
    ensures Since(cfg, ss, steps, begins, h, n)
    decreases n
  {
    assert n != 0;
    var m := n - 1;
    if Releases(ss[m], steps[m]) {
      h := m;
      SinceOpens(cfg, ss, steps, begins, ends, m);
    } else {
      RunKeeps(cfg, ss, steps, m);
      assert StepAt(cfg, ss, steps, m);
      SessionKept(cfg, ss[m], steps[m], ss[n]);
      h := OutstandingSince(cfg, ss, steps, begins, ends, m);
      if Looks(cfg, ss[m], steps[m]) {
        LookedInTime(cfg, ss, steps, begins, ends, h, m);
      }
      SinceStays(cfg, ss, steps, begins, h, m);
    }
  }

  /** In every run in which the verifier looks at the deadline of an outstanding challenge at least every
      2^32 ms less the timeout, each such look sees the deadline of the very challenge that is outstanding
      as it is on real time, the second one while a response is judged included. */
  lemma {:induction false} DeadlineInRun(cfg: Config, ss: seq<System>, steps: seq<Step>, begins: seq<nat>, ends: seq<nat>,
                                         i: nat)
    returns (h: nat)
    requires TimedRun(cfg, ss, steps, begins, ends, WRAP - cfg.timeout)
    requires Attentive(cfg, ss, steps, begins, WRAP - cfg.timeout)
    requires i < |steps| && Looks(cfg, ss[i], steps[i])
    ensures Since(cfg, ss, steps, begins, h, i)
    ensures var (v, step, deadline) := (ss[i].v, steps[i], begins[h] + cfg.timeout);
            && (Expired(step.now, v.started, v.timeout) <==> begins[i] >= deadline)
            && (step.VerifierInput? && begins[i] < deadline ==>
                  (Expired(step.later, v.started, v.timeout) <==> ends[i] >= deadline))
  {
    RunKeeps(cfg, ss, steps, i);
    h := OutstandingSince(cfg, ss, steps, begins, ends, i);
    LooksWithinWrap(cfg, ss, steps, begins, ends, h, i);
    assert ShowsTime(cfg, ss[i], steps[i], begins[i], ends[i], WRAP - cfg.timeout);
    ExpiredExact(begins[i], begins[h], cfg.timeout);
    if steps[i].VerifierInput? && begins[i] < begins[h] + cfg.timeout {
      ExpiredExact(ends[i], begins[h], cfg.timeout);
    }
  }

  /** In such a run, a verdict is only ever passed on a challenge before its deadline on real time, the
      checks of the response included. */
  lemma {:induction false} VerdictsInTime(cfg: Config, ss: seq<System>, steps: seq<Step>, begins: seq<nat>, ends: seq<nat>,
                                          i: nat)
    returns (h: nat)
    requires TimedRun(cfg, ss, steps, begins, ends, WRAP - cfg.timeout)
    requires Attentive(cfg, ss, steps, begins, WRAP - cfg.timeout)
    requires i < |steps| && Judges(cfg, ss[i], steps[i])
    requires var step := steps[i];
             V.Verified(cfg.h, ss[i].v, Heard(cfg, ss[i], step).payload, step.macOk, step.now, step.later).1
             in {V.Pass, V.Mismatch}
    ensures Since(cfg, ss, steps, begins, h, i)
    ensures begins[i] <= ends[i] < begins[h] + cfg.timeout
  {
    h := DeadlineInRun(cfg, ss, steps, begins, ends, i);
    assert ShowsTime(cfg, ss[i], steps[i], begins[i], ends[i], WRAP - cfg.timeout);
  }

  /** And a poll gives the outstanding challenge up exactly when its deadline has passed on real time. */
  lemma {:induction false} PollsAtDeadline(cfg: Config, ss: seq<System>, steps: seq<Step>, begins: seq<nat>, ends: seq<nat>,
                                           i: nat)
    returns (h: nat)
    requires TimedRun(cfg, ss, steps, begins, ends, WRAP - cfg.timeout)
    requires Attentive(cfg, ss, steps, begins, WRAP - cfg.timeout)
    requires i < |steps| && steps[i].VerifierPoll? && ss[i].v.outstanding
    ensures Since(cfg, ss, steps, begins, h, i)
    ensures V.Polled(ss[i].v, steps[i].now).1 == V.Timeout <==> begins[i] >= begins[h] + cfg.timeout
  {
    RunKeeps(cfg, ss, steps, i);
    h := DeadlineInRun(cfg, ss, steps, begins, ends, i);
  }
}
