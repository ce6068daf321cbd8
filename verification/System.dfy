/** The two devices on a link that may lose, repeat, reorder and make up octets, either of which
    may lose power at any step. */
module System {
  import opened Blocks
  import opened Bytes
  import opened Cobs
  import opened Reception
  import opened Records
  import opened Register
  import opened Simple
  import opened Trace
  import opened Wrappers
  import P = Prover
  import V = Verifier

  datatype System = System(
    v: V.Session, vStore: Store, vLink: Receiver,
    p: P.Agent, pStore: Store, pLink: Receiver,
    trace: Trace)

  /** One step of a device, with what the environment contributes to it. The verifier's clock is
      read twice when it judges a response. */
  datatype Step =
    | VerifierBoot(ok: bool)
    | VerifierPoll(now: u32)
    | VerifierChallenge(draw: V.Draw, saved: bool)
    | VerifierSendFailure
    | VerifierInput(input: Input, now: u32, later: u32, macOk: bool)
    | ProverBoot(ok: bool)
    | ProverInput(input: Input, env: P.Surroundings, saved: bool)

  ghost function Rec(cfg: Config): Format {
    RecordFormat(cfg.h, cfg.verifier.kAuth)
  }

  /** The two devices share the key that authenticates the protocol. */
  predicate Paired(cfg: Config) {
    cfg.verifier.kAuth == cfg.prover.kAuth && 0 < cfg.timeout <= V.INT32_MAX && 0 < cfg.frameTimeout
  }

  function Fresh(): Receiver {
    Receiver([], 0, false)
  }

  /** The material after a load: what was provisioned, with the counter of the journal. */
  function LoadedMaterial(provisioned: V.Material, s: Store): V.Material {
    if s.ram.Some? then provisioned.(counter := s.ram.value.counter) else V.NoMaterial()
  }

  function Booted(cfg: Config, s: Store): V.Session {
    V.Session(s.ram.Some?, false, LoadedMaterial(cfg.verifier, s), V.NoNonce(), 0, cfg.timeout)
  }

  /** Unforgeability: a payload delivered to the verifier carries a valid tag on the report that
      it is about to check only if that tag can be known. */
  ghost predicate UnforgedResponse(cfg: Config, s: System, payload: Bytes) {
    var r := ParseReport(payload);
    r.Some? ==>
      var input := ReportInput(r.value.result, s.v.material.counter, s.v.nonce);
      r.value.hmac == cfg.h(cfg.verifier.kAuth, input) ==> Known(s.trace, input)
  }

  ghost predicate UnforgedRequest(cfg: Config, s: System, payload: Bytes) {
    var m := ParseMsg(payload);
    m.Some? && m.value.hmac == cfg.h(cfg.prover.kAuth, payload[..MSG_LEN]) ==> Known(s.trace, payload[..MSG_LEN])
  }

  /** What the end of a session leaves in the trace. */
  function Closing(before: V.Session, r: V.Result): Trace {
    match r
    case Pass => [Decided(before.material.counter, before.nonce, true)]
    case Mismatch => [Decided(before.material.counter, before.nonce, false)]
    case Timeout => [Abandoned(before.material.counter)]
    case _ => []
  }

  /** What handling a request leaves in the trace. */
  function Handling(p: P.Agent, payload: Bytes, env: P.Surroundings, saved: bool, h: Mac): Trace {
    match P.Acceptable(h, p, payload, env, REPORT_LEN)
    case None => []
    case Some(m) =>
      if !saved then []
      else if env.memory.None? || !env.macOk then [Accepted(m.counter)]
      else [Accepted(m.counter), Reported(m.counter, m.nonce, m.vs, env.memory.value, P.Compared(h, p, env.memory.value, m))]
  }

  ghost predicate Next(cfg: Config, s: System, step: Step, s': System) {
    match step
    case VerifierBoot(ok) =>
      && LoadStep(Rec(cfg), cfg.verifier.counter, s.vStore, ok, s'.vStore)
      && s' == s.(vStore := s'.vStore, v := Booted(cfg, s'.vStore), vLink := Fresh())
    case VerifierPoll(now) =>
      var (v, r) := V.Polled(s.v, now);
      s' == s.(v := v, trace := s.trace + Closing(s.v, r))
    case VerifierChallenge(draw, saved) =>
      var (v, msg) := V.Challenged(cfg.h, s.v, draw, REQUEST_LEN, saved);
      && V.CommitStep(Rec(cfg), s.v, draw, REQUEST_LEN, s.vStore, saved, s'.vStore)
      && s' == s.(v := v, vStore := s'.vStore,
                  trace := s.trace + match msg { case None => [] case Some(m) => [Released(m.counter, m.nonce, m.vs)] })
    case VerifierSendFailure =>
      s' == s.(v := V.Cancelled(s.v), trace := s.trace + if s.v.outstanding then [Abandoned(s.v.material.counter)] else [])
    case VerifierInput(input, now, later, macOk) =>
      var (link, out) := Reception.Handle(s.vLink, input, cfg.frameTimeout, REQUEST_LEN);
      if out.Frame? && out.kind == RESPONSE then
        && UnforgedResponse(cfg, s, out.payload)
        && var (v, r) := V.Verified(cfg.h, s.v, out.payload, macOk, now, later);
        && s' == s.(v := v, vLink := link, trace := s.trace + Closing(s.v, r))
      else s' == s.(vLink := link)
    case ProverBoot(ok) =>
      && LoadStep(Rec(cfg), cfg.prover.counter, s.pStore, ok, s'.pStore)
      && s' == s.(pStore := s'.pStore, p := P.Agent(s'.pStore.ram.Some?, LoadedMaterial(cfg.prover, s'.pStore)),
                  pLink := Fresh())
    case ProverInput(input, env, saved) =>
      var (link, out) := Reception.Handle(s.pLink, input, cfg.frameTimeout, REQUEST_LEN);
      if out.Frame? && out.kind == REQUEST then
        && UnforgedRequest(cfg, s, out.payload)
        && P.AcceptStep(Rec(cfg), cfg.h, s.p, out.payload, env, REPORT_LEN, s.pStore, saved, s'.pStore)
        && s' == s.(p := P.Handled(cfg.h, s.p, out.payload, env, REPORT_LEN, saved).0, pStore := s'.pStore, pLink := link,
                    trace := s.trace + Handling(s.p, out.payload, env, saved, cfg.h))
      else s' == s.(pLink := link)
  }

  /** What a step of the system may do. */
  ghost function Stepping(cfg: Config): (System, Step, System) -> bool {
    (s, step, t) => Next(cfg, s, step, t)
  }

  /** Before anything has happened: both devices are off, and their journals hold the counters
      they were provisioned with, the prover's being no larger. */
  ghost predicate Initial(cfg: Config, s: System) {
    && Paired(cfg)
    && s.trace == [] && !s.v.ready && !s.v.outstanding && s.v.timeout == cfg.timeout && !s.p.ready
    && s.vStore.ram == None && s.pStore.ram == None
    && Worth(Rec(cfg), cfg.verifier.counter, s.vStore.img, Alive(cfg.verifier.counter))
    && Worth(Rec(cfg), cfg.prover.counter, s.pStore.img, Alive(cfg.prover.counter))
    && cfg.prover.counter <= cfg.verifier.counter
  }

  /** Step `i` leads from state `i` to the next one. */
  ghost predicate StepAt(cfg: Config, ss: seq<System>, steps: seq<Step>, i: nat)
    requires |ss| == |steps| + 1 && i < |steps|
  {
    Next(cfg, ss[i], steps[i], ss[i + 1])
  }

  ghost predicate Run(cfg: Config, ss: seq<System>, steps: seq<Step>) {
    && |ss| == |steps| + 1
    && Initial(cfg, ss[0])
    && forall i | 0 <= i < |steps| :: StepAt(cfg, ss, steps, i)
  }

  // ----- The invariant -----

  /** A ready device works with the provisioned secrets and with the counter of its journal. */
  ghost predicate InStep(cfg: Config, s: System) {
    && Coherent(Rec(cfg), cfg.verifier.counter, s.vStore)
    && Coherent(Rec(cfg), cfg.prover.counter, s.pStore)
    && s.v.timeout == cfg.timeout
    && (s.v.ready ==> s.vStore.ram.Some? && s.v.material == LoadedMaterial(cfg.verifier, s.vStore))
    && (s.p.ready ==> s.pStore.ram.Some? && s.p.material == LoadedMaterial(cfg.prover, s.pStore))
  }

  /** No load of the verifier can return less than its provisioned counter or than a released
      one, and none of the prover less than an accepted one. */
  ghost predicate Durable(cfg: Config, s: System) {
    && AtLeast(Rec(cfg), cfg.verifier.counter, s.vStore, cfg.verifier.counter)
    && (forall i | 0 <= i < |s.trace| && s.trace[i].Released? ::
          AtLeast(Rec(cfg), cfg.verifier.counter, s.vStore, s.trace[i].counter))
    && (forall i | 0 <= i < |s.trace| && s.trace[i].Accepted? ::
          AtLeast(Rec(cfg), cfg.prover.counter, s.pStore, s.trace[i].counter))
  }

  /** The counter is the prover's provisioned one or at most a released one. */
  ghost predicate Justified(cfg: Config, tr: Trace, c: u32) {
    c <= cfg.prover.counter || exists i | 0 <= i < |tr| :: tr[i].Released? && c <= tr[i].counter
  }

  /** Every load of the prover returns a justified counter. */
  ghost predicate Bounded(cfg: Config, s: System) {
    forall q | Recovers(Rec(cfg), s.pStore.img, cfg.prover.counter, q) :: Justified(cfg, s.trace, q.counter)
  }

  /** The outstanding challenge is the last one released and has not ended. */
  ghost predicate InSession(cfg: Config, s: System) {
    s.v.outstanding ==>
      && s.v.ready
      && Before(s.trace, |s.trace|, Released(s.v.material.counter, s.v.nonce, cfg.verifier.reference))
      && (forall i | 0 <= i < |s.trace| && s.trace[i].Released? :: s.trace[i].counter <= s.v.material.counter)
      && (forall i | 0 <= i < |s.trace| && Ends(s.trace[i]) :: s.trace[i].counter < s.v.material.counter)
  }

  ghost predicate Invariant(cfg: Config, s: System) {
    Paired(cfg) && Sound(cfg, s.trace) && InStep(cfg, s) && Durable(cfg, s) && Bounded(cfg, s) && InSession(cfg, s)
  }

  lemma {:induction false} InitialHolds(cfg: Config, s: System)
    requires Initial(cfg, s)
    ensures Invariant(cfg, s)
  {
    RecordsAreTornProof(cfg.h, cfg.verifier.kAuth);
    WorthAtLeast(Rec(cfg), cfg.verifier.counter, s.vStore, cfg.verifier.counter);
    forall q | Recovers(Rec(cfg), s.pStore.img, cfg.prover.counter, q) ensures q.counter == cfg.prover.counter {
      assert Worth(Rec(cfg), cfg.prover.counter, s.pStore.img, Alive(q.counter));
      WorthOnce(Rec(cfg), cfg.prover.counter, s.pStore.img, Alive(q.counter), Alive(cfg.prover.counter));
    }
  }

  // ----- Every step keeps it -----

  lemma {:induction false} JustifiedNext(cfg: Config, tr: Trace, e: Event, c: u32)
    requires Justified(cfg, tr, c)
    ensures Justified(cfg, tr + [e], c)
  {
    if i :| 0 <= i < |tr| && tr[i].Released? && c <= tr[i].counter {
      assert (tr + [e])[i] == tr[i];
    }
  }

  lemma {:induction false} BoundedNext(cfg: Config, s: System, e: Event)
    requires Bounded(cfg, s)
    ensures Bounded(cfg, s.(trace := s.trace + [e]))
  {
    forall q | Recovers(Rec(cfg), s.pStore.img, cfg.prover.counter, q) ensures Justified(cfg, s.trace + [e], q.counter) {
      JustifiedNext(cfg, s.trace, e, q.counter);
    }
  }

  lemma {:induction false} BeforeReleased(tr: Trace, n: nat, c: u32, nonce: Nonce, vs: Digest)
    requires Before(tr, n, Released(c, nonce, vs))
    ensures ReleasedBefore(tr, n, c)
  {
    var i :| 0 <= i < n && i < |tr| && tr[i] == Released(c, nonce, vs);
    assert tr[i].Released? && tr[i].counter == c;
  }

  /** The end of the outstanding challenge, whatever it is. */
  lemma {:induction false} EndKeeps(cfg: Config, s: System, e: Event, s': System)
    requires Invariant(cfg, s) && s.v.outstanding
    requires Ends(e) && e.counter == s.v.material.counter
    requires e.Decided? ==> ReportedBefore(s.trace, |s.trace|, e.counter, e.nonce, if e.pass then 1 else 0)
    requires s' == s.(v := V.Cancelled(s.v), trace := s.trace + [e])
    ensures Invariant(cfg, s')
  {
    BeforeReleased(s.trace, |s.trace|, s.v.material.counter, s.v.nonce, cfg.verifier.reference);
    ReleasedKept(s.trace, e, |s.trace|, e.counter);
    if e.Decided? {
      ReportedKept(s.trace, e, |s.trace|, e.counter, e.nonce, if e.pass then 1 else 0);
    }
    SoundNext(cfg, s.trace, e);
    BoundedNext(cfg, s, e);
  }

  lemma {:induction false} VerifierBootKeeps(cfg: Config, s: System, ok: bool, s': System)
    requires Invariant(cfg, s) && Next(cfg, s, VerifierBoot(ok), s')
    ensures Invariant(cfg, s')
  {
    var (rec, floor) := (Rec(cfg), cfg.verifier.counter);
    RecordsAreTornProof(cfg.h, cfg.verifier.kAuth);
    LoadKeeps(rec, floor, s.vStore, ok, s'.vStore, floor);
    forall i | 0 <= i < |s.trace| && s.trace[i].Released? ensures AtLeast(rec, floor, s'.vStore, s.trace[i].counter) {
      LoadKeeps(rec, floor, s.vStore, ok, s'.vStore, s.trace[i].counter);
    }
  }

  lemma {:induction false} ProverBootKeeps(cfg: Config, s: System, ok: bool, s': System)
    requires Invariant(cfg, s) && Next(cfg, s, ProverBoot(ok), s')
    ensures Invariant(cfg, s')
  {
    var (rec, floor) := (Rec(cfg), cfg.prover.counter);
    RecordsAreTornProof(cfg.h, cfg.verifier.kAuth);
    LoadKeeps(rec, floor, s.pStore, ok, s'.pStore, 0);
    forall i | 0 <= i < |s.trace| && s.trace[i].Accepted? ensures AtLeast(rec, floor, s'.pStore, s.trace[i].counter) {
      LoadKeeps(rec, floor, s.pStore, ok, s'.pStore, s.trace[i].counter);
    }
  }

  lemma {:induction false} PollKeeps(cfg: Config, s: System, now: u32, s': System)
    requires Invariant(cfg, s) && Next(cfg, s, VerifierPoll(now), s')
    ensures Invariant(cfg, s')
  {
    if V.Polled(s.v, now).1 == V.Timeout {
      EndKeeps(cfg, s, Abandoned(s.v.material.counter), s');
    } else {
      assert s.trace + [] == s.trace;
      assert s' == s;
    }
  }

  lemma {:induction false} SendFailureKeeps(cfg: Config, s: System, s': System)
    requires Invariant(cfg, s) && Next(cfg, s, VerifierSendFailure, s')
    ensures Invariant(cfg, s')
  {
    if s.v.outstanding {
      EndKeeps(cfg, s, Abandoned(s.v.material.counter), s');
    } else {
      assert s.trace + [] == s.trace;
    }
  }

  lemma {:induction false} LinksDoNotMatter(cfg: Config, s: System, s': System)
    requires Invariant(cfg, s) && s' == s.(vLink := s'.vLink, pLink := s'.pLink)
    ensures Invariant(cfg, s')
  {
  }

  lemma {:induction false} VerifierInputKeeps(cfg: Config, s: System, input: Input, now: u32, later: u32,
                                              macOk: bool, s': System)
    requires Invariant(cfg, s) && Next(cfg, s, VerifierInput(input, now, later, macOk), s')
    ensures Invariant(cfg, s')
  {
    var (link, out) := Reception.Handle(s.vLink, input, cfg.frameTimeout, REQUEST_LEN);
    if out.Frame? && out.kind == RESPONSE {
      var (v, r) := V.Verified(cfg.h, s.v, out.payload, macOk, now, later);
      var t := s.(v := v, trace := s.trace + Closing(s.v, r));
      JudgeKeeps(cfg, s, out.payload, now, later, macOk, t);
      LinksDoNotMatter(cfg, t, s');
    } else {
      LinksDoNotMatter(cfg, s, s');
    }
  }

  /** Judging a response, whatever comes of it. */
  lemma {:induction false} JudgeKeeps(cfg: Config, s: System, payload: Bytes, now: u32, later: u32, macOk: bool, t: System)
    requires Invariant(cfg, s) && UnforgedResponse(cfg, s, payload)
    requires var (v, r) := V.Verified(cfg.h, s.v, payload, macOk, now, later);
             t == s.(v := v, trace := s.trace + Closing(s.v, r))
    ensures Invariant(cfg, t)
  {
    var r := V.Verified(cfg.h, s.v, payload, macOk, now, later).1;
    if r == V.Timeout {
      EndKeeps(cfg, s, Abandoned(s.v.material.counter), t);
    } else if r == V.Pass || r == V.Mismatch {
      VerdictIsReported(cfg, s, payload, now, later, macOk);
      EndKeeps(cfg, s, Decided(s.v.material.counter, s.v.nonce, r == V.Pass), t);
    } else {
      assert s.trace + [] == s.trace;
      assert t == s;
    }
  }

  /** A verdict is on a report that the prover has made on this challenge. */
  lemma {:induction false} VerdictIsReported(cfg: Config, s: System, payload: Bytes, now: u32, later: u32, macOk: bool)
    requires InStep(cfg, s) && UnforgedResponse(cfg, s, payload)
    requires V.Verified(cfg.h, s.v, payload, macOk, now, later).1 in {V.Pass, V.Mismatch}
    ensures s.v.outstanding
    ensures var r := V.Verified(cfg.h, s.v, payload, macOk, now, later).1;
            ReportedBefore(s.trace, |s.trace|, s.v.material.counter, s.v.nonce, if r == V.Pass then 1 else 0)
  {
    var report := ParseReport(payload).value;
    KnownReport(s.trace, report.result, s.v.material.counter, s.v.nonce);
  }

  /** A commit of the verifier's counter, whatever comes of it, keeps what was promised. */
  lemma {:induction false} VerifierSaves(cfg: Config, s: System, c: u32, saved: bool, store: Store)
    requires Invariant(cfg, s) && SaveStep(Rec(cfg), s.vStore, c, saved, store)
    ensures Coherent(Rec(cfg), cfg.verifier.counter, store)
    ensures AtLeast(Rec(cfg), cfg.verifier.counter, store, cfg.verifier.counter)
    ensures forall i | 0 <= i < |s.trace| && s.trace[i].Released? ::
              AtLeast(Rec(cfg), cfg.verifier.counter, store, s.trace[i].counter)
    ensures saved ==> store.ram.Some? && store.ram.value.counter == c && AtLeast(Rec(cfg), cfg.verifier.counter, store, c)
    ensures saved ==> forall i | 0 <= i < |s.trace| && s.trace[i].Released? :: s.trace[i].counter < c
  {
    var (rec, floor) := (Rec(cfg), cfg.verifier.counter);
    RecordsAreTornProof(cfg.h, cfg.verifier.kAuth);
    SaveKeeps(rec, floor, s.vStore, c, saved, store, floor);
    forall i | 0 <= i < |s.trace| && s.trace[i].Released?
      ensures AtLeast(rec, floor, store, s.trace[i].counter) && (saved ==> s.trace[i].counter < c)
    {
      SaveKeeps(rec, floor, s.vStore, c, saved, store, s.trace[i].counter);
    }
  }

  lemma {:induction false} ReleaseKeeps(cfg: Config, s: System, draw: V.Draw, s': System)
    requires Invariant(cfg, s) && V.Commits(s.v, draw, REQUEST_LEN)
    requires Next(cfg, s, VerifierChallenge(draw, true), s')
    ensures Invariant(cfg, s')
  {
    var m := V.NextChallenge(cfg.h, s.v, draw.nonce);
    var e := Released(m.counter, m.nonce, m.vs);
    assert s'.trace == s.trace + [e];
    VerifierSaves(cfg, s, m.counter, true, s'.vStore);
    assert m.vs == cfg.verifier.reference;
    ReleasedLast(cfg, s.trace, e);
    ReleasedDurable(cfg, s, e, s');
    SoundNext(cfg, s.trace, e);
    BoundedNext(cfg, s, e);
  }

  lemma {:induction false} ReleasedDurable(cfg: Config, s: System, e: Event, t: System)
    requires Durable(cfg, s) && e.Released? && t.trace == s.trace + [e] && t.pStore == s.pStore
    requires AtLeast(Rec(cfg), cfg.verifier.counter, t.vStore, cfg.verifier.counter)
    requires AtLeast(Rec(cfg), cfg.verifier.counter, t.vStore, e.counter)
    requires forall i | 0 <= i < |s.trace| && s.trace[i].Released? ::
               AtLeast(Rec(cfg), cfg.verifier.counter, t.vStore, s.trace[i].counter)
    ensures Durable(cfg, t)
  {
  }

  /** The challenge just released is the newest, and nothing of it has ended. */
  lemma {:induction false} ReleasedLast(cfg: Config, tr: Trace, e: Event)
    requires Sound(cfg, tr) && e.Released?
    requires forall i | 0 <= i < |tr| && tr[i].Released? :: tr[i].counter < e.counter
    ensures var next := tr + [e];
            && Before(next, |next|, e)
            && (forall i | 0 <= i < |next| && next[i].Released? :: next[i].counter <= e.counter)
            && (forall i | 0 <= i < |next| && Ends(next[i]) :: next[i].counter < e.counter)
  {
    assert (tr + [e])[|tr|] == e;
    EndsBelow(cfg, tr, e.counter);
  }

  /** Nothing ends that was not released, so when every released counter is below `c`, so is
      every ended one. */
  lemma {:induction false} EndsBelow(cfg: Config, tr: Trace, c: u32)
    requires Sound(cfg, tr)
    requires forall i | 0 <= i < |tr| && tr[i].Released? :: tr[i].counter < c
    ensures forall i | 0 <= i < |tr| && (Ends(tr[i]) || tr[i].Accepted?) :: tr[i].counter < c
  {
    forall i | 0 <= i < |tr| && (Ends(tr[i]) || tr[i].Accepted?) ensures tr[i].counter < c {
      assert Backed(cfg, tr, i);
      var k :| 0 <= k < i && tr[k].Released? && tr[k].counter == tr[i].counter;
    }
  }

  lemma {:induction false} ChallengeKeeps(cfg: Config, s: System, draw: V.Draw, saved: bool, s': System)
    requires Invariant(cfg, s) && Next(cfg, s, VerifierChallenge(draw, saved), s')
    ensures Invariant(cfg, s')
  {
    if !V.Commits(s.v, draw, REQUEST_LEN) {
      assert s.trace + [] == s.trace;
      assert s' == s;
    } else if saved {
      ReleaseKeeps(cfg, s, draw, s');
    } else {
      assert s.trace + [] == s.trace;
      VerifierSaves(cfg, s, s.v.material.counter + 1, false, s'.vStore);
    }
  }

  /** A commit of the prover's counter: the request it came with had been released, so whatever
      becomes of it the next load returns a justified counter. */
  lemma {:induction false} ProverSaves(cfg: Config, s: System, c: u32, saved: bool, store: Store)
    requires Invariant(cfg, s) && SaveStep(Rec(cfg), s.pStore, c, saved, store)
    requires ReleasedBefore(s.trace, |s.trace|, c)
    ensures Coherent(Rec(cfg), cfg.prover.counter, store)
    ensures forall i | 0 <= i < |s.trace| && s.trace[i].Accepted? ::
              AtLeast(Rec(cfg), cfg.prover.counter, store, s.trace[i].counter) && (saved ==> s.trace[i].counter < c)
    ensures saved ==> store.ram.Some? && store.ram.value.counter == c && AtLeast(Rec(cfg), cfg.prover.counter, store, c)
    ensures Bounded(cfg, s.(pStore := store))
  {
    var (rec, floor) := (Rec(cfg), cfg.prover.counter);
    RecordsAreTornProof(cfg.h, cfg.verifier.kAuth);
    SaveKeeps(rec, floor, s.pStore, c, saved, store, 0);
    forall i | 0 <= i < |s.trace| && s.trace[i].Accepted?
      ensures AtLeast(rec, floor, store, s.trace[i].counter) && (saved ==> s.trace[i].counter < c)
    {
      SaveKeeps(rec, floor, s.pStore, c, saved, store, s.trace[i].counter);
    }
    var r := WorthSomething(rec, floor, s.pStore.img);
    forall q | Recovers(rec, store.img, floor, q) ensures Justified(cfg, s.trace, q.counter) {
      assert Worth(rec, floor, store.img, Alive(q.counter));
      SaveRefinesRegister(rec, floor, s.pStore, c, saved, store, r, Alive(q.counter));
    }
  }

  lemma {:induction false} ProverInputKeeps(cfg: Config, s: System, input: Input, env: P.Surroundings, saved: bool,
                                            s': System)
    requires Invariant(cfg, s) && Next(cfg, s, ProverInput(input, env, saved), s')
    ensures Invariant(cfg, s')
  {
    var (link, out) := Reception.Handle(s.pLink, input, cfg.frameTimeout, REQUEST_LEN);
    if out.Frame? && out.kind == REQUEST {
      var m := P.Acceptable(cfg.h, s.p, out.payload, env, REPORT_LEN);
      if m.None? {
        assert s.trace + [] == s.trace;
        LinksDoNotMatter(cfg, s, s');
      } else {
        var t := s'.(pLink := s.pLink);
        AcceptKeeps(cfg, s, out.payload, env, m.value, saved, t);
        LinksDoNotMatter(cfg, t, s');
      }
    } else {
      LinksDoNotMatter(cfg, s, s');
    }
  }

  /** Nothing is reported on that was not accepted. */
  lemma {:induction false} ReportsBelow(cfg: Config, tr: Trace, c: u32)
    requires Sound(cfg, tr)
    requires forall i | 0 <= i < |tr| && tr[i].Accepted? :: tr[i].counter < c
    ensures forall i | 0 <= i < |tr| && tr[i].Reported? :: tr[i].counter < c
  {
    forall i | 0 <= i < |tr| && tr[i].Reported? ensures tr[i].counter < c {
      assert Backed(cfg, tr, i);
      var k :| 0 <= k < i && tr[k] == Accepted(tr[i].counter);
    }
  }

  /** What the prover does does not touch the verifier's session. */
  lemma {:induction false} SessionNext(cfg: Config, s: System, e: Event)
    requires InSession(cfg, s) && (e.Accepted? || e.Reported?)
    ensures InSession(cfg, s.(trace := s.trace + [e]))
  {
    if s.v.outstanding {
      var f := Released(s.v.material.counter, s.v.nonce, cfg.verifier.reference);
      BeforeKept(s.trace, e, |s.trace|, f);
    }
  }

  lemma {:induction false} AcceptKeeps(cfg: Config, s: System, payload: Bytes, env: P.Surroundings, m: Msg,
                                       saved: bool, s': System)
    requires Invariant(cfg, s) && UnforgedRequest(cfg, s, payload)
    requires P.Acceptable(cfg.h, s.p, payload, env, REPORT_LEN) == Some(m)
    requires SaveStep(Rec(cfg), s.pStore, m.counter, saved, s'.pStore)
    requires s' == s.(p := P.Handled(cfg.h, s.p, payload, env, REPORT_LEN, saved).0, pStore := s'.pStore,
                      trace := s.trace + Handling(s.p, payload, env, saved, cfg.h))
    ensures Invariant(cfg, s')
  {
    RequestRoundTrip(payload, m);
    KnownRequest(s.trace, m.counter, m.vs, m.nonce);
    if !saved {
      assert s.trace + [] == s.trace;
      FailedCommitKeeps(cfg, s, m, s');
    } else {
      var t := s'.(trace := s.trace + [Accepted(m.counter)]);
      CommitKeeps(cfg, s, m, t);
      if env.memory.Some? && env.macOk {
        var f := Reported(m.counter, m.nonce, m.vs, env.memory.value, P.Compared(cfg.h, s.p, env.memory.value, m));
        assert s'.trace == t.trace + [f];
        ReportKeeps(cfg, s, m, t, f, s');
      }
    }
  }

  lemma {:induction false} FailedCommitKeeps(cfg: Config, s: System, m: Msg, t: System)
    requires Invariant(cfg, s) && Before(s.trace, |s.trace|, Released(m.counter, m.nonce, m.vs))
    requires SaveStep(Rec(cfg), s.pStore, m.counter, false, t.pStore)
    requires t == s.(p := s.p.(ready := false), pStore := t.pStore)
    ensures Invariant(cfg, t)
  {
    BeforeReleased(s.trace, |s.trace|, m.counter, m.nonce, m.vs);
    ProverSaves(cfg, s, m.counter, false, t.pStore);
  }

  lemma {:induction false} CommitKeeps(cfg: Config, s: System, m: Msg, t: System)
    requires Invariant(cfg, s) && s.p.ready && Before(s.trace, |s.trace|, Released(m.counter, m.nonce, m.vs))
    requires SaveStep(Rec(cfg), s.pStore, m.counter, true, t.pStore)
    requires t == s.(p := s.p.(material := s.p.material.(counter := m.counter)), pStore := t.pStore,
                     trace := s.trace + [Accepted(m.counter)])
    ensures Invariant(cfg, t)
  {
    var e := Accepted(m.counter);
    BeforeReleased(s.trace, |s.trace|, m.counter, m.nonce, m.vs);
    ProverSaves(cfg, s, m.counter, true, t.pStore);
    AcceptedSound(cfg, s.trace, e);
    BoundedNext(cfg, s.(pStore := t.pStore), e);
    SessionNext(cfg, s, e);
    AcceptedDurable(cfg, s, m.counter, t);
  }

  lemma {:induction false} AcceptedSound(cfg: Config, tr: Trace, e: Event)
    requires Sound(cfg, tr) && e.Accepted? && ReleasedBefore(tr, |tr|, e.counter)
    requires forall i | 0 <= i < |tr| && tr[i].Accepted? :: tr[i].counter < e.counter
    ensures Sound(cfg, tr + [e])
  {
    ReleasedKept(tr, e, |tr|, e.counter);
    SoundNext(cfg, tr, e);
  }

  lemma {:induction false} AcceptedDurable(cfg: Config, s: System, c: u32, t: System)
    requires Durable(cfg, s) && t.trace == s.trace + [Accepted(c)] && t.vStore == s.vStore
    requires AtLeast(Rec(cfg), cfg.prover.counter, t.pStore, c)
    requires forall i | 0 <= i < |s.trace| && s.trace[i].Accepted? ::
               AtLeast(Rec(cfg), cfg.prover.counter, t.pStore, s.trace[i].counter)
    ensures Durable(cfg, t)
  {
  }

  lemma {:induction false} ReportKeeps(cfg: Config, s: System, m: Msg, t: System, f: Event, s': System)
    requires Sound(cfg, s.trace) && Before(s.trace, |s.trace|, Released(m.counter, m.nonce, m.vs))
    requires Invariant(cfg, t) && t.trace == s.trace + [Accepted(m.counter)]
    requires f.Reported? && f.counter == m.counter && f.nonce == m.nonce && f.vs == m.vs
    requires f.result == if cfg.h(cfg.prover.kAttest, f.memory) == f.vs then 1 else 0
    requires s' == t.(trace := t.trace + [f])
    ensures Invariant(cfg, s')
  {
    var e := Accepted(m.counter);
    BeforeKept(s.trace, e, |s.trace|, Released(m.counter, m.nonce, m.vs));
    BeforeKept(t.trace, f, |s.trace|, Released(m.counter, m.nonce, m.vs));
    assert s'.trace[|s.trace|] == e;
    forall i | 0 <= i < |s.trace| && s.trace[i].Accepted? ensures s.trace[i].counter < m.counter {
      assert t.trace[i] == s.trace[i] && t.trace[|s.trace|] == e && SameKind(t.trace[i], t.trace[|s.trace|]);
    }
    ReportsBelow(cfg, s.trace, m.counter);
    SoundNext(cfg, t.trace, f);
    BoundedNext(cfg, t, f);
    SessionNext(cfg, t, f);
  }

  lemma {:induction false} StepKeepsInvariant(cfg: Config, s: System, step: Step, s': System)
    requires Invariant(cfg, s) && Next(cfg, s, step, s')
    ensures Invariant(cfg, s')
  {
    match step
    case VerifierBoot(ok) => VerifierBootKeeps(cfg, s, ok, s');
    case VerifierPoll(now) => PollKeeps(cfg, s, now, s');
    case VerifierChallenge(draw, saved) => ChallengeKeeps(cfg, s, draw, saved, s');
    case VerifierSendFailure => SendFailureKeeps(cfg, s, s');
    case VerifierInput(input, now, later, macOk) => VerifierInputKeeps(cfg, s, input, now, later, macOk, s');
    case ProverBoot(ok) => ProverBootKeeps(cfg, s, ok, s');
    case ProverInput(input, env, saved) => ProverInputKeeps(cfg, s, input, env, saved, s');
  }

  lemma {:induction false} RunKeeps(cfg: Config, ss: seq<System>, steps: seq<Step>, n: nat)
    requires Run(cfg, ss, steps) && n <= |steps|
    ensures Invariant(cfg, ss[n])
    decreases n
  {
    if n == 0 {
      InitialHolds(cfg, ss[0]);
    } else {
      RunKeeps(cfg, ss, steps, n - 1);
      assert StepAt(cfg, ss, steps, n - 1);
      StepKeepsInvariant(cfg, ss[n - 1], steps[n - 1], ss[n]);
    }
  }

  // ----- Theorems about whole runs -----

  /** End-to-end agreement. Whatever the link does and whenever either device loses power, when
      the verifier decides PASS for a counter and a nonce, the prover has processed exactly that
      challenge, after it was released, with the verifier's reference in it, and measured memory
      whose HMAC is that reference. */
  lemma {:induction false} Agreement(cfg: Config, ss: seq<System>, steps: seq<Step>, n: nat, k: nat)
    returns (i: nat, j: nat)
    requires Run(cfg, ss, steps) && n <= |steps|
    requires k < |ss[n].trace| && ss[n].trace[k].Decided? && ss[n].trace[k].pass
    ensures i < j < k
    ensures var tr := ss[n].trace;
            && tr[i] == Released(tr[k].counter, tr[k].nonce, cfg.verifier.reference)
            && tr[j].Reported? && tr[j].counter == tr[k].counter && tr[j].nonce == tr[k].nonce
            && tr[j].vs == cfg.verifier.reference == cfg.h(cfg.prover.kAttest, tr[j].memory)
  {
    RunKeeps(cfg, ss, steps, n);
    i, j := PassMeansAttested(cfg, ss[n].trace, k);
  }

  /** When a step of the verifier decides, its verdict is the last event of the trace. */
  lemma {:induction false} VerdictIsRecorded(cfg: Config, s: System, input: Input, now: u32, later: u32,
                                             macOk: bool, s': System)
    requires Next(cfg, s, VerifierInput(input, now, later, macOk), s')
    requires var out := Reception.Handle(s.vLink, input, cfg.frameTimeout, REQUEST_LEN).1;
             out.Frame? && out.kind == RESPONSE
    ensures var payload := Reception.Handle(s.vLink, input, cfg.frameTimeout, REQUEST_LEN).1.payload;
            var r := V.Verified(cfg.h, s.v, payload, macOk, now, later).1;
            r in {V.Pass, V.Mismatch} <==>
              s'.trace == s.trace + [Decided(s.v.material.counter, s.v.nonce, r == V.Pass)]
  {
    var payload := Reception.Handle(s.vLink, input, cfg.frameTimeout, REQUEST_LEN).1.payload;
    var r := V.Verified(cfg.h, s.v, payload, macOk, now, later).1;
    if r == V.Timeout {
      assert s'.trace[|s.trace|] == Abandoned(s.v.material.counter);
    } else if r == V.Invalid {
      assert |s'.trace| == |s.trace|;
    }
  }

  /** No two released challenges share a counter, the prover accepts each counter at most once,
      and each challenge comes to at most one end: one verdict, or none once it was given up. */
  lemma {:induction false} CountersAreUnique(cfg: Config, ss: seq<System>, steps: seq<Step>, n: nat, i: nat, j: nat)
    requires Run(cfg, ss, steps) && n <= |steps|
    requires i < j < |ss[n].trace| && SameKind(ss[n].trace[i], ss[n].trace[j])
    ensures ss[n].trace[i].counter < ss[n].trace[j].counter
  {
    RunKeeps(cfg, ss, steps, n);
  }

  /** In every reachable state the counter that the prover would load, or works with, is at most
      the one that the verifier would load, or works with. So the next challenge is never stale,
      unless the verifier's counter is exhausted. */
  lemma {:induction false} ProverNeverAhead(cfg: Config, ss: seq<System>, steps: seq<Step>, n: nat, q: Position,
                                            p: Position)
    requires Run(cfg, ss, steps) && n <= |steps|
    requires Recovers(Rec(cfg), ss[n].pStore.img, cfg.prover.counter, q)
    requires Recovers(Rec(cfg), ss[n].vStore.img, cfg.verifier.counter, p)
    ensures q.counter <= p.counter
    ensures ss[n].p.ready ==> ss[n].p.material.counter == q.counter
    ensures ss[n].v.ready ==> ss[n].v.material.counter == p.counter
  {
    var s := ss[n];
    RunKeeps(cfg, ss, steps, n);
    RunStartsBehind(cfg, ss, steps);
    RecordsAreTornProof(cfg.h, cfg.verifier.kAuth);
    assert Justified(cfg, s.trace, q.counter);
    if s.p.ready {
      RecoversUnique(Rec(cfg), s.pStore.img, cfg.prover.counter, s.pStore.ram.value, q);
    }
    if s.v.ready {
      RecoversUnique(Rec(cfg), s.vStore.img, cfg.verifier.counter, s.vStore.ram.value, p);
    }
  }

  lemma {:induction false} RunStartsBehind(cfg: Config, ss: seq<System>, steps: seq<Step>)
    requires Run(cfg, ss, steps)
    ensures cfg.prover.counter <= cfg.verifier.counter
  {
  }

  /** A verifier that is ready and has nothing outstanding gets as far as committing its next challenge,
      and that challenge, delivered intact to a prover that is ready, is accepted. */
  lemma {:induction false} NextChallengeIsFresh(cfg: Config, ss: seq<System>, steps: seq<Step>, n: nat,
                                                draw: V.Draw, env: P.Surroundings)
    requires Run(cfg, ss, steps) && n <= |steps|
    requires ss[n].v.ready && !ss[n].v.outstanding && ss[n].v.material.counter < UINT32_MAX
    requires draw.randomOk && draw.macOk && ss[n].p.ready && env.checkOk
    ensures V.Commits(ss[n].v, draw, REQUEST_LEN)
    ensures var m := V.NextChallenge(cfg.h, ss[n].v, draw.nonce);
            P.Acceptable(cfg.h, ss[n].p, RequestBytes(m), env, REPORT_LEN) == Some(m)
  {
    var s := ss[n];
    RunKeeps(cfg, ss, steps, n);
    ProverNeverAhead(cfg, ss, steps, n, s.pStore.ram.value, s.vStore.ram.value);
    var m := V.NextChallenge(cfg.h, s.v, draw.nonce);
    RequestRoundTrip(RequestBytes(m), m);
  }

  /** A request that the prover has accepted once, whenever it comes again and whatever happened
      in between, is neither answered nor acted upon. */
  lemma {:induction false} ReplayIsHarmless(cfg: Config, ss: seq<System>, steps: seq<Step>, n: nat, k: nat, req: Bytes,
                                            env: P.Surroundings, saved: bool)
    requires Run(cfg, ss, steps) && n <= |steps|
    requires k < |ss[n].trace| && ss[n].trace[k].Accepted?
    requires ParseMsg(req).Some? && ParseMsg(req).value.counter == ss[n].trace[k].counter
    ensures P.Handled(cfg.h, ss[n].p, req, env, REPORT_LEN, saved) == (ss[n].p, None)
    ensures Handling(ss[n].p, req, env, saved, cfg.h) == []
  {
    var s := ss[n];
    RunKeeps(cfg, ss, steps, n);
    assert AtLeast(Rec(cfg), cfg.prover.counter, s.pStore, s.trace[k].counter);
  }

  /** While a challenge is outstanding, the session's counter and nonce are those of the last
      challenge released, and that challenge has not come to an end. */
  lemma {:induction false} OutstandingIsLast(cfg: Config, ss: seq<System>, steps: seq<Step>, n: nat) returns (i: nat)
    requires Run(cfg, ss, steps) && n <= |steps| && ss[n].v.outstanding
    ensures i < |ss[n].trace|
    ensures var (tr, v) := (ss[n].trace, ss[n].v);
            && tr[i] == Released(v.material.counter, v.nonce, cfg.verifier.reference)
            && forall j | i < j < |tr| :: !tr[j].Released? && (Ends(tr[j]) ==> tr[j].counter != v.material.counter)
  {
    RunKeeps(cfg, ss, steps, n);
    var (tr, v) := (ss[n].trace, ss[n].v);
    i :| 0 <= i < |tr| && tr[i] == Released(v.material.counter, v.nonce, cfg.verifier.reference);
    forall j | i < j < |tr| ensures !tr[j].Released? {
      if tr[j].Released? {
        assert SameKind(tr[i], tr[j]);
      }
    }
  }
}
