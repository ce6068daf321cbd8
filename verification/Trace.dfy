/** What the two devices have done so far, in the order in which they did it. */
module Trace {
  import opened Bytes
  import opened Simple
  import opened Verifier

  datatype Event =
    | Released(counter: u32, nonce: Nonce, vs: Digest)
    | Accepted(counter: u32)
    | Reported(counter: u32, nonce: Nonce, vs: Digest, memory: Bytes, result: byte)
    | Decided(counter: u32, nonce: Nonce, pass: bool)
    | Abandoned(counter: u32)

  type Trace = seq<Event>

  /** What both devices were provisioned with. */
  datatype Config = Config(h: Mac, verifier: Material, prover: Material, timeout: u32, frameTimeout: u32)

  /** The outstanding challenge with this counter came to its end here. */
  predicate Ends(e: Event) {
    e.Decided? || e.Abandoned?
  }

  predicate SameKind(e: Event, f: Event) {
    (e.Released? && f.Released?) || (e.Accepted? && f.Accepted?) || (e.Reported? && f.Reported?) || (Ends(e) && Ends(f))
  }

  /** Challenges, acceptances and reports are each made once per counter, in increasing order;
      so is the end of a challenge. */
  ghost predicate Increasing(tr: Trace) {
    forall i, j | 0 <= i < j < |tr| && SameKind(tr[i], tr[j]) :: tr[i].counter < tr[j].counter
  }

  /** Some event before `n` is `e`. */
  ghost predicate Before(tr: Trace, n: nat, e: Event) {
    exists i | 0 <= i < n && i < |tr| :: tr[i] == e
  }

  ghost predicate ReleasedBefore(tr: Trace, n: nat, counter: u32) {
    exists i | 0 <= i < n && i < |tr| :: tr[i].Released? && tr[i].counter == counter
  }

  ghost predicate ReportedBefore(tr: Trace, n: nat, counter: u32, nonce: Nonce, result: byte) {
    exists i | 0 <= i < n && i < |tr| ::
      tr[i].Reported? && tr[i].counter == counter && tr[i].nonce == nonce && tr[i].result == result
  }

  /** Each event is backed by an earlier one of the other device, with the same contents. */
  ghost predicate Backed(cfg: Config, tr: Trace, n: nat)
    requires n < |tr|
  {
    match tr[n]
    case Released(c, nonce, vs) => vs == cfg.verifier.reference
    case Accepted(c) => ReleasedBefore(tr, n, c)
    case Reported(c, nonce, vs, memory, result) =>
      && Before(tr, n, Released(c, nonce, vs)) && Before(tr, n, Accepted(c))
      && result == (if cfg.h(cfg.prover.kAttest, memory) == vs then 1 else 0)
    case Decided(c, nonce, pass) => ReleasedBefore(tr, n, c) && ReportedBefore(tr, n, c, nonce, if pass then 1 else 0)
    case Abandoned(c) => ReleasedBefore(tr, n, c)
  }

  ghost predicate Sound(cfg: Config, tr: Trace) {
    Increasing(tr) && forall n | 0 <= n < |tr| :: Backed(cfg, tr, n)
  }

  /** A tag under the shared key for this input may be in the hands of the environment: one of
      the devices has released it, or it is that of a journal record. */
  ghost predicate Known(tr: Trace, input: Bytes) {
    || (exists i | 0 <= i < |tr| :: tr[i].Released? && input == RequestBody(tr[i].counter, tr[i].vs, tr[i].nonce))
    || (exists i | 0 <= i < |tr| :: tr[i].Reported? && input == ReportInput(tr[i].result, tr[i].counter, tr[i].nonce))
    || (exists c: u32 :: input == RecordInput(c))
  }

  /** By domain separation, a known tag on a request body is that of a released challenge. */
  lemma {:induction false} KnownRequest(tr: Trace, c: u32, vs: Digest, nonce: Nonce)
    requires Known(tr, RequestBody(c, vs, nonce))
    ensures Before(tr, |tr|, Released(c, nonce, vs))
  {
    var role := RequestRole(c, vs, nonce);
    if i :| 0 <= i < |tr| && tr[i].Released? && AuthInput(role) == RequestBody(tr[i].counter, tr[i].vs, tr[i].nonce) {
      DomainSeparation(role, RequestRole(tr[i].counter, tr[i].vs, tr[i].nonce));
      assert tr[i] == Released(c, nonce, vs);
    } else if i :| 0 <= i < |tr| && tr[i].Reported?
                   && AuthInput(role) == ReportInput(tr[i].result, tr[i].counter, tr[i].nonce) {
      DomainSeparation(role, ReportRole(tr[i].result, tr[i].counter, tr[i].nonce));
    } else {
      var d: u32 :| AuthInput(role) == RecordInput(d);
      DomainSeparation(role, RecordRole(d));
    }
  }

  /** And a known tag on a report input is that of a released report. */
  lemma {:induction false} KnownReport(tr: Trace, result: byte, c: u32, nonce: Nonce)
    requires Known(tr, ReportInput(result, c, nonce))
    ensures ReportedBefore(tr, |tr|, c, nonce, result)
  {
    var role := ReportRole(result, c, nonce);
    if i :| 0 <= i < |tr| && tr[i].Reported? && AuthInput(role) == ReportInput(tr[i].result, tr[i].counter, tr[i].nonce) {
      DomainSeparation(role, ReportRole(tr[i].result, tr[i].counter, tr[i].nonce));
      assert tr[i].Reported? && tr[i].counter == c && tr[i].nonce == nonce && tr[i].result == result;
    } else if i :| 0 <= i < |tr| && tr[i].Released? && AuthInput(role) == RequestBody(tr[i].counter, tr[i].vs, tr[i].nonce) {
      DomainSeparation(role, RequestRole(tr[i].counter, tr[i].vs, tr[i].nonce));
    } else {
      var d: u32 :| AuthInput(role) == RecordInput(d);
      DomainSeparation(role, RecordRole(d));
    }
  }

  lemma {:induction false} BackedKept(cfg: Config, tr: Trace, e: Event, n: nat)
    requires n < |tr| && Backed(cfg, tr, n)
    ensures Backed(cfg, tr + [e], n)
  {
    match tr[n]
    case Released(c, nonce, vs) =>
    case Accepted(c) => ReleasedKept(tr, e, n, c);
    case Reported(c, nonce, vs, memory, result) =>
      BeforeKept(tr, e, n, Released(c, nonce, vs));
      BeforeKept(tr, e, n, Accepted(c));
    case Decided(c, nonce, pass) =>
      ReleasedKept(tr, e, n, c);
      ReportedKept(tr, e, n, c, nonce, if pass then 1 else 0);
    case Abandoned(c) => ReleasedKept(tr, e, n, c);
  }

  lemma {:induction false} BeforeKept(tr: Trace, e: Event, n: nat, f: Event)
    requires n <= |tr| && Before(tr, n, f)
    ensures Before(tr + [e], n, f)
  {
    var i :| 0 <= i < n && tr[i] == f;
    assert (tr + [e])[i] == f;
  }

  lemma {:induction false} ReleasedKept(tr: Trace, e: Event, n: nat, c: u32)
    requires n <= |tr| && ReleasedBefore(tr, n, c)
    ensures ReleasedBefore(tr + [e], n, c)
  {
    var i :| 0 <= i < n && tr[i].Released? && tr[i].counter == c;
    assert (tr + [e])[i] == tr[i];
  }

  lemma {:induction false} ReportedKept(tr: Trace, e: Event, n: nat, c: u32, nonce: Nonce, result: byte)
    requires n <= |tr| && ReportedBefore(tr, n, c, nonce, result)
    ensures ReportedBefore(tr + [e], n, c, nonce, result)
  {
    var i :| 0 <= i < n && tr[i].Reported? && tr[i].counter == c && tr[i].nonce == nonce && tr[i].result == result;
    assert (tr + [e])[i] == tr[i];
  }

  /** An event that is backed, and newer than all of its kind, keeps the trace sound. */
  lemma {:induction false} SoundNext(cfg: Config, tr: Trace, e: Event)
    requires Sound(cfg, tr) && Backed(cfg, tr + [e], |tr|)
    requires forall i | 0 <= i < |tr| && SameKind(tr[i], e) :: tr[i].counter < e.counter
    ensures Sound(cfg, tr + [e])
  {
    forall n | 0 <= n < |tr| ensures Backed(cfg, tr + [e], n) {
      BackedKept(cfg, tr, e, n);
    }
  }

  // ----- What a sound trace is worth -----

  /** A PASS for a challenge means that, after this very challenge was released, the prover
      processed it, carrying the verifier's reference, and found memory with that HMAC. */
  lemma {:induction false} PassMeansAttested(cfg: Config, tr: Trace, k: nat) returns (i: nat, j: nat)
    requires Sound(cfg, tr) && k < |tr| && tr[k].Decided? && tr[k].pass
    ensures i < j < k
    ensures tr[i] == Released(tr[k].counter, tr[k].nonce, cfg.verifier.reference)
    ensures tr[j].Reported? && tr[j].counter == tr[k].counter && tr[j].nonce == tr[k].nonce
    ensures tr[j].vs == cfg.verifier.reference == cfg.h(cfg.prover.kAttest, tr[j].memory)
  {
    assert Backed(cfg, tr, k);
    j :| 0 <= j < k && tr[j].Reported? && tr[j].counter == tr[k].counter && tr[j].nonce == tr[k].nonce && tr[j].result == 1;
    assert Backed(cfg, tr, j);
    i :| 0 <= i < j && tr[i] == Released(tr[j].counter, tr[j].nonce, tr[j].vs);
    assert Backed(cfg, tr, i);
  }

  /** A MISMATCH means that the prover processed this very challenge and found other memory. */
  lemma {:induction false} MismatchMeansOtherMemory(cfg: Config, tr: Trace, k: nat) returns (i: nat, j: nat)
    requires Sound(cfg, tr) && k < |tr| && tr[k].Decided? && !tr[k].pass
    ensures i < j < k
    ensures tr[i] == Released(tr[k].counter, tr[k].nonce, cfg.verifier.reference)
    ensures tr[j].Reported? && tr[j].counter == tr[k].counter && tr[j].nonce == tr[k].nonce
    ensures cfg.h(cfg.prover.kAttest, tr[j].memory) != cfg.verifier.reference
  {
    assert Backed(cfg, tr, k);
    j :| 0 <= j < k && tr[j].Reported? && tr[j].counter == tr[k].counter && tr[j].nonce == tr[k].nonce && tr[j].result == 0;
    assert Backed(cfg, tr, j);
    i :| 0 <= i < j && tr[i] == Released(tr[j].counter, tr[j].nonce, tr[j].vs);
    assert Backed(cfg, tr, i);
  }
}
