/** The deadline of one challenge on a clock that wraps around, against the same deadline on real
    time. */
module Deadlines {
  import opened Bytes
  import opened Clock
  import V = Verifier

  /** What the verifier is asked to do after the release, at real times: a response is judged
      between `begin` and `end`. */
  datatype Action = Poll(begin: nat) | Judge(begin: nat, response: Bytes, macOk: bool, end: nat)

  /** The device's own answer, from the 32-bit readings of its clock. */
  function Act(h: Mac, v: V.Session, a: Action): (V.Session, V.Result) {
    match a
    case Poll(t) => V.Polled(v, Tick(t))
    case Judge(t, response, macOk, e) => V.Verified(h, v, response, macOk, Tick(t), Tick(e))
  }

  function Serve(h: Mac, v: V.Session, actions: seq<Action>): (res: (V.Session, seq<V.Result>))
    ensures |res.1| == |actions|
  {
    if actions == [] then (v, [])
    else
      var (before, results) := Serve(h, v, actions[..|actions| - 1]);
      var (after, r) := Act(h, before, actions[|actions| - 1]);
      (after, results + [r])
  }

  lemma {:induction false} ServeLast(h: Mac, v: V.Session, actions: seq<Action>, before: V.Session,
                                     results: seq<V.Result>)
    requires actions != [] && Serve(h, v, actions[..|actions| - 1]) == (before, results)
    ensures var (after, r) := Act(h, before, actions[|actions| - 1]);
            Serve(h, v, actions) == (after, results + [r])
  {
  }

  /** Whatever the clock shows, while nothing but invalid responses and idle polls come up, nothing about
      the session changes. */
  lemma {:induction false} InvalidChangesNothing(h: Mac, v: V.Session, actions: seq<Action>)
    requires forall k | 0 <= k < |actions| :: Serve(h, v, actions).1[k] in {V.Idle, V.Invalid}
    ensures Serve(h, v, actions).0 == v
    decreases |actions|
  {
    if actions != [] {
      var n := |actions| - 1;
      var (before, results) := Serve(h, v, actions[..n]);
      forall k | 0 <= k < n ensures results[k] in {V.Idle, V.Invalid} {
        assert Serve(h, v, actions).1[k] == results[k];
      }
      InvalidChangesNothing(h, v, actions[..n]);
      assert Serve(h, v, actions).1[n] == Act(h, before, actions[n]).1;
    }
  }

  // ----- The same on real time -----

  /** Settles the challenge of session `v` whose deadline is `deadline`. */
  predicate Settles(h: Mac, v: V.Session, deadline: nat, a: Action) {
    a.begin >= deadline || (a.Judge? && V.Authentic(h, v, a.response, a.macOk).Some?)
  }

  function Settlement(h: Mac, v: V.Session, deadline: nat, a: Action): V.Result
    requires Settles(h, v, deadline, a)
  {
    if a.begin >= deadline || a.end >= deadline then V.Timeout
    else if V.Authentic(h, v, a.response, a.macOk).value.result == 1 then V.Pass
    else V.Mismatch
  }

  function Nothing(a: Action): V.Result {
    if a.Poll? then V.Idle else V.Invalid
  }

  /** The answer to action `k`: the first action that settles the challenge does so for good. */
  ghost function OnTime(h: Mac, v: V.Session, deadline: nat, actions: seq<Action>, k: nat): V.Result
    requires k < |actions|
  {
    if Settles(h, v, deadline, actions[k]) && Open(h, v, deadline, actions, k)
    then Settlement(h, v, deadline, actions[k])
    else Nothing(actions[k])
  }

  /** None of the first `n` actions settles the challenge. */
  ghost predicate Open(h: Mac, v: V.Session, deadline: nat, actions: seq<Action>, n: nat)
    requires n <= |actions|
  {
    forall j | 0 <= j < n :: !Settles(h, v, deadline, actions[j])
  }

  /** Action `k` begins no more than `gap` after the one before it, and takes no longer. */
  predicate Follows(t0: nat, gap: nat, actions: seq<Action>, k: nat)
    requires k < |actions|
  {
    var last := if k == 0 then t0 else actions[k - 1].begin;
    && last <= actions[k].begin <= last + gap
    && (actions[k].Judge? ==> actions[k].begin <= actions[k].end <= actions[k].begin + gap)
  }

  /** From the release at `t0` on, no two actions begin more than `gap` apart. */
  predicate Attentive(t0: nat, gap: nat, actions: seq<Action>) {
    forall k | 0 <= k < |actions| :: Follows(t0, gap, actions, k)
  }

  ghost predicate Outstanding(v: V.Session, t0: nat) {
    v.ready && v.outstanding && v.started == Tick(t0) && 0 < v.timeout
  }

  /** One action while the challenge is open, no later than one wrap after the release. */
  lemma {:induction false} OneAction(h: Mac, v: V.Session, t0: nat, a: Action)
    requires Outstanding(v, t0) && t0 <= a.begin < t0 + WRAP
    requires a.Judge? && a.begin < t0 + v.timeout ==> a.begin <= a.end < t0 + WRAP
    ensures var d := t0 + v.timeout;
            Act(h, v, a) == if Settles(h, v, d, a) then (V.Cancelled(v), Settlement(h, v, d, a)) else (v, Nothing(a))
  {
    ExpiredExact(a.begin, t0, v.timeout);
    if a.Judge? && a.begin < t0 + v.timeout {
      ExpiredExact(a.end, t0, v.timeout);
    }
  }

  lemma {:induction false} ClosedAction(h: Mac, v: V.Session, a: Action)
    requires !v.outstanding
    ensures Act(h, v, a) == (v, Nothing(a))
  {
  }

  /** The session after a run in which the challenge stayed open, or did not. */
  ghost function After(h: Mac, v: V.Session, deadline: nat, actions: seq<Action>, n: nat): V.Session
    requires n <= |actions|
  {
    if Open(h, v, deadline, actions, n) then v else V.Cancelled(v)
  }

  lemma {:induction false} OpenFront(h: Mac, v: V.Session, deadline: nat, actions: seq<Action>, n: nat)
    requires n <= |actions|
    ensures Open(h, v, deadline, actions[..n], n) <==> Open(h, v, deadline, actions, n)
  {
  }

  lemma {:induction false} LastAction(h: Mac, v: V.Session, t0: nat, actions: seq<Action>, n: nat)
    requires Outstanding(v, t0) && Attentive(t0, WRAP - v.timeout, actions) && n < |actions|
    ensures var deadline := t0 + v.timeout;
            Act(h, After(h, v, deadline, actions, n), actions[n])
            == (After(h, v, deadline, actions, n + 1), OnTime(h, v, deadline, actions, n))
  {
    assert Follows(t0, WRAP - v.timeout, actions, n);
    if Open(h, v, t0 + v.timeout, actions, n) {
      BeginsInTime(h, v, t0, actions, n);
      OneAction(h, v, t0, actions[n]);
    } else {
      ClosedAction(h, V.Cancelled(v), actions[n]);
    }
  }

  lemma {:induction false} OnTimeFront(h: Mac, v: V.Session, deadline: nat, actions: seq<Action>, n: nat, k: nat)
    requires k < n <= |actions|
    ensures OnTime(h, v, deadline, actions[..n], k) == OnTime(h, v, deadline, actions, k)
  {
    assert Open(h, v, deadline, actions[..n], k) <==> Open(h, v, deadline, actions, k);
  }

  lemma {:induction false} AttentiveFront(t0: nat, gap: nat, actions: seq<Action>, n: nat)
    requires Attentive(t0, gap, actions) && n <= |actions|
    ensures Attentive(t0, gap, actions[..n])
  {
    forall k | 0 <= k < n ensures Follows(t0, gap, actions[..n], k) {
      assert Follows(t0, gap, actions, k);
    }
  }

  lemma {:induction false} BeginsInTime(h: Mac, v: V.Session, t0: nat, actions: seq<Action>, n: nat)
    requires 0 < v.timeout && Attentive(t0, WRAP - v.timeout, actions) && n < |actions|
    requires Open(h, v, t0 + v.timeout, actions, n)
    ensures t0 <= actions[n].begin < t0 + WRAP
    decreases n
  {
    assert Follows(t0, WRAP - v.timeout, actions, n);
    if n != 0 {
      BeginsInTime(h, v, t0, actions, n - 1);
      assert !Settles(h, v, t0 + v.timeout, actions[n - 1]);
    }
  }

  ghost function AllOnTime(h: Mac, v: V.Session, deadline: nat, actions: seq<Action>): seq<V.Result> {
    seq(|actions|, k requires 0 <= k < |actions| => OnTime(h, v, deadline, actions, k))
  }

  lemma {:induction false} OneMoreOnTime(h: Mac, v: V.Session, deadline: nat, actions: seq<Action>)
    requires actions != []
    ensures var n := |actions| - 1;
            AllOnTime(h, v, deadline, actions)
            == AllOnTime(h, v, deadline, actions[..n]) + [OnTime(h, v, deadline, actions, n)]
  {
    var n := |actions| - 1;
    forall k | 0 <= k < n ensures OnTime(h, v, deadline, actions[..n], k) == OnTime(h, v, deadline, actions, k) {
      OnTimeFront(h, v, deadline, actions, n, k);
    }
  }

  /** With actions no further apart than 2^32 ms less the timeout, the device's answers are
      exactly those on real time, and the challenge stays open exactly until it is settled. */
  lemma {:induction false} DeadlineIsExact(h: Mac, v: V.Session, t0: nat, actions: seq<Action>)
    requires Outstanding(v, t0) && Attentive(t0, WRAP - v.timeout, actions)
    ensures Serve(h, v, actions) ==
              (After(h, v, t0 + v.timeout, actions, |actions|), AllOnTime(h, v, t0 + v.timeout, actions))
    decreases |actions|
  {
    var deadline := t0 + v.timeout;
    if actions == [] {
      assert AllOnTime(h, v, deadline, actions) == [];
    } else {
      var n := |actions| - 1;
      AttentiveFront(t0, WRAP - v.timeout, actions, n);
      DeadlineIsExact(h, v, t0, actions[..n]);
      OpenFront(h, v, deadline, actions, n);
      LastAction(h, v, t0, actions, n);
      OneMoreOnTime(h, v, deadline, actions);
      ServeLast(h, v, actions, After(h, v, deadline, actions, n), AllOnTime(h, v, deadline, actions[..n]));
    }
  }

  /** A verdict is only ever passed before the deadline, on an authentic response. */
  lemma {:induction false} VerdictIsInTime(h: Mac, v: V.Session, t0: nat, actions: seq<Action>, k: nat)
    requires Outstanding(v, t0) && Attentive(t0, WRAP - v.timeout, actions) && k < |actions|
    requires Serve(h, v, actions).1[k] in {V.Pass, V.Mismatch}
    ensures actions[k].Judge? && actions[k].begin <= actions[k].end < t0 + v.timeout
    ensures V.Authentic(h, v, actions[k].response, actions[k].macOk).Some?
  {
    DeadlineIsExact(h, v, t0, actions);
    assert Follows(t0, WRAP - v.timeout, actions, k);
    assert OnTime(h, v, t0 + v.timeout, actions, k) == Serve(h, v, actions).1[k];
  }

  /** The first action at or past the deadline ends the challenge, unless an authentic response
      has done so before. */
  lemma {:induction false} FirstPastDeadline(h: Mac, v: V.Session, t0: nat, actions: seq<Action>, k: nat)
    requires Outstanding(v, t0) && Attentive(t0, WRAP - v.timeout, actions) && k < |actions|
    requires actions[k].begin >= t0 + v.timeout && forall j | 0 <= j < k :: actions[j].begin < t0 + v.timeout
    ensures Serve(h, v, actions).1[k] == V.Timeout
            || exists j | 0 <= j < k :: actions[j].Judge? && V.Authentic(h, v, actions[j].response, actions[j].macOk).Some?
  {
    DeadlineIsExact(h, v, t0, actions);
    assert OnTime(h, v, t0 + v.timeout, actions, k) == Serve(h, v, actions).1[k];
  }

  /** A challenge comes to at most one end, and until then nothing about the session changes. */
  lemma {:induction false} OneEnd(h: Mac, v: V.Session, t0: nat, actions: seq<Action>, i: nat, j: nat)
    requires Outstanding(v, t0) && Attentive(t0, WRAP - v.timeout, actions) && i < j < |actions|
    requires Serve(h, v, actions).1[j] in {V.Timeout, V.Pass, V.Mismatch}
    ensures Serve(h, v, actions).1[i] == Nothing(actions[i])
    ensures Serve(h, v, actions[..j]).0 == v
  {
    DeadlineIsExact(h, v, t0, actions);
    assert OnTime(h, v, t0 + v.timeout, actions, j) == Serve(h, v, actions).1[j];
    assert OnTime(h, v, t0 + v.timeout, actions, i) == Serve(h, v, actions).1[i];
    AttentiveFront(t0, WRAP - v.timeout, actions, j);
    DeadlineIsExact(h, v, t0, actions[..j]);
    OpenFront(h, v, t0 + v.timeout, actions, j);
  }

  /** The bound on the gaps is the right one: polled one millisecond after it, the device takes a
      challenge that is long over to be pending still. */
  lemma {:induction false} OneMillisecondMore(h: Mac, v: V.Session, t0: nat)
    requires Outstanding(v, t0) && v.timeout <= V.INT32_MAX
    ensures var actions := [Poll(t0 + v.timeout - 1), Poll(t0 + WRAP)];
            Attentive(t0, WRAP - v.timeout + 1, actions) && Serve(h, v, actions) == (v, [V.Idle, V.Idle])
  {
    var actions := [Poll(t0 + v.timeout - 1), Poll(t0 + WRAP)];
    ExpiredExact(t0 + v.timeout - 1, t0, v.timeout);
    ExpiredForgets(t0, v.timeout);
    var early := actions[..1];
    assert early == [actions[0]] && early[..0] == [];
    ServeLast(h, v, early, v, []);
    assert [] + [V.Idle] == [V.Idle];
    assert actions[..1] == early;
    ServeLast(h, v, actions, v, [V.Idle]);
    assert [V.Idle] + [V.Idle] == [V.Idle, V.Idle];
  }
}
