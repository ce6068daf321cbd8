/** Steps that lead from one state to another, and to no other, for any step relation. */
module Paths {

  /** What a step may do: the state before, the step, the state after. */
  type Relation<!S, !T> = (S, T, S) -> bool

  /** These steps lead from `s` to `t`. */
  ghost predicate Path<S(!new), T(!new)>(next: Relation<S, T>, s: S, steps: seq<T>, t: S)
    decreases |steps|
  {
    if steps == [] then t == s else
      var n := |steps| - 1;
      exists m :: Path(next, s, steps[..n], m) && next(m, steps[n], t)
  }

  /** The step leads to `t` and to no other state. */
  ghost predicate Surely<S(!new), T(!new)>(next: Relation<S, T>, s: S, step: T, t: S) {
    next(s, step, t) && forall u | next(s, step, u) :: u == t
  }

  /** These steps lead to `t` and to no other state. */
  ghost predicate Leads<S(!new), T(!new)>(next: Relation<S, T>, s: S, steps: seq<T>, t: S) {
    Path(next, s, steps, t) && forall u | Path(next, s, steps, u) :: u == t
  }

  lemma {:induction false} PathSnoc<S(!new), T(!new)>(next: Relation<S, T>, s: S, steps: seq<T>, m: S, step: T, t: S)
    requires Path(next, s, steps, m) && next(m, step, t)
    ensures Path(next, s, steps + [step], t)
  {
    assert (steps + [step])[..|steps|] == steps;
  }

  lemma {:induction false} PathEnds<S(!new), T(!new)>(next: Relation<S, T>, s: S, steps: seq<T>, m: S, t: S)
    requires steps != [] && Path(next, s, steps[..|steps| - 1], m) && next(m, steps[|steps| - 1], t)
    ensures Path(next, s, steps, t)
  {
  }

  lemma {:induction false} PathLast<S(!new), T(!new)>(next: Relation<S, T>, s: S, steps: seq<T>, t: S) returns (m: S)
    requires steps != [] && Path(next, s, steps, t)
    ensures Path(next, s, steps[..|steps| - 1], m) && next(m, steps[|steps| - 1], t)
  {
    m :| Path(next, s, steps[..|steps| - 1], m) && next(m, steps[|steps| - 1], t);
  }

  lemma {:induction false} PathOne<S(!new), T(!new)>(next: Relation<S, T>, s: S, step: T, t: S)
    requires next(s, step, t)
    ensures Path(next, s, [step], t)
  {
    PathSnoc(next, s, [], s, step, t);
    assert [] + [step] == [step];
  }

  lemma {:induction false} PathTwo<S(!new), T(!new)>(next: Relation<S, T>, s: S, a: T, m: S, b: T, t: S)
    requires next(s, a, m) && next(m, b, t)
    ensures Path(next, s, [a, b], t)
  {
    PathOne(next, s, a, m);
    PathSnoc(next, s, [a], m, b, t);
    assert [a] + [b] == [a, b];
  }

  lemma {:induction false} LastMoves<T>(a: seq<T>, b: seq<T>)
    requires b != []
    ensures (a + b)[..|a + b| - 1] == a + b[..|b| - 1] && (a + b)[|a + b| - 1] == b[|b| - 1]
    ensures a + b == a + b[..|b| - 1] + [b[|b| - 1]]
  {
  }

  lemma {:induction false} PathConcat<S(!new), T(!new)>(next: Relation<S, T>, s: S, a: seq<T>, m: S, b: seq<T>, t: S)
    requires Path(next, s, a, m) && Path(next, m, b, t)
    ensures Path(next, s, a + b, t)
    decreases |b|
  {
    if b == [] {
      assert a + b == a;
    } else {
      var n := |b| - 1;
      var u := PathLast(next, m, b, t);
      PathConcat(next, s, a, m, b[..n], u);
      PathSnoc(next, s, a + b[..n], u, b[n], t);
      LastMoves(a, b);
    }
  }

  lemma {:induction false} PathSplit<S(!new), T(!new)>(next: Relation<S, T>, s: S, a: seq<T>, b: seq<T>, t: S)
    returns (m: S)
    requires Path(next, s, a + b, t)
    ensures Path(next, s, a, m) && Path(next, m, b, t)
    decreases |b|
  {
    if b == [] {
      assert a + b == a;
      m := t;
    } else {
      LastMoves(a, b);
      var u := PathLast(next, s, a + b, t);
      m := PathSplit(next, s, a, b[..|b| - 1], u);
      PathSnoc(next, m, b[..|b| - 1], u, b[|b| - 1], t);
      assert b == b[..|b| - 1] + [b[|b| - 1]];
    }
  }

  lemma {:induction false} LeadsConcat<S(!new), T(!new)>(next: Relation<S, T>, s: S, a: seq<T>, m: S, b: seq<T>, t: S)
    requires Leads(next, s, a, m) && Leads(next, m, b, t)
    ensures Leads(next, s, a + b, t)
  {
    PathConcat(next, s, a, m, b, t);
    forall u | Path(next, s, a + b, u) ensures u == t {
      var k := PathSplit(next, s, a, b, u);
    }
  }

  lemma {:induction false} LeadsThrice<S(!new), T(!new)>(next: Relation<S, T>, s: S, a: seq<T>, m: S, b: seq<T>, n: S,
                                                         c: seq<T>, t: S)
    requires Leads(next, s, a, m) && Leads(next, m, b, n) && Leads(next, n, c, t)
    ensures Leads(next, s, a + b + c, t)
  {
    LeadsConcat(next, s, a, m, b, n);
    LeadsConcat(next, s, a + b, n, c, t);
  }

  lemma {:induction false} LeadsEnds<S(!new), T(!new)>(next: Relation<S, T>, s: S, steps: seq<T>, m: S, t: S)
    requires steps != [] && Leads(next, s, steps[..|steps| - 1], m) && Surely(next, m, steps[|steps| - 1], t)
    ensures Leads(next, s, steps, t)
  {
    PathEnds(next, s, steps, m, t);
    forall u | Path(next, s, steps, u) ensures u == t {
      var v := PathLast(next, s, steps, u);
    }
  }

  lemma {:induction false} LeadsOne<S(!new), T(!new)>(next: Relation<S, T>, s: S, step: T, t: S)
    requires Surely(next, s, step, t)
    ensures Leads(next, s, [step], t)
  {
    PathOne(next, s, step, t);
    forall u | Path(next, s, [step], u) ensures u == t {
      var m := PathLast(next, s, [step], u);
      assert [step][..0] == [];
    }
  }

  /** When each step surely leads from one of the states to the next, they all lead to the last. */
  lemma {:induction false} LeadsAlong<S(!new), T(!new)>(next: Relation<S, T>, ss: seq<S>, steps: seq<T>)
    requires |ss| == |steps| + 1
    requires forall k | 0 <= k < |steps| :: SurelyAt(next, ss, steps, k)
    ensures Leads(next, ss[0], steps, ss[|steps|])
    decreases |steps|
  {
    if steps != [] {
      var n := |steps| - 1;
      var (front, less) := (steps[..n], ss[..n + 1]);
      forall k | 0 <= k < n ensures SurelyAt(next, less, front, k) {
        assert SurelyAt(next, ss, steps, k);
      }
      LeadsAlong(next, less, front);
      assert SurelyAt(next, ss, steps, n);
      LeadsOne(next, ss[n], steps[n], ss[n + 1]);
      LeadsConcat(next, ss[0], front, ss[n], [steps[n]], ss[n + 1]);
      assert steps == front + [steps[n]];
    }
  }

  /** The states along a path. */
  lemma {:induction false} PathStates<S(!new), T(!new)>(next: Relation<S, T>, s: S, steps: seq<T>, t: S)
    returns (ss: seq<S>)
    requires Path(next, s, steps, t)
    ensures |ss| == |steps| + 1 && ss[0] == s && ss[|steps|] == t
    ensures forall k | 0 <= k < |steps| :: MayAt(next, ss, steps, k)
    decreases |steps|
  {
    if steps == [] {
      ss := [s];
    } else {
      var n := |steps| - 1;
      var m := PathLast(next, s, steps, t);
      var front := PathStates(next, s, steps[..n], m);
      ss := front + [t];
      forall k | 0 <= k < |steps| ensures MayAt(next, ss, steps, k) {
        if k < n {
          assert MayAt(next, front, steps[..n], k);
        }
      }
    }
  }

  ghost predicate MayAt<S(!new), T(!new)>(next: Relation<S, T>, ss: seq<S>, steps: seq<T>, k: nat)
    requires |ss| == |steps| + 1 && k < |steps|
  {
    next(ss[k], steps[k], ss[k + 1])
  }

  ghost predicate SurelyAt<S(!new), T(!new)>(next: Relation<S, T>, ss: seq<S>, steps: seq<T>, k: nat)
    requires |ss| == |steps| + 1 && k < |steps|
  {
    Surely(next, ss[k], steps[k], ss[k + 1])
  }
}
