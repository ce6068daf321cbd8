/** The bits of an octet, and what programming and erasing NOR flash may do to them. */
module Bits {
  import opened Bytes

  /** Every bit that is set in `b` is set in `a`. */
  predicate Covers(a: nat, b: nat) {
    b == 0 || ((b % 2 == 1 ==> a % 2 == 1) && Covers(a / 2, b / 2))
  }

  /** Bitwise conjunction: what a completed program operation leaves in a cell. */
  function And(a: nat, b: nat): (r: nat)
    ensures r <= a && r <= b
  {
    if a == 0 then 0 else a % 2 * (b % 2) + 2 * And(a / 2, b / 2)
  }

  /** A cell on its way from `was` to `was & data`: bits are only ever cleared, and only
      those that the data has at zero. */
  predicate Clearing(was: byte, data: byte, now: byte) {
    Covers(was, now) && Covers(now, And(was, data))
  }

  lemma {:induction false} CoversIsMonotone(a: nat, b: nat)
    requires Covers(a, b)
    ensures b <= a
  {
    if b != 0 {
      CoversIsMonotone(a / 2, b / 2);
    }
  }

  lemma {:induction false} CoversReflexive(a: nat)
    ensures Covers(a, a)
  {
    if a != 0 {
      CoversReflexive(a / 2);
    }
  }

  lemma {:induction false} CoversAnd(a: nat, b: nat)
    ensures Covers(a, And(a, b))
  {
    if a != 0 {
      CoversAnd(a / 2, b / 2);
      assert And(a, b) / 2 == And(a / 2, b / 2);
    }
  }

  /** Programming leaves the data itself exactly when no bit would have to be set. */
  lemma {:induction false} AndIsData(a: nat, b: nat)
    ensures And(a, b) == b <==> Covers(a, b)
  {
    if Covers(a, b) {
      CoversIsMonotone(a, b);
    }
    if a != 0 && b != 0 {
      AndIsData(a / 2, b / 2);
      assert a % 2 * (b % 2) == if a % 2 == 1 then b % 2 else 0;
    }
  }

  /** A partial program of an erased cell keeps every bit of the data set. */
  lemma {:induction false} AndErased(data: byte)
    ensures And(255, data) == data
  {
    AndOnes(8, data);
  }

  function Ones(n: nat): nat {
    if n == 0 then 0 else 1 + 2 * Ones(n - 1)
  }

  lemma {:induction false} OnesHalved(n: nat)
    requires n != 0
    ensures Ones(n) % 2 == 1 && Ones(n) / 2 == Ones(n - 1)
  {
    Halved(Ones(n - 1));
  }

  lemma {:induction false} Halved(m: nat)
    ensures (1 + 2 * m) % 2 == 1 && (1 + 2 * m) / 2 == m
  {
  }

  lemma {:induction false} HalfBelow(d: nat, m: nat)
    requires d <= 1 + 2 * m
    ensures d / 2 <= m && d == d % 2 + 2 * (d / 2)
  {
  }

  lemma {:induction false} AndOnes(n: nat, d: nat)
    requires d <= Ones(n)
    ensures And(Ones(n), d) == d
  {
    if n != 0 {
      OnesHalved(n);
      HalfBelow(d, Ones(n - 1));
      AndOnes(n - 1, d / 2);
    }
  }

  /** An erase that stops part-way only sets bits, so a cell at 255 stays there. */
  lemma {:induction false} CoversErased(a: byte)
    requires Covers(a, 255)
    ensures a == 255
  {
    CoversIsMonotone(a, 255);
  }

  /** The cell that keeps the value and the cell that reaches the goal are both possible. */
  lemma {:induction false} ClearingBounds(was: byte, data: byte)
    ensures Clearing(was, data, was)
    ensures Clearing(was, data, And(was, data))
  {
    CoversReflexive(was);
    CoversReflexive(And(was, data));
    CoversAnd(was, data);
  }

  lemma {:induction false} OnesCover(b: byte)
    ensures Covers(255, b)
  {
    OnesCoverBelow(8, b);
  }

  lemma {:induction false} OnesCoverBelow(n: nat, b: nat)
    requires b <= Ones(n)
    ensures Covers(Ones(n), b)
  {
    if n != 0 {
      OnesHalved(n);
      HalfBelow(b, Ones(n - 1));
      OnesCoverBelow(n - 1, b / 2);
    }
  }

  function Or(a: nat, b: nat): nat {
    if a == 0 then b else (if a % 2 + b % 2 > 0 then 1 else 0) + 2 * Or(a / 2, b / 2)
  }

  function Xor(a: nat, b: nat): nat {
    if a == 0 then b else (a + b) % 2 + 2 * Xor(a / 2, b / 2)
  }

  /** Differences, once collected, stay: the result is zero only if there never was one. */
  lemma {:induction false} OrXorZero(diff: nat, a: nat, b: nat)
    ensures Or(diff, Xor(a, b)) == 0 <==> diff == 0 && a == b
  {
    XorZero(a, b);
    OrZero(diff, Xor(a, b));
  }

  lemma {:induction false} XorZero(a: nat, b: nat)
    ensures Xor(a, b) == 0 <==> a == b
  {
    if a != 0 {
      XorZero(a / 2, b / 2);
    }
  }

  lemma {:induction false} OrZero(a: nat, b: nat)
    ensures Or(a, b) == 0 <==> a == 0 && b == 0
  {
    if a != 0 {
      OrZero(a / 2, b / 2);
    }
  }
}
