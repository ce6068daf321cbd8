/** The image printer of the provisioning tool: segments, sorted, checked for overlap, and printed
    in lines of 16 octets. */
module HexImage {
  import opened Bytes
  import opened IntelHex
  import opened Wrappers

  datatype Segment = Segment(address: nat, data: Bytes)

  datatype Printed = Text(text: string) | Overlap | OutOfRange

  function End(s: Segment): nat {
    s.address + |s.data|
  }

  // ----- The order of segments -----

  predicate LexLe(a: Bytes, b: Bytes) {
    a == [] || (b != [] && (a[0] < b[0] || (a[0] == b[0] && LexLe(a[1..], b[1..]))))
  }

  /** By address, then by data. */
  predicate Le(s: Segment, t: Segment) {
    s.address < t.address || (s.address == t.address && LexLe(s.data, t.data))
  }

  lemma {:induction false} LexTotal(a: Bytes, b: Bytes)
    ensures LexLe(a, b) || LexLe(b, a)
  {
    if a != [] && b != [] {
      LexTotal(a[1..], b[1..]);
    }
  }

  lemma {:induction false} LexTransitive(a: Bytes, b: Bytes, c: Bytes)
    requires LexLe(a, b) && LexLe(b, c)
    ensures LexLe(a, c)
  {
    if a != [] && a[0] == b[0] == c[0] {
      LexTransitive(a[1..], b[1..], c[1..]);
    }
  }

  predicate Sorted(ss: seq<Segment>) {
    forall i, j | 0 <= i < j < |ss| :: Le(ss[i], ss[j])
  }

  function Insert(s: Segment, ss: seq<Segment>): seq<Segment> {
    if ss == [] || Le(s, ss[0]) then [s] + ss else [ss[0]] + Insert(s, ss[1..])
  }

  function Sort(ss: seq<Segment>): seq<Segment> {
    if ss == [] then [] else Insert(ss[0], Sort(ss[1..]))
  }

  lemma {:induction false} InsertBag(s: Segment, ss: seq<Segment>)
    ensures multiset(Insert(s, ss)) == multiset{s} + multiset(ss)
  {
    if ss != [] && !Le(s, ss[0]) {
      InsertBag(s, ss[1..]);
      assert ss == [ss[0]] + ss[1..];
    }
  }

  /** A segment that precedes all others may stand before them. */
  lemma {:induction false} SortedBefore(s: Segment, ss: seq<Segment>)
    requires Sorted(ss) && forall t | t in ss :: Le(s, t)
    ensures Sorted([s] + ss)
  {
  }

  lemma {:induction false} InsertSorts(s: Segment, ss: seq<Segment>)
    requires Sorted(ss)
    ensures Sorted(Insert(s, ss))
  {
    if ss == [] || Le(s, ss[0]) {
      forall t | t in ss ensures Le(s, t) {
        var j :| 0 <= j < |ss| && ss[j] == t;
        if j != 0 {
          assert Le(ss[0], ss[j]);
          if s.address == t.address {
            LexTransitive(s.data, ss[0].data, t.data);
          }
        }
      }
      SortedBefore(s, ss);
    } else {
      var rest := Insert(s, ss[1..]);
      InsertSorts(s, ss[1..]);
      InsertBag(s, ss[1..]);
      LexTotal(s.data, ss[0].data);
      forall t | t in rest ensures Le(ss[0], t) {
        assert t in multiset(rest);
        if t != s {
          var j :| 0 <= j < |ss| - 1 && ss[1..][j] == t;
          assert Le(ss[0], ss[j + 1]);
        }
      }
      SortedBefore(ss[0], rest);
    }
  }

  lemma {:induction false} SortSorts(ss: seq<Segment>)
    ensures Sorted(Sort(ss)) && multiset(Sort(ss)) == multiset(ss)
  {
    if ss != [] {
      SortSorts(ss[1..]);
      InsertSorts(ss[0], Sort(ss[1..]));
      InsertBag(ss[0], Sort(ss[1..]));
      assert ss == [ss[0]] + ss[1..];
    }
  }

  // ----- Overlap -----

  /** One of the segments starts inside the other, or both have octets at the same address. */
  predicate Collide(s: Segment, t: Segment) {
    s.address < t.address < End(s) || t.address < s.address < End(t)
    || (s.address == t.address && s.data != [] && t.data != [])
  }

  /** Two of the segments collide, wherever they are listed. */
  ghost predicate Clash(ss: seq<Segment>) {
    exists i, j :: 0 <= i < j < |ss| && Collide(ss[i], ss[j])
  }

  ghost predicate ClashIn(m: multiset<Segment>) {
    exists s, t :: s in m && t in m - multiset{s} && Collide(s, t)
  }

  lemma {:induction false} ClashIsInBag(ss: seq<Segment>)
    requires Clash(ss)
    ensures ClashIn(multiset(ss))
  {
    var i, j :| 0 <= i < j < |ss| && Collide(ss[i], ss[j]);
    WithoutOne(ss, i);
    assert (ss[..i] + ss[i + 1..])[j - 1] == ss[j];
    assert ss[j] in ss[..i] + ss[i + 1..];
    assert ss[i] in multiset(ss) && ss[j] in multiset(ss) - multiset{ss[i]};
  }

  lemma {:induction false} ElsewhereInBag(ss: seq<Segment>, i: nat, t: Segment) returns (k: nat)
    requires i < |ss| && t in multiset(ss) - multiset{ss[i]}
    ensures k < |ss| && k != i && ss[k] == t
  {
    WithoutOne(ss, i);
    var rest := ss[..i] + ss[i + 1..];
    assert t in rest;
    k :| 0 <= k < |rest| && rest[k] == t;
    k := if k < i then k else k + 1;
  }

  lemma {:induction false} ClashFromBag(ss: seq<Segment>)
    requires ClashIn(multiset(ss))
    ensures Clash(ss)
  {
    var s, t :| s in multiset(ss) && t in multiset(ss) - multiset{s} && Collide(s, t);
    var i :| 0 <= i < |ss| && ss[i] == s;
    var k := ElsewhereInBag(ss, i, t);
    assert if k < i then Collide(ss[k], ss[i]) else Collide(ss[i], ss[k]);
  }

  lemma {:induction false} WithoutOne(ss: seq<Segment>, i: nat)
    requires i < |ss|
    ensures multiset(ss) - multiset{ss[i]} == multiset(ss[..i] + ss[i + 1..])
  {
    assert ss == ss[..i] + [ss[i]] + ss[i + 1..];
  }

  /** Whether segments clash does not depend on their order. */
  lemma {:induction false} SortKeepsClash(ss: seq<Segment>)
    ensures Clash(Sort(ss)) <==> Clash(ss)
  {
    SortSorts(ss);
    if Clash(ss) {
      ClashIsInBag(ss);
      ClashFromBag(Sort(ss));
    }
    if Clash(Sort(ss)) {
      ClashIsInBag(Sort(ss));
      ClashFromBag(ss);
    }
  }

  // ----- What an image holds -----

  /** No octet of the segment lies beyond the 32-bit addresses. */
  predicate Fits(s: Segment) {
    s.data == [] || End(s) <= SPACE
  }

  /** The octets of the segment are in memory at its address. */
  predicate Carries(m: Memory, s: Segment) {
    forall a | s.address <= a < End(s) :: a in m && m[a] == s.data[a - s.address]
  }

  predicate Covers(s: Segment, a: nat) {
    s.address <= a < End(s)
  }

  /** Memory is exactly the union of the segments. */
  ghost predicate Union(m: Memory, ss: seq<Segment>) {
    && (forall s | s in ss :: Carries(m, s))
    && (forall a | a in m :: exists s :: s in ss && Covers(s, a))
  }

  lemma {:induction false} PutOctets(m: Memory, at: nat, data: Bytes)
    requires at + |data| <= SPACE
    ensures var p := Put(m, at, data);
            && (forall a :: a in p <==> a in m || at <= a < at + |data|)
            && (forall a | at <= a < at + |data| :: p[a] == data[a - at])
            && (forall a | a in m && !(at <= a < at + |data|) :: p[a] == m[a])
  {
    forall a: nat
      ensures var p := Put(m, at, data);
              && (a in p <==> a in m || at <= a < at + |data|)
              && (at <= a < at + |data| ==> p[a] == data[a - at])
              && (a in m && !(at <= a < at + |data|) ==> p[a] == m[a])
    {
      PutAt(m, at, data, a);
    }
  }

  lemma {:induction false} PutAt(m: Memory, at: nat, data: Bytes, a: nat)
    requires at + |data| <= SPACE
    ensures var p := Put(m, at, data);
            && (a in p <==> a in m || at <= a < at + |data|)
            && (at <= a < at + |data| ==> p[a] == data[a - at])
            && (a in m && !(at <= a < at + |data|) ==> p[a] == m[a])
    decreases |data|
  {
    if data != [] {
      var n := |data| - 1;
      PutAt(m, at, data[..n], a);
      InSpace(at + n);
    }
  }

  lemma {:induction false} InSpace(a: nat)
    requires a < SPACE
    ensures a % SPACE == a
  {
  }

  ghost predicate Below(m: Memory) {
    forall a | a in m :: a < SPACE
  }

  lemma {:induction false} PutBelow(m: Memory, at: nat, data: Bytes)
    requires Below(m)
    ensures Below(Put(m, at, data))
    decreases |data|
  {
    if data != [] {
      PutBelow(m, at, data[..|data| - 1]);
    }
  }

  /** What a reader loads has 32-bit addresses, so it can only be the union of segments that fit. */
  lemma {:induction false} UnionFits(m: Memory, ss: seq<Segment>)
    requires Below(m) && Union(m, ss)
    ensures AllFit(ss)
  {
    forall s | s in ss ensures Fits(s) {
      assert Carries(m, s);
      if s.data != [] {
        var last := End(s) - 1;
        assert last in m;
      }
    }
  }

  lemma {:induction false} PutMore(m: Memory, at: nat, a: Bytes, b: Bytes)
    ensures Put(Put(m, at, a), at + |a|, b) == Put(m, at, a + b)
    decreases |b|
  {
    if b == [] {
      assert a + b == a;
    } else {
      var n := |b| - 1;
      PutMore(m, at, a, b[..n]);
      assert (a + b)[..|a| + n] == a + b[..n];
    }
  }

  lemma {:induction false} CarriesNext(m: Memory, t: Segment, s: Segment)
    requires Carries(m, t) && Fits(s) && End(t) <= s.address
    ensures Carries(Put(m, s.address, s.data), t)
  {
    if s.data != [] {
      PutOctets(m, s.address, s.data);
      var p := Put(m, s.address, s.data);
      forall a | t.address <= a < End(t) ensures a in p && p[a] == t.data[a - t.address] {
        assert a in m && m[a] == t.data[a - t.address];
      }
    }
  }

  lemma {:induction false} CarriesItself(m: Memory, s: Segment)
    requires Fits(s)
    ensures Carries(Put(m, s.address, s.data), s)
    ensures forall a | a in Put(m, s.address, s.data) :: a in m || Covers(s, a)
  {
    if s.data != [] {
      PutOctets(m, s.address, s.data);
    }
  }

  /** Loading a segment after all those that end before it adds exactly that segment. */
  lemma {:induction false} UnionNext(m: Memory, ss: seq<Segment>, s: Segment)
    requires Union(m, ss) && Fits(s) && forall t | t in ss :: End(t) <= s.address
    ensures Union(Put(m, s.address, s.data), ss + [s])
  {
    var p := Put(m, s.address, s.data);
    CarriesItself(m, s);
    forall t | t in ss + [s] ensures Carries(p, t) {
      if t in ss {
        CarriesNext(m, t, s);
      }
    }
    forall a | a in p ensures exists t :: t in ss + [s] && Covers(t, a) {
      if Covers(s, a) {
        assert s in ss + [s];
      } else {
        var t :| t in ss && Covers(t, a);
        assert t in ss + [s];
      }
    }
  }

  lemma {:induction false} UnionSorted(m: Memory, ss: seq<Segment>)
    ensures Union(m, Sort(ss)) <==> Union(m, ss)
    ensures AllFit(Sort(ss)) <==> AllFit(ss)
  {
    SameSegments(ss);
  }

  // ----- Printing -----

  predicate LineOutOfReach(s: Segment, line: nat) {
    16 * line < |s.data| && s.address + 16 * line >= SPACE
  }

  /** Some line of the segment would start beyond the 32-bit addresses. */
  ghost predicate OutOfReach(s: Segment) {
    exists line: nat :: LineOutOfReach(s, line)
  }

  ghost predicate PrintsRecords(text: string, rs: seq<HexRecord>, upper: Option<nat>, m: Memory) {
    && (upper.Some? ==> upper.value < 0x1_0000)
    && Printable(rs) && text == Print(rs)
    && Run(rs) == Some(Loader(if upper.Some? then upper.value * 0x1_0000 else 0, m))
  }

  /** The text printed so far makes a reader load `m`, and leaves `upper` as the upper half of its
      base address. */
  ghost predicate Printing(text: string, upper: Option<nat>, m: Memory) {
    exists rs :: PrintsRecords(text, rs, upper, m)
  }

  lemma {:induction false} PrintMore(text: string, upper: Option<nat>, m: Memory, r: HexRecord,
                                     upper': Option<nat>, m': Memory)
    requires Printing(text, upper, m) && |r.data| < 256
    requires upper'.Some? ==> upper'.value < 0x1_0000
    requires Apply(Loader(if upper.Some? then upper.value * 0x1_0000 else 0, m), r)
             == Some(Loader(if upper'.Some? then upper'.value * 0x1_0000 else 0, m'))
    ensures Printing(text + Line(r), upper', m')
  {
    var rs :| PrintsRecords(text, rs, upper, m);
    assert (rs + [r])[..|rs|] == rs;
    assert PrintsRecords(text + Line(r), rs + [r], upper', m');
  }

  function Least(a: nat, b: nat): nat {
    if a < b then a else b
  }

  /** The memory with the octets of the segment up to `offset` in it. */
  function LoadedUpTo(m: Memory, s: Segment, offset: nat): Memory {
    Put(m, s.address, s.data[..Least(offset, |s.data|)])
  }

  /** The text makes a reader load `m` and the octets of the segment up to `offset`. */
  ghost predicate PrintedUpTo(text: string, upper: Option<nat>, m: Memory, s: Segment, offset: nat) {
    Printing(text, upper, LoadedUpTo(m, s, offset))
  }

  /** One line of a segment loads its next octets. */
  lemma {:induction false} PutLine(m: Memory, s: Segment, from: nat)
    requires from <= |s.data|
    ensures Put(LoadedUpTo(m, s, from), s.address + from, s.data[from..Least(from + 16, |s.data|)])
            == LoadedUpTo(m, s, from + 16)
  {
    var to := Least(from + 16, |s.data|);
    PutMore(m, s.address, s.data[..from], s.data[from..to]);
    assert s.data[..from] + s.data[from..to] == s.data[..to];
  }

  /** Print a data record behind the base address that it needs. */
  lemma {:induction false} PrintOctets(text: string, m: Memory, upper: u16, low: u16, data: Bytes)
    requires |data| < 256 && Printing(text, Some(upper), m)
    ensures Printing(text + Line(HexRecord(low, DATA, data)), Some(upper), Put(m, upper * 0x1_0000 + low, data))
  {
    PrintMore(text, Some(upper), m, HexRecord(low, DATA, data), Some(upper), Put(m, upper * 0x1_0000 + low, data));
  }

  lemma {:induction false} Halves(a: nat)
    ensures a / 0x1_0000 * 0x1_0000 + a % 0x1_0000 == a
    ensures a < SPACE <==> a / 0x1_0000 <= 65535
  {
  }

  lemma {:induction false} PrintBase(text: string, upper: Option<nat>, m: Memory, base: u16)
    requires Printing(text, upper, m)
    ensures Printing(text + Line(HexRecord(0, LINEAR, [base / 256, base % 256])), Some(base), m)
  {
    PrintMore(text, upper, m, HexRecord(0, LINEAR, [base / 256, base % 256]), Some(base), m);
  }

  /** Print a data record, behind a new base address when it needs one. */
  method PrintRecord(high: nat, low: u16, data: Bytes, text: string, upper: Option<nat>, ghost m: Memory)
    returns (ok: bool, text': string, upper': Option<nat>)
    requires |data| < 256 && Printing(text, upper, m)
    ensures ok <==> high <= 65535 || upper == Some(high)
    ensures ok ==> Printing(text', upper', Put(m, high * 0x1_0000 + low, data))
  {
    ok, text', upper' := true, text, upper;
    if upper != Some(high) {
      if high > 65535 {
        ok := false;
        return;
      }
      PrintBase(text, upper, m, high);
      upper', text' := Some(high), text + Line(HexRecord(0, LINEAR, [high / 256, high % 256]));
    }
    PrintOctets(text', m, high, low, data);
    text' := text' + Line(HexRecord(low, DATA, data));
  }

  /** Print a data record for an absolute address, after which a reader has loaded `m'`. */
  method PrintLine(current: nat, data: Bytes, text: string, upper: Option<nat>, ghost m: Memory, ghost m': Memory)
    returns (ok: bool, text': string, upper': Option<nat>)
    requires |data| < 256 && Printing(text, upper, m) && m' == Put(m, current, data)
    ensures ok <==> current < SPACE
    ensures ok ==> Printing(text', upper', m')
  {
    Halves(current);
    ok, text', upper' := PrintRecord(current / 0x1_0000, current % 0x1_0000, data, text, upper, m);
  }

  /** Print the line of the segment that starts at `offset`. */
  method PrintNext(s: Segment, offset: nat, text: string, upper: Option<nat>, ghost m: Memory)
    returns (ok: bool, text': string, upper': Option<nat>)
    requires offset < |s.data| && PrintedUpTo(text, upper, m, s, offset)
    ensures ok <==> s.address + offset < SPACE
    ensures ok ==> PrintedUpTo(text', upper', m, s, offset + 16)
  {
    var end := Least(offset + 16, |s.data|);
    PutLine(m, s, offset);
    ok, text', upper' := PrintLine(s.address + offset, s.data[offset..end], text, upper, LoadedUpTo(m, s, offset),
                                   LoadedUpTo(m, s, offset + 16));
  }

  method PrintSegment(s: Segment, text: string, upper: Option<nat>, ghost m: Memory)
    returns (ok: bool, text': string, upper': Option<nat>)
    requires Printing(text, upper, m)
    ensures ok <==> !OutOfReach(s)
    ensures ok ==> Printing(text', upper', Put(m, s.address, s.data))
  {
    ok, text', upper' := true, text, upper;
    var offset := 0;
    ghost var line := 0;
    while offset < |s.data|
      invariant offset == 16 * line
      invariant forall k: nat | k < line :: !LineOutOfReach(s, k)
      invariant PrintedUpTo(text', upper', m, s, offset)
    {
      ok, text', upper' := PrintNext(s, offset, text', upper', m);
      if !ok {
        assert LineOutOfReach(s, line);
        return;
      }
      offset, line := offset + 16, line + 1;
    }
    assert s.data[..|s.data|] == s.data;
  }

  /** Every segment ends before the next ones begin. */
  predicate Apart(ss: seq<Segment>) {
    forall i, j | 0 <= i < j < |ss| :: End(ss[i]) <= ss[j].address
  }

  lemma {:induction false} ApartIsNoClash(ss: seq<Segment>)
    requires Apart(ss)
    ensures !Clash(ss)
  {
  }

  lemma {:induction false} NeighboursClash(ss: seq<Segment>, i: nat)
    requires Sorted(ss) && i < |ss| && ss[i].address < LastEnd(ss[..i])
    ensures Clash(ss)
  {
    assert Le(ss[i - 1], ss[i]);
    assert Collide(ss[i - 1], ss[i]);
  }

  lemma {:induction false} SameSegments(ss: seq<Segment>)
    ensures forall s :: s in ss <==> s in Sort(ss)
  {
    SortSorts(ss);
    forall s ensures s in ss <==> s in Sort(ss) {
      assert s in multiset(ss) <==> s in multiset(Sort(ss));
    }
  }

  ghost predicate AllFit(ss: seq<Segment>) {
    forall s | s in ss :: Fits(s)
  }

  ghost predicate AllInReach(ss: seq<Segment>) {
    forall s | s in ss :: !OutOfReach(s)
  }

  function LastEnd(ss: seq<Segment>): nat {
    if ss == [] then 0 else End(ss[|ss| - 1])
  }

  /** What the printer knows of the segments it has printed. */
  ghost predicate PrintedSoFar(ss: seq<Segment>, m: Memory) {
    && Apart(ss) && AllInReach(ss) && Below(m)
    && (forall s | s in ss :: End(s) <= LastEnd(ss))
    && (AllFit(ss) ==> Union(m, ss))
  }

  lemma {:induction false} PrintedOneMore(ss: seq<Segment>, m: Memory, s: Segment)
    requires PrintedSoFar(ss, m) && LastEnd(ss) <= s.address && !OutOfReach(s)
    ensures PrintedSoFar(ss + [s], Put(m, s.address, s.data))
  {
    PutBelow(m, s.address, s.data);
    if AllFit(ss + [s]) {
      assert s in ss + [s];
      forall t | t in ss ensures Fits(t) {
        assert t in ss + [s];
      }
      UnionNext(m, ss, s);
    }
  }

  lemma {:induction false} PrintedNext(ss: seq<Segment>, i: nat, m: Memory)
    requires i < |ss| && PrintedSoFar(ss[..i], m) && LastEnd(ss[..i]) <= ss[i].address && !OutOfReach(ss[i])
    ensures PrintedSoFar(ss[..i + 1], Put(m, ss[i].address, ss[i].data)) && LastEnd(ss[..i + 1]) == End(ss[i])
  {
    PrintedOneMore(ss[..i], m, ss[i]);
    assert ss[..i + 1] == ss[..i] + [ss[i]];
  }

  lemma {:induction false} FittingIsInReach(ss: seq<Segment>)
    requires AllFit(ss)
    ensures AllInReach(ss)
  {
  }

  /** Print sorted segments one after the other; `m` is what a reader loads from them. */
  method PrintAll(ss: seq<Segment>) returns (r: Printed, ghost m: Memory)
    requires Sorted(ss)
    ensures r.Overlap? ==> Clash(ss)
    ensures r.OutOfRange? ==> !AllInReach(ss)
    ensures r.Text? ==> !Clash(ss) && AllInReach(ss) && Decode(r.text) == Some(m) && (AllFit(ss) <==> Union(m, ss))
  {
    var text, upper, previousEnd := "", None, 0;
    m := map[];
    PrintNothing();
    for i := 0 to |ss|
      invariant Printing(text, upper, m)
      invariant previousEnd == LastEnd(ss[..i])
      invariant PrintedSoFar(ss[..i], m)
    {
      var s := ss[i];
      if s.address < previousEnd {
        NeighboursClash(ss, i);
        return Overlap, m;
      }
      previousEnd := End(s);
      var ok;
      ok, text, upper := PrintSegment(s, text, upper, m);
      if !ok {
        return OutOfRange, m;
      }
      PrintedNext(ss, i, m);
      m := Put(m, s.address, s.data);
    }
    assert ss[..|ss|] == ss;
    PrintedDecodes(ss, text, upper, m);
    r := Text(text + Line(HexRecord(0, END, [])));
  }

  /** What `Ihex` prints: segments that do not clash, all of whose lines start in reach. */
  ghost predicate Accepts(ss: seq<Segment>) {
    !Clash(ss) && AllInReach(ss)
  }

  /** Print the segments as an image. It is refused when segments clash or a line would start
      beyond the 32-bit addresses. A reader loads exactly their union if and only if all their
      octets lie below 2^32; such segments are refused only when they clash. */
  method Ihex(segments: seq<Segment>) returns (r: Printed)
    ensures r.Overlap? ==> Clash(segments)
    ensures r.OutOfRange? ==> !AllInReach(segments)
    ensures r.Text? <==> Accepts(segments)
    ensures AllFit(segments) ==> (r.Text? <==> !Clash(segments))
    ensures r.Text? ==> var m := Decode(r.text); m.Some? && (Union(m.value, segments) <==> AllFit(segments))
  {
    SortSorts(segments);
    SortKeepsClash(segments);
    SameSegments(segments);
    ghost var m;
    r, m := PrintAll(Sort(segments));
    if AllFit(segments) {
      FittingIsInReach(segments);
    }
    if r.Text? {
      UnionSorted(m, segments);
    }
  }

  lemma {:induction false} PrintNothing()
    ensures Printing("", None, map[])
  {
    assert PrintsRecords("", [], None, map[]);
  }

  lemma {:induction false} PrintedDecodes(ss: seq<Segment>, text: string, upper: Option<nat>, m: Memory)
    requires Printing(text, upper, m) && PrintedSoFar(ss, m)
    ensures Decode(text + Line(HexRecord(0, END, []))) == Some(m)
    ensures !Clash(ss) && AllInReach(ss) && (AllFit(ss) <==> Union(m, ss))
  {
    if Union(m, ss) {
      UnionFits(m, ss);
    }
    ApartIsNoClash(ss);
    var rs :| PrintsRecords(text, rs, upper, m);
    DecodePrinted(rs);
  }

  // ----- Where the printer falls short -----

  /** A segment that starts at the last address and goes on is printed, but has octets that no reader
      can load where they belong. */
  lemma {:induction false} PrintedButNotUnion(m: Memory)
    ensures var ss := [Segment(SPACE - 1, [1, 2])];
            && Accepts(ss) && !AllFit(ss)
            && (Below(m) ==> !Union(m, ss))
  {
    var s := Segment(SPACE - 1, [1, 2]);
    assert s in [s] && !Fits(s);
    if Below(m) && Union(m, [s]) {
      UnionFits(m, [s]);
    }
  }

  /** An empty segment inside another one is refused, although the two have no address in common. */
  lemma {:induction false} RefusedButDisjoint()
    ensures var ss := [Segment(0, [1, 2]), Segment(1, [])];
            && !Accepts(ss) && AllFit(ss)
            && forall a | Covers(ss[0], a) :: !Covers(ss[1], a)
  {
    var ss := [Segment(0, [1, 2]), Segment(1, [])];
    assert Collide(ss[0], ss[1]);
    assert Clash(ss);
  }

  /** An empty segment strictly inside another one. */
  predicate EmptyInside(s: Segment, t: Segment) {
    s.data == [] && t.address < s.address < End(t)
  }

  /** Two segments collide exactly when some address is covered by both, or one of them is empty and
      strictly inside the other. */
  lemma {:induction false} CollideMeans(s: Segment, t: Segment)
    ensures Collide(s, t) <==> (exists a :: Covers(s, a) && Covers(t, a)) || EmptyInside(s, t) || EmptyInside(t, s)
  {
    if Collide(s, t) && !EmptyInside(s, t) && !EmptyInside(t, s) {
      var a := if s.address < t.address then t.address else s.address;
      assert Covers(s, a) && Covers(t, a);
    }
  }

  /** Where the last line of a segment starts. */
  function LastLine(s: Segment): nat
    requires s.data != []
  {
    s.address + (|s.data| - 1) / 16 * 16
  }

  lemma {:induction false} ReachMeans(s: Segment)
    ensures OutOfReach(s) <==> s.data != [] && LastLine(s) >= SPACE
  {
    if s.data != [] {
      var last := (|s.data| - 1) / 16;
      assert 16 * last <= |s.data| - 1 < 16 * last + 16;
      if LastLine(s) >= SPACE {
        assert LineOutOfReach(s, last);
      }
      if line: nat :| LineOutOfReach(s, line) {
        assert line <= last;
      }
    }
  }

  /** The two may stand in one image: no address is common to them, and neither is empty inside the other. */
  ghost predicate Compatible(s: Segment, t: Segment) {
    !(exists a :: Covers(s, a) && Covers(t, a)) && !EmptyInside(s, t) && !EmptyInside(t, s)
  }

  /** What the tool prints: segments of which any two are compatible, and of which none has a line that
      starts at or beyond 2^32. */
  lemma {:induction false} AcceptsMeans(ss: seq<Segment>)
    ensures Accepts(ss) <==>
              && (forall i, j | 0 <= i < j < |ss| :: Compatible(ss[i], ss[j]))
              && (forall s | s in ss && s.data != [] :: LastLine(s) < SPACE)
  {
    forall i, j | 0 <= i < j < |ss| ensures Compatible(ss[i], ss[j]) <==> !Collide(ss[i], ss[j]) {
      CollideMeans(ss[i], ss[j]);
    }
    forall s | s in ss ensures OutOfReach(s) <==> s.data != [] && LastLine(s) >= SPACE {
      ReachMeans(s);
    }
  }
}
