/** The verifier's session: one outstanding challenge, committed before it is released. */
module Verifier {
  import opened Bytes
  import opened Clock
  import opened Journal
  import opened Records
  import opened Register
  import opened Simple
  import opened Wrappers

  /** The secrets and the counter that a device works with. */
  datatype Material = Material(kAuth: Digest, kAttest: Digest, reference: Digest, counter: u32)

  const INT32_MAX: u32 := 0x7FFF_FFFF

  function NoNonce(): Nonce {
    seq(16, _ => 0)
  }

  function NoMaterial(): Material {
    Material(seq(32, _ => 0), seq(32, _ => 0), seq(32, _ => 0), 0)
  }

  datatype Session = Session(
    ready: bool, outstanding: bool, material: Material, nonce: Nonce, started: u32, timeout: u32)

  datatype Result = Invalid | Timeout | Idle | Mismatch | Pass

  /** What a challenge draws from the platform: random octets, the MAC, the time of the release. */
  datatype Draw = Draw(randomOk: bool, nonce: Nonce, macOk: bool, now: u32)

  function Cancelled(v: Session): Session {
    v.(outstanding := false, nonce := NoNonce())
  }

  function Polled(v: Session, now: u32): (Session, Result) {
    if v.ready && v.outstanding && Expired(now, v.started, v.timeout) then (Cancelled(v), Timeout) else (v, Idle)
  }

  /** The challenge that this session would release next. */
  function NextChallenge(h: Mac, v: Session, nonce: Nonce): Msg
    requires v.material.counter < UINT32_MAX
  {
    var (c, vs) := (v.material.counter + 1, v.material.reference);
    Msg(c, vs, nonce, h(v.material.kAuth, RequestBody(c, vs, nonce)))
  }

  /** Whether a challenge gets as far as committing its counter. */
  predicate Commits(v: Session, draw: Draw, capacity: nat) {
    && v.ready && !v.outstanding && capacity >= REQUEST_LEN
    && v.material.counter != UINT32_MAX && draw.randomOk && draw.macOk
  }

  /** The session after a challenge and the challenge released, given whether the commit of its
      counter was reported durable. */
  function Challenged(h: Mac, v: Session, draw: Draw, capacity: nat, saved: bool): (Session, Option<Msg>) {
    if !Commits(v, draw, capacity) then (v, None)
    else if !saved then (v.(ready := false), None)
    else
      var msg := NextChallenge(h, v, draw.nonce);
      (v.(material := v.material.(counter := msg.counter), nonce := draw.nonce, started := draw.now, outstanding := true),
       Some(msg))
  }

  /** What becomes of the journal: a challenge that gets that far saves its counter, and no other touches it. */
  ghost predicate CommitStep(rec: Format, v: Session, draw: Draw, capacity: nat, s: Store, saved: bool, s': Store) {
    if Commits(v, draw, capacity) then SaveStep(rec, s, v.material.counter + 1, saved, s') else !saved && s' == s
  }

  /** The authenticated report in a response, if it answers the outstanding challenge. */
  function Authentic(h: Mac, v: Session, response: Bytes, macOk: bool): Option<Report> {
    match ParseReport(response)
    case None => None
    case Some(r) =>
      if macOk && r.hmac == h(v.material.kAuth, ReportInput(r.result, v.material.counter, v.nonce)) then Some(r) else None
  }

  /** The verdict on a response: `now` is read before its checks and `later` after them. */
  function Verified(h: Mac, v: Session, response: Bytes, macOk: bool, now: u32, later: u32): (Session, Result) {
    if !v.ready || !v.outstanding then (v, Invalid)
    else if Polled(v, now).1 == Timeout then Polled(v, now)
    else
      match Authentic(h, v, response, macOk)
      case None => (v, Invalid)
      case Some(r) =>
        if Polled(v, later).1 == Timeout then Polled(v, later)
        else (Cancelled(v), if r.result == 1 then Pass else Mismatch)
  }

  class Device {
    const h: Mac
    const journal: Journal
    var ready: bool
    var outstanding: bool
    var material: Material
    var nonce: Nonce
    var started: u32
    var timeout: u32

    /** Begin from the material that the platform loaded, if it loaded any. */
    constructor (h: Mac, journal: Journal, loaded: Option<Material>, timeout: u32)
      requires journal.Valid() && journal.h == h
      requires loaded.Some? ==> journal.ready && journal.key == loaded.value.kAuth && journal.counter == loaded.value.counter
      ensures Valid() && this.h == h && this.journal == journal
      ensures State() == var legal := 0 < timeout <= INT32_MAX;
                Session(legal && loaded.Some?, false, if legal && loaded.Some? then loaded.value else NoMaterial(),
                        NoNonce(), 0, timeout)
    {
      this.h, this.journal := h, journal;
      ready, outstanding, nonce, started, this.timeout := false, false, NoNonce(), 0, timeout;
      material := NoMaterial();
      if 0 < timeout <= INT32_MAX && loaded.Some? {
        ready, material := true, loaded.value;
      }
    }

    ghost predicate Valid()
      reads this, journal, journal.flash.a, journal.flash.b
    {
      && journal.Valid() && journal.h == h
      && (ready ==> journal.ready && journal.key == material.kAuth && journal.counter == material.counter)
    }

    function State(): Session
      reads this
    {
      Session(ready, outstanding, material, nonce, started, timeout)
    }

    method Cancel()
      modifies `outstanding, `nonce
      ensures State() == Cancelled(old(State()))
    {
      outstanding := false;
      nonce := NoNonce();
    }

    method Poll(now: u32) returns (r: Result)
      modifies `outstanding, `nonce
      ensures (State(), r) == Polled(old(State()), now)
    {
      if !ready || !outstanding || !Expired(now, started, timeout) {
        return Idle;
      }
      Cancel();
      r := Timeout;
    }

    /** Fill in and authenticate the next challenge; nothing is committed yet. */
    method Compose(draw: Draw, out: array<byte>, capacity: nat) returns (msg: Option<Msg>)
      requires capacity <= out.Length
      modifies out
      ensures msg == if Commits(State(), draw, capacity) then Some(NextChallenge(h, State(), draw.nonce)) else None
    {
      msg := None;
      if !ready || outstanding || capacity < REQUEST_LEN || material.counter == UINT32_MAX || !draw.randomOk {
        return;
      }
      var m := Msg(material.counter + 1, material.reference, draw.nonce, seq(32, _ => 0));
      var len := SerializeMsg(m, out, capacity);
      assert out[..MSG_LEN] == RequestBytes(m)[..MSG_LEN] == RequestBody(m.counter, m.vs, m.nonce);
      if draw.macOk {
        msg := Some(m.(hmac := h(material.kAuth, out[..MSG_LEN])));
      }
    }

    /** Create a challenge, commit its counter, and only then hand it out; a challenge whose
        commit failed is wiped. Nothing but a condition of the caller's or a failure of the platform
        keeps a challenge from being handed out. */
    method Challenge(draw: Draw, out: array<byte>, capacity: nat) returns (n: nat, saved: bool)
      requires Valid() && capacity <= out.Length && out != journal.flash.a && out != journal.flash.b
      modifies this, journal, journal.flash.a, journal.flash.b, journal.flash`log, journal.flash`used, out
      ensures Valid() && old(journal.flash.used) <= journal.flash.used
      ensures saved <==> old(ready) && !old(outstanding) && capacity >= REQUEST_LEN
                         && old(material).counter < UINT32_MAX && draw.randomOk && draw.macOk
                         && !journal.flash.Failed(old(journal.flash.used), journal.flash.used)
      ensures n == if saved then REQUEST_LEN else 0
      ensures State() == Challenged(h, old(State()), draw, capacity, saved).0
      ensures var msg := Challenged(h, old(State()), draw, capacity, saved).1;
              if msg.Some? then n == REQUEST_LEN && out[..n] == RequestBytes(msg.value) else n == 0
      ensures CommitStep(journal.Format(), old(State()), draw, capacity, old(journal.State()), saved, journal.State())
      ensures Commits(old(State()), draw, capacity) && !saved ==> out[..REQUEST_LEN] == Zeros(REQUEST_LEN)
    {
      n, saved := 0, false;
      var msg := Compose(draw, out, capacity);
      if msg.None? {
        return;
      }
      saved := journal.Save(msg.value.counter);
      if !saved {
        ready := false;
        Zero(out, REQUEST_LEN);
        return;
      }
      n := Release(msg.value, draw, out, capacity);
    }

    /** Make the committed challenge the outstanding one and write it out. */
    method Release(msg: Msg, draw: Draw, out: array<byte>, capacity: nat) returns (n: nat)
      requires REQUEST_LEN <= capacity <= out.Length
      modifies `material, `nonce, `started, `outstanding, out
      ensures State() == old(State()).(material := old(material).(counter := msg.counter), nonce := draw.nonce,
                                       started := draw.now, outstanding := true)
      ensures n == REQUEST_LEN && out[..n] == RequestBytes(msg)
    {
      material := material.(counter := msg.counter);
      nonce, started, outstanding := draw.nonce, draw.now, true;
      n := SerializeMsg(msg, out, capacity);
      assert out[..n] == RequestBytes(msg);
    }

    /** Judge a response to the outstanding challenge. */
    method Verify(response: Bytes, macOk: bool, now: u32, later: u32) returns (r: Result)
      modifies `outstanding, `nonce
      ensures (State(), r) == Verified(h, old(State()), response, macOk, now, later)
    {
      if !ready || !outstanding {
        return Invalid;
      }
      r := Poll(now);
      if r == Timeout {
        return;
      }
      var report := ParseReport(response);
      if report.None? || !macOk {
        return Invalid;
      }
      var input := ReportInput(report.value.result, material.counter, nonce);
      var authentic := CtCompare(report.value.hmac, h(material.kAuth, input));
      if !authentic {
        return Invalid;
      }
      r := Poll(later);
      if r == Timeout {
        return;
      }
      Cancel();
      r := if report.value.result == 1 then Pass else Mismatch;
    }
  }
}
