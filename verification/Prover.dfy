/** The prover: check, commit, measure, reply. */
module Prover {
  import opened Bytes
  import opened Journal
  import opened Records
  import opened Register
  import opened Simple
  import opened Verifier
  import opened Wrappers

  datatype Agent = Agent(ready: bool, material: Material)

  /** What handling a request takes from the platform: whether each use of the MAC works, and the
      measured ranges, concatenated, unless the measurement fails. */
  datatype Surroundings = Surroundings(checkOk: bool, memory: Option<Bytes>, macOk: bool)

  /** The request, if it is well-formed, newer than the last one accepted, and authentic. */
  function Acceptable(h: Mac, p: Agent, req: Bytes, env: Surroundings, room: nat): Option<Msg> {
    if !p.ready || room < REPORT_LEN then None
    else
      match ParseMsg(req)
      case None => None
      case Some(m) =>
        if m.counter <= p.material.counter || !env.checkOk || m.hmac != h(p.material.kAuth, req[..MSG_LEN]) then None
        else Some(m)
  }

  function Compared(h: Mac, p: Agent, memory: Bytes, m: Msg): byte {
    if h(p.material.kAttest, memory) == m.vs then 1 else 0
  }

  /** The report on an accepted request. */
  function Answer(h: Mac, p: Agent, memory: Bytes, m: Msg): Report {
    var result := Compared(h, p, memory, m);
    Report(result, h(p.material.kAuth, ReportInput(result, m.counter, m.nonce)))
  }

  /** The prover after a request and the report released, given whether the commit of the
      request's counter was reported durable. */
  function Handled(h: Mac, p: Agent, req: Bytes, env: Surroundings, room: nat, saved: bool): (Agent, Option<Report>) {
    match Acceptable(h, p, req, env, room)
    case None => (p, None)
    case Some(m) =>
      if !saved then (p.(ready := false), None)
      else
        var next := p.(material := p.material.(counter := m.counter));
        (next, if env.memory.None? || !env.macOk then None else Some(Answer(h, p, env.memory.value, m)))
  }

  /** What becomes of the journal: an acceptable request saves its counter, and no other touches it. */
  ghost predicate AcceptStep(rec: Format, h: Mac, p: Agent, req: Bytes, env: Surroundings, room: nat, s: Store, saved: bool,
                             s': Store)
  {
    match Acceptable(h, p, req, env, room)
    case None => !saved && s' == s
    case Some(m) => SaveStep(rec, s, m.counter, saved, s')
  }

  class Device {
    const h: Mac
    const journal: Journal
    var ready: bool
    var material: Material

    constructor (h: Mac, journal: Journal, loaded: Option<Material>)
      requires journal.Valid() && journal.h == h
      requires loaded.Some? ==> journal.ready && journal.key == loaded.value.kAuth && journal.counter == loaded.value.counter
      ensures Valid() && this.h == h && this.journal == journal
      ensures State() == Agent(loaded.Some?, if loaded.Some? then loaded.value else NoMaterial())
    {
      this.h, this.journal := h, journal;
      ready, material := loaded.Some?, if loaded.Some? then loaded.value else NoMaterial();
    }

    ghost predicate Valid()
      reads this, journal, journal.flash.a, journal.flash.b
    {
      && journal.Valid() && journal.h == h
      && (ready ==> journal.ready && journal.key == material.kAuth && journal.counter == material.counter)
    }

    function State(): Agent
      reads this
    {
      Agent(ready, material)
    }

    /** Check a request; nothing has been committed yet. */
    method Check(req: Bytes, env: Surroundings, room: nat) returns (msg: Option<Msg>)
      ensures msg == Acceptable(h, State(), req, env, room)
    {
      msg := None;
      if !ready || room < REPORT_LEN || |req| != REQUEST_LEN {
        return;
      }
      var m := ParseMsg(req).value;
      if m.counter <= material.counter || !env.checkOk {
        return;
      }
      var authentic := CtCompare(m.hmac, h(material.kAuth, req[..MSG_LEN]));
      if authentic {
        msg := Some(m);
      }
    }

    /** Measure, compare and write the report on an accepted request. */
    method WriteReport(msg: Msg, env: Surroundings, resp: array<byte>, room: nat) returns (n: nat)
      requires REPORT_LEN <= room <= resp.Length
      modifies resp
      ensures if env.memory.None? || !env.macOk then n == 0 && resp[..] == old(resp[..])
              else n == REPORT_LEN && resp[..n] == ReportBytes(Answer(h, State(), env.memory.value, msg))
    {
      n := 0;
      if env.memory.None? {
        return;
      }
      var matches := CtCompare(h(material.kAttest, env.memory.value), msg.vs);
      var result: byte := if matches then 1 else 0;
      if env.macOk {
        var report := Report(result, h(material.kAuth, ReportInput(result, msg.counter, msg.nonce)));
        n := SerializeReport(report, resp, room);
      }
    }

    /** Handle a request; the response buffer is written only with a complete report. */
    method HandleRequest(req: Bytes, env: Surroundings, resp: array<byte>, room: nat) returns (n: nat, saved: bool)
      requires Valid() && room <= resp.Length && resp != journal.flash.a && resp != journal.flash.b
      modifies this, journal, journal.flash.a, journal.flash.b, journal.flash`log, journal.flash`used, resp
      ensures Valid() && old(journal.flash.used) <= journal.flash.used
      ensures saved <==> old(ready) && room >= REPORT_LEN && |req| == REQUEST_LEN
                         && GetU32(req) > old(material).counter && env.checkOk
                         && req[MSG_LEN..] == h(old(material).kAuth, req[..MSG_LEN])
                         && !journal.flash.Failed(old(journal.flash.used), journal.flash.used)
      ensures n == if saved && env.memory.Some? && env.macOk then REPORT_LEN else 0
      ensures State() == Handled(h, old(State()), req, env, room, saved).0
      ensures var report := Handled(h, old(State()), req, env, room, saved).1;
              if report.Some? then n == REPORT_LEN && resp[..n] == ReportBytes(report.value)
              else n == 0 && resp[..] == old(resp[..])
      ensures AcceptStep(journal.Format(), h, old(State()), req, env, room, old(journal.State()), saved, journal.State())
    {
      n, saved := 0, false;
      var msg := Check(req, env, room);
      if msg.None? {
        return;
      }
      saved := journal.Save(msg.value.counter);
      if !saved {
        ready := false;
        return;
      }
      material := material.(counter := msg.value.counter);
      n := WriteReport(msg.value, env, resp, room);
    }
  }
}
