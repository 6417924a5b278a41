/** The parent as an object: its fields, updated step by step, follow the protocol's step function and
    keep its invariants after every request. */
module ParentService {
  import opened Basics
  import opened ParentProtocol

  class Parent {
    const cfg: Config
    var nonces: set<string>
    var sessions: set<string>
    var projectKey: Option<string>
    var registrations: nat
    var refusals: nat
    var heartbeats: nat
    var unregisters: nat
    var anchors: seq<Value>
    var adoptedPid: Option<int>
    var failAnchors: bool
    var failAll: bool
    var badAck: bool
    var errors: nat
    /** What has happened so far. */
    ghost var past: World

    ghost function View(): State
      reads this
    {
      State(nonces, sessions, projectKey, registrations, refusals, heartbeats, unregisters, anchors,
            adoptedPid, failAnchors, failAll, badAck, errors)
    }

    ghost predicate Valid()
      reads this
    {
      past.s == View() && Inv(cfg, past)
    }

    constructor (cfg: Config)
      ensures Valid() && this.cfg == cfg && past == START
      ensures nonces == {} && sessions == {} && projectKey == None && anchors == [] && errors == 0
      ensures registrations == refusals == heartbeats == unregisters == 0
      ensures adoptedPid == None && !failAnchors && !failAll && !badAck
    {
      this.cfg := cfg;
      nonces, sessions, projectKey := {}, {}, None;
      registrations, refusals, heartbeats, unregisters := 0, 0, 0, 0;
      anchors := [];
      adoptedPid, failAnchors, failAll, badAck, errors := None, false, false, false, 0;
      past := START;
    }

    /** The checks behind the nonce, in the source's order. */
    method DoAdmit(p: Value, nonce: string, draw: string) returns (r: Reply)
      modifies this
      ensures Outcome(View(), r) == Admit(cfg, old(View()), p, nonce, draw) && past == old(past)
    {
      if !Identified(cfg, p) {
        return Raised;
      }
      if Unexpected(adoptedPid, p) {
        refusals := refusals + 1;
        return Refused("spawn_not_expected");
      }
      if !Proved(cfg, p, nonce) {
        return Raised;
      }
      var key := GetText(p, "project_pubkey").value;
      if projectKey.Some? && projectKey.value != key {
        return Raised;
      }
      projectKey := Some(key);
      sessions := sessions + {draw};
      registrations := registrations + 1;
      return Registered(draw, !badAck);
    }

    /** The register branch: the nonce is gone before anything else is checked. */
    method DoRegister(p: Value, draw: string) returns (r: Reply)
      modifies this
      ensures Outcome(View(), r) == Register(cfg, old(View()), p, draw) && past == old(past)
    {
      var n := NonceOf(p);
      if n.None? || n.value !in nonces {
        return Raised;
      }
      nonces := nonces - {n.value};
      r := DoAdmit(p, n.value, draw);
    }

    method DoHeartbeat(p: Value) returns (r: Reply)
      modifies this
      ensures Outcome(View(), r) == Heartbeat(cfg, old(View()), p) && past == old(past)
    {
      match Get(p, "session")
      case None => return Raised;
      case Some(Obj(_)) => return Raised;
      case Some(List(_)) => return Raised;
      case Some(Null) => return Refused("unknown_session");
      case Some(Int(_)) => return Refused("unknown_session");
      case Some(Text(session)) =>
        if session !in sessions {
          return Refused("unknown_session");
        }
        var activity := ActivityOf(p);
        if activity.None? || !HasAll(p, ["pid", "at_unix"]) || projectKey.None? || GetText(p, "sig").None? {
          return Raised;
        }
        if !cfg.verify(projectKey.value, GetText(p, "sig").value,
                       Beat(session, Field(p, "pid"), Field(p, "at_unix"), activity.value)) {
          return Raised;
        }
        heartbeats := heartbeats + 1;
        return Done;
    }

    method DoUnregister(p: Value) returns (r: Reply)
      modifies this
      ensures Outcome(View(), r) == Unregister(cfg, old(View()), p) && past == old(past)
    {
      var session := GetText(p, "session");
      if session.None? || session.value !in sessions {
        return Raised;
      }
      if !HasAll(p, ["pid", "at_unix"]) || projectKey.None? || GetText(p, "sig").None? {
        return Raised;
      }
      if !cfg.verify(projectKey.value, GetText(p, "sig").value,
                     Leave(session.value, Field(p, "pid"), Field(p, "at_unix"))) {
        return Raised;
      }
      sessions := sessions - {session.value};
      unregisters := unregisters + 1;
      return Done;
    }

    method DoAnchor(p: Value) returns (r: Reply)
      modifies this
      ensures Outcome(View(), r) == SubmitAnchor(cfg, old(View()), p) && past == old(past)
    {
      if failAnchors {
        return Refused("parent_unavailable");
      }
      if projectKey.None? || !SignedAnchor(cfg, projectKey.value, p) {
        return Raised;
      }
      if anchors == [] || p != anchors[|anchors| - 1] {
        if !Continues(cfg, anchors, p) {
          return Raised;
        }
        anchors := anchors + [p];
      }
      return Anchored(|anchors|);
    }

    method DispatchCall(call: Call, draw: string) returns (r: Reply)
      modifies this
      ensures Outcome(View(), r) == Dispatch(cfg, old(View()), call, draw) && past == old(past)
    {
      match call
      case NewNonce =>
        nonces := nonces + {draw};
        return Challenge(draw);
      case Join(p) => r := DoRegister(p, draw);
      case KeepAlive(p) => r := DoHeartbeat(p);
      case Depart(p) => r := DoUnregister(p);
      case Commit(p) => r := DoAnchor(p);
      case Unavailable => return Refused("parent_unavailable");
      case Invalid => return Raised;
    }

    /** One request through `serve`: the state moves by the protocol's step, errors are noted and not
        rolled back, and every invariant of a run still holds. */
    method HandleRequest(req: Value, draw: string) returns (r: Reply)
      requires Valid() && FreshDraw(past, Request(req, draw))
      modifies this
      ensures Valid() && past == Step(cfg, old(past), Request(req, draw)) && Grows(old(past), past)
      ensures r == Serve(cfg, old(View()), CallOf(cfg, old(View()), req), draw).reply
    {
      var call := ReadCall(req);
      r := ServeCall(call, draw);
      StepKeeps(cfg, past, Request(req, draw));
      StepServes(cfg, past, req, draw);
      past := Step(cfg, past, Request(req, draw));
    }

    /** Dispatch, and the error noted when it raises. */
    method ServeCall(call: Call, draw: string) returns (r: Reply)
      modifies this
      ensures Outcome(View(), r) == Serve(cfg, old(View()), call, draw) && past == old(past)
    {
      r := DispatchCall(call, draw);
      if r.Raised? {
        errors := errors + 1;
      }
    }

    method ReadCall(req: Value) returns (call: Call)
      ensures call == CallOf(cfg, View(), req)
    {
      if Get(req, "project") != Some(Text(cfg.project)) {
        return Invalid;
      }
      if failAll {
        return Unavailable;
      }
      var params, name := Get(req, "params"), GetText(req, "method");
      if params.None? || name.None? {
        return Invalid;
      }
      var p := params.value;
      match name.value {
        case "mesh.challenge" => return NewNonce;
        case "mesh.register" => return Join(p);
        case "mesh.heartbeat" => return KeepAlive(p);
        case "mesh.unregister" => return Depart(p);
        case "project.anchor.submit" => return Commit(p);
        case _ => return Invalid;
      }
    }

    /** The test turns the parent's switches. */
    method Configure(pid: Option<int>, anchorsDown: bool, allDown: bool, forgeAck: bool)
      requires Valid()
      modifies this
      ensures Valid() && past == Step(cfg, old(past), SetFlags(pid, anchorsDown, allDown, forgeAck))
      ensures adoptedPid == pid && failAnchors == anchorsDown && failAll == allDown && badAck == forgeAck
      ensures anchors == old(anchors) && sessions == old(sessions) && nonces == old(nonces) && projectKey == old(projectKey)
    {
      StepKeeps(cfg, past, SetFlags(pid, anchorsDown, allDown, forgeAck));
      past := Step(cfg, past, SetFlags(pid, anchorsDown, allDown, forgeAck));
      adoptedPid, failAnchors, failAll, badAck := pid, anchorsDown, allDown, forgeAck;
    }

    /** The test restarts the parent's session table. */
    method Clear()
      requires Valid()
      modifies this
      ensures Valid() && past == Step(cfg, old(past), ClearSessions)
      ensures View() == old(View()).(sessions := {})
    {
      StepKeeps(cfg, past, ClearSessions);
      past := Step(cfg, past, ClearSessions);
      sessions := {};
    }
  }
}
