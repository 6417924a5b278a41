/** What the parent answers to each request, in terms of the request's fields, and what an answer means for
    the rest of a run. */
module ParentRequests {
  import opened Basics
  import opened ParentProtocol

  // ---------------------------------------------------------------------------------------------
  // One request
  // ---------------------------------------------------------------------------------------------

  /** Which operation a request reaches: none for another project or an unknown name, and none while the parent
      is down. */
  lemma CallExactly(cfg: Config, s: State, req: Value)
    ensures var mine := Get(req, "project") == Some(Text(cfg.project));
            var open := mine && !s.failAll && Get(req, "params").Some?;
            var name, p := Get(req, "method"), Field(req, "params");
            && (CallOf(cfg, s, req) == Unavailable <==> mine && s.failAll)
            && (CallOf(cfg, s, req) == NewNonce <==> open && name == Some(Text("mesh.challenge")))
            && (CallOf(cfg, s, req) == Join(p) <==> open && name == Some(Text("mesh.register")))
            && (CallOf(cfg, s, req) == KeepAlive(p) <==> open && name == Some(Text("mesh.heartbeat")))
            && (CallOf(cfg, s, req) == Depart(p) <==> open && name == Some(Text("mesh.unregister")))
            && (CallOf(cfg, s, req) == Commit(p) <==> open && name == Some(Text("project.anchor.submit")))
            && (CallOf(cfg, s, req).Invalid? || CallOf(cfg, s, req) in {Unavailable, NewNonce, Join(p), KeepAlive(p), Depart(p), Commit(p)})
  {
  }

  /** A challenge is answered with the fresh token, which then waits; while the parent is down everything is
      refused; a request that reaches no operation raises. */
  lemma ChallengeExactly(cfg: Config, s: State, draw: string)
    ensures Serve(cfg, s, NewNonce, draw) == Outcome(s.(nonces := s.nonces + {draw}), Challenge(draw))
    ensures Serve(cfg, s, Unavailable, draw) == Outcome(s, Refused("parent_unavailable"))
    ensures Serve(cfg, s, Invalid, draw) == Outcome(s.(errors := s.errors + 1), Raised)
  {
  }

  /** The launch facts a register request has to state. */
  ghost predicate StatesLaunch(cfg: Config, p: Value) {
    && p.Obj? && {"project_id", "pid", "socket", "root_sha256", "spawn_nonce"} <= p.fields.Keys
    && p.fields["project_id"] == Text(cfg.project)
    && p.fields["pid"].Int? && p.fields["pid"].n >= 1
    && p.fields["socket"] == Text(cfg.socket)
    && p.fields["root_sha256"] == Text(cfg.rootHash)
    && p.fields["spawn_nonce"] in {Text("fixture-spawn"), Null}
  }

  /** It holds the key it names: signatures over the challenge and over the socket and process. */
  ghost predicate ProvesKey(cfg: Config, p: Value, nonce: string)
    requires StatesLaunch(cfg, p)
  {
    && {"project_pubkey", "nonce_reply", "client_nonce", "bind_sig"} <= p.fields.Keys
    && p.fields["project_pubkey"].Text? && p.fields["bind_sig"].Text?
    && p.fields["nonce_reply"].Obj? && "sig" in p.fields["nonce_reply"].fields && p.fields["nonce_reply"].fields["sig"].Text?
    && cfg.verify(p.fields["project_pubkey"].s, p.fields["nonce_reply"].fields["sig"].s, Pop(cfg.userKey, nonce, cfg.project))
    && cfg.verify(p.fields["project_pubkey"].s, p.fields["bind_sig"].s,
                  Bind(cfg.project, nonce, p.fields["client_nonce"], p.fields["socket"], p.fields["pid"]))
  }

  /** A register request is admitted exactly when it answers a waiting nonce, states the launch facts, was spawned
      or is the adopted process, proves its key, and that is the key first pinned; it is refused exactly when
      only the spawn is not expected; every other raises. */
  lemma RegisterExactly(cfg: Config, s: State, p: Value, draw: string)
    ensures var o := Serve(cfg, s, Join(p), draw);
            var n := NonceOf(p);
            var waiting := n.Some? && n.value in s.nonces;
            var known := waiting && StatesLaunch(cfg, p);
            var expected := known && (p.fields["spawn_nonce"] == Text("fixture-spawn") || s.adoptedPid == Some(p.fields["pid"].n));
            var admitted := && expected && ProvesKey(cfg, p, n.value)
                            && (s.projectKey.Some? ==> s.projectKey == Some(p.fields["project_pubkey"].s));
            && (o.reply.Registered? <==> admitted)
            && (o.reply.Refused? <==> known && !expected)
            && (o.reply.Raised? <==> !admitted && !(known && !expected))
            && (admitted ==> && o.reply == Registered(draw, !s.badAck)
                             && o.state == s.(nonces := s.nonces - {n.value}, sessions := s.sessions + {draw},
                                              projectKey := Some(p.fields["project_pubkey"].s), registrations := s.registrations + 1))
            && (o.reply.Refused? ==> && o.reply == Refused("spawn_not_expected")
                                     && o.state == s.(nonces := s.nonces - {n.value}, refusals := s.refusals + 1))
  {
    LaunchFacts(cfg, p);
    if StatesLaunch(cfg, p) && NonceOf(p).Some? {
      KeyProofs(cfg, p, NonceOf(p).value);
    }
  }

  lemma LaunchFacts(cfg: Config, p: Value)
    ensures StatesLaunch(cfg, p) <==> Identified(cfg, p)
    ensures StatesLaunch(cfg, p) ==>
              forall pid :: Unexpected(pid, p) <==> p.fields["spawn_nonce"] != Text("fixture-spawn") && pid != Some(p.fields["pid"].n)
  {
  }

  lemma KeyProofs(cfg: Config, p: Value, nonce: string)
    requires StatesLaunch(cfg, p)
    ensures ProvesKey(cfg, p, nonce) <==> Proved(cfg, p, nonce)
    ensures ProvesKey(cfg, p, nonce) ==> GetText(p, "project_pubkey") == Some(p.fields["project_pubkey"].s)
  {
  }

  /** The nonce a register request names. */
  lemma NonceExactly(p: Value, nonce: string)
    ensures NonceOf(p) == Some(nonce) <==>
            && p.Obj? && "nonce_reply" in p.fields && p.fields["nonce_reply"].Obj?
            && "nonce" in p.fields["nonce_reply"].fields && p.fields["nonce_reply"].fields["nonce"] == Text(nonce)
  {
  }

  /** The signed activity report of a heartbeat. */
  ghost predicate BeatSigned(cfg: Config, key: Option<string>, p: Value)
    requires p.Obj? && "session" in p.fields && p.fields["session"].Text?
  {
    && {"activity", "pid", "at_unix", "sig"} <= p.fields.Keys && p.fields["sig"].Text?
    && p.fields["activity"].Obj? && {"last_activity_unix", "busy"} <= p.fields["activity"].fields.Keys
    && var a := p.fields["activity"].fields;
       && a["busy"].Obj? && {"agents", "workloads", "streams"} <= a["busy"].fields.Keys
       && var busy := a["busy"].fields;
          && key.Some?
          && cfg.verify(key.value, p.fields["sig"].s,
                        Beat(p.fields["session"].s, p.fields["pid"], p.fields["at_unix"],
                             [a["last_activity_unix"], busy["agents"], busy["workloads"], busy["streams"]]))
  }

  /** A heartbeat counts exactly when it is signed under the pinned key for a live session; one for any other
      session is refused; nothing else changes. */
  lemma HeartbeatExactly(cfg: Config, s: State, p: Value, draw: string)
    ensures var o := Serve(cfg, s, KeepAlive(p), draw);
            var named := p.Obj? && "session" in p.fields && !p.fields["session"].Obj? && !p.fields["session"].List?;
            var live := named && p.fields["session"].Text? && p.fields["session"].s in s.sessions;
            && (o.reply == Done <==> live && BeatSigned(cfg, s.projectKey, p))
            && (o.reply == Refused("unknown_session") <==> named && !live)
            && (o.reply == Raised <==> !named || (live && !BeatSigned(cfg, s.projectKey, p)))
            && (o.reply == Done ==> o.state == s.(heartbeats := s.heartbeats + 1))
            && (o.reply.Refused? ==> o.state == s)
  {
    if p.Obj? && "session" in p.fields && p.fields["session"].Text? {
      BeatFacts(cfg, s, p);
    }
  }

  lemma BeatFacts(cfg: Config, s: State, p: Value)
    requires p.Obj? && "session" in p.fields && p.fields["session"].Text?
    ensures BeatSigned(cfg, s.projectKey, p) <==> SignedBeat(cfg, s, p, p.fields["session"].s)
  {
    AllThree(Field(Field(p, "activity"), "busy"), "agents", "workloads", "streams");
    BothThere(p, "pid", "at_unix");
  }

  lemma AllThree(v: Value, a: string, b: string, c: string)
    ensures HasAll(v, [a, b, c]) <==> v.Obj? && {a, b, c} <= v.fields.Keys
  {
    var keys := [a, b, c];
    assert keys[0] == a && keys[1] == b && keys[2] == c;
  }

  lemma BothThere(v: Value, a: string, b: string)
    ensures HasAll(v, [a, b]) <==> v.Obj? && {a, b} <= v.fields.Keys
  {
    var keys := [a, b];
    assert keys[0] == a && keys[1] == b;
  }

  /** A session ends on request exactly when it is live and the request is signed under the pinned key. */
  lemma UnregisterExactly(cfg: Config, s: State, p: Value, draw: string)
    ensures var o := Serve(cfg, s, Depart(p), draw);
            var granted := && p.Obj? && {"session", "pid", "at_unix", "sig"} <= p.fields.Keys
                           && p.fields["session"].Text? && p.fields["session"].s in s.sessions
                           && p.fields["sig"].Text? && s.projectKey.Some?
                           && cfg.verify(s.projectKey.value, p.fields["sig"].s,
                                         Leave(p.fields["session"].s, p.fields["pid"], p.fields["at_unix"]));
            && (o.reply == Done <==> granted) && (o.reply == Raised <==> !granted)
            && (granted ==> o.state == s.(sessions := s.sessions - {p.fields["session"].s}, unregisters := s.unregisters + 1))
  {
    BothThere(p, "pid", "at_unix");
  }

  /** A statement signed under the key for this project. */
  ghost predicate GenuineAnchor(cfg: Config, key: Option<string>, p: Value) {
    && key.Some? && p.Obj? && {"sig", "project_id"} <= p.fields.Keys
    && p.fields["sig"].Text? && p.fields["project_id"] == Text(cfg.project)
    && cfg.verify(key.value, p.fields["sig"].s, Anchor(Obj(map k | k in p.fields && k != "sig" :: p.fields[k])))
  }

  /** It has the next number and names the hash of the newest accepted statement. */
  ghost predicate NextAnchor(cfg: Config, anchors: seq<Value>, p: Value)
    requires p.Obj?
  {
    && {"seq", "prev_anchor"} <= p.fields.Keys && p.fields["seq"] == Int(|anchors| + 1)
    && p.fields["prev_anchor"] == if |anchors| == 0 then Null else Text(cfg.hash(anchors[|anchors| - 1]))
  }

  /** A statement is recorded exactly when anchors are taken, it is genuine and it is the next one; the newest one
      again is acknowledged without effect; every other raises. */
  lemma AnchorExactly(cfg: Config, s: State, p: Value, draw: string)
    ensures var o := Serve(cfg, s, Commit(p), draw);
            var genuine := !s.failAnchors && GenuineAnchor(cfg, s.projectKey, p);
            var newest := genuine && |s.anchors| > 0 && p == s.anchors[|s.anchors| - 1];
            var next := genuine && !newest && NextAnchor(cfg, s.anchors, p);
            && (s.failAnchors <==> o.reply == Refused("parent_unavailable"))
            && (next <==> o.reply == Anchored(|s.anchors| + 1))
            && (newest <==> o.reply == Anchored(|s.anchors|))
            && (o.reply == Raised <==> !s.failAnchors && !newest && !next)
            && (next ==> o.state == s.(anchors := s.anchors + [p]))
            && (newest || s.failAnchors ==> o.state == s)
  {
    if p.Obj? {
      assert p.fields - {"sig"} == map k | k in p.fields && k != "sig" :: p.fields[k];
    }
  }

  // ---------------------------------------------------------------------------------------------
  // What an answer means along a run
  // ---------------------------------------------------------------------------------------------

  /** The outcome of the request at place `i` of a run. */
  function OutcomeAt(cfg: Config, events: seq<Event>, i: nat): Outcome
    requires i < |events| && events[i].Request?
  {
    var s := After(cfg, events[..i]).s;
    Serve(cfg, s, CallOf(cfg, s, events[i].req), events[i].draw)
  }

  /** The operation the request at place `i` reaches. */
  function CallAt(cfg: Config, events: seq<Event>, i: nat): Call
    requires i < |events| && events[i].Request?
  {
    CallOf(cfg, After(cfg, events[..i]).s, events[i].req)
  }

  lemma AfterAt(cfg: Config, events: seq<Event>, i: nat)
    requires FreshRun(cfg, events) && i < |events| && events[i].Request?
    ensures After(cfg, events[..i + 1]).s == OutcomeAt(cfg, events, i).state
  {
    RunPrefix(cfg, events, i + 1);
    NextFresh(cfg, events, i);
    StepServes(cfg, After(cfg, events[..i]), events[i].req, events[i].draw);
  }

  lemma AnchoredMeans(cfg: Config, s: State, call: Call, draw: string, n: nat)
    requires Serve(cfg, s, call, draw).reply == Anchored(n)
    ensures call.Commit? && 1 <= n == |Serve(cfg, s, call, draw).state.anchors|
    ensures Serve(cfg, s, call, draw).state.anchors[n - 1] == call.p
  {
    if call.Commit? {
      AnchorExactly(cfg, s, call.p, draw);
    }
  }

  /** A statement answered with a number is the anchor with that number from then on. */
  lemma AnsweredAnchorStays(cfg: Config, events: seq<Event>, i: nat, n: nat)
    requires FreshRun(cfg, events) && i < |events| && events[i].Request? && OutcomeAt(cfg, events, i).reply == Anchored(n)
    ensures CallAt(cfg, events, i).Commit? && 1 <= n <= |After(cfg, events).s.anchors|
    ensures After(cfg, events).s.anchors[n - 1] == CallAt(cfg, events, i).p
  {
    AfterAt(cfg, events, i);
    AnchoredMeans(cfg, After(cfg, events[..i]).s, CallAt(cfg, events, i), events[i].draw, n);
    RunGrows(cfg, events, i + 1);
  }

  /** Every anchor was submitted by some request and answered with its number. */
  lemma {:induction false} AnchorsWereAnswered(cfg: Config, events: seq<Event>, k: nat) returns (i: nat)
    requires FreshRun(cfg, events) && k < |After(cfg, events).s.anchors|
    ensures i < |events| && events[i].Request?
    ensures CallAt(cfg, events, i) == Commit(After(cfg, events).s.anchors[k]) && OutcomeAt(cfg, events, i).reply == Anchored(k + 1)
    decreases |events|
  {
    var n := |events| - 1;
    var before := events[..n];
    RunGrows(cfg, events, n);
    if k < |After(cfg, before).s.anchors| {
      i := AnchorsWereAnswered(cfg, before, k);
      assert before[..i] == events[..i];
    } else {
      i := n;
      NewAnchor(cfg, After(cfg, before), events[n], k);
    }
  }

  lemma NewAnchor(cfg: Config, w: World, e: Event, k: nat)
    requires |w.s.anchors| <= k < |Step(cfg, w, e).s.anchors|
    ensures e.Request?
    ensures CallOf(cfg, w.s, e.req) == Commit(Step(cfg, w, e).s.anchors[k])
    ensures Serve(cfg, w.s, CallOf(cfg, w.s, e.req), e.draw).reply == Anchored(k + 1)
  {
    if e.Request? {
      var call := CallOf(cfg, w.s, e.req);
      StepServes(cfg, w, e.req, e.draw);
      ServeEffect(cfg, w.s, call, e.draw);
      if call.Commit? {
        AnchorExactly(cfg, w.s, call.p, e.draw);
      }
    }
  }

  /** The event ends the session `x`: the table is cleared, or a request to end it is granted. */
  ghost predicate Ends(cfg: Config, w: World, e: Event, x: string) {
    match e
    case ClearSessions => true
    case SetFlags(_, _, _, _) => false
    case Request(req, draw) =>
      && CallOf(cfg, w.s, req).Depart? && GetText(CallOf(cfg, w.s, req).p, "session") == Some(x)
      && Serve(cfg, w.s, CallOf(cfg, w.s, req), draw).reply == Done
  }

  lemma StepKeepsSession(cfg: Config, w: World, e: Event, x: string)
    requires x in w.s.sessions && !Ends(cfg, w, e, x)
    ensures x in Step(cfg, w, e).s.sessions
  {
    if e.Request? {
      var call := CallOf(cfg, w.s, e.req);
      StepServes(cfg, w, e.req, e.draw);
      ServeKeepsSession(cfg, w.s, call, e.draw, x);
    }
  }

  lemma ServeKeepsSession(cfg: Config, s: State, call: Call, draw: string, x: string)
    requires x in s.sessions
    requires !(call.Depart? && GetText(call.p, "session") == Some(x) && Serve(cfg, s, call, draw).reply == Done)
    ensures x in Serve(cfg, s, call, draw).state.sessions
  {
    match call
    case Join(p) => RegisterExactly(cfg, s, p, draw);
      RaisedKeepsSessions(cfg, s, call, draw);
    case KeepAlive(p) => HeartbeatExactly(cfg, s, p, draw);
      RaisedKeepsSessions(cfg, s, call, draw);
    case Depart(p) => UnregisterExactly(cfg, s, p, draw);
      RaisedKeepsSessions(cfg, s, call, draw);
    case Commit(p) => AnchorExactly(cfg, s, p, draw);
      RaisedKeepsSessions(cfg, s, call, draw);
    case _ => ChallengeExactly(cfg, s, draw);
  }

  lemma RaisedKeepsSessions(cfg: Config, s: State, call: Call, draw: string)
    ensures Serve(cfg, s, call, draw).reply.Raised? ==> Serve(cfg, s, call, draw).state.sessions == s.sessions
  {
    if Serve(cfg, s, call, draw).reply.Raised? {
      RaisedUndoesNothing(cfg, s, call, draw);
    }
  }

  /** From place `i` on no event ends the session. */
  ghost predicate LeftOpen(cfg: Config, events: seq<Event>, i: nat, x: string)
    decreases |events|
  {
    |events| <= i ||
    var n := |events| - 1;
    LeftOpen(cfg, events[..n], i, x) && !Ends(cfg, After(cfg, events[..n]), events[n], x)
  }

  /** A live session stays live until an event ends it. */
  lemma {:induction false} SessionLives(cfg: Config, events: seq<Event>, i: nat, x: string)
    requires i <= |events| && x in After(cfg, events[..i]).s.sessions && LeftOpen(cfg, events, i, x)
    ensures x in After(cfg, events).s.sessions
    decreases |events|
  {
    if i == |events| {
      assert events[..i] == events;
    } else {
      var before := events[..|events| - 1];
      assert before[..i] == events[..i];
      SessionLives(cfg, before, i, x);
      LastKeepsSession(cfg, events, x);
    }
  }

  lemma LastKeepsSession(cfg: Config, events: seq<Event>, x: string)
    requires events != [] && x in After(cfg, events[..|events| - 1]).s.sessions
    requires !Ends(cfg, After(cfg, events[..|events| - 1]), events[|events| - 1], x)
    ensures x in After(cfg, events).s.sessions
  {
    StepKeepsSession(cfg, After(cfg, events[..|events| - 1]), events[|events| - 1], x);
  }

  /** A registration answered with a session pins the key it proved for the rest of the run, and the session is
      live right after it. */
  lemma AnsweredRegistrationPins(cfg: Config, events: seq<Event>, i: nat, x: string, ack: bool)
    requires FreshRun(cfg, events) && i < |events| && events[i].Request? && OutcomeAt(cfg, events, i).reply == Registered(x, ack)
    ensures CallAt(cfg, events, i).Join? && x == events[i].draw && x in After(cfg, events[..i + 1]).s.sessions
    ensures After(cfg, events).s.projectKey == GetText(CallAt(cfg, events, i).p, "project_pubkey")
  {
    AfterAt(cfg, events, i);
    RegisteredMeans(cfg, After(cfg, events[..i]).s, CallAt(cfg, events, i), events[i].draw);
    RunGrows(cfg, events, i + 1);
  }

  lemma RegisteredMeans(cfg: Config, s: State, call: Call, draw: string)
    requires Serve(cfg, s, call, draw).reply.Registered?
    ensures call.Join? && Serve(cfg, s, call, draw).reply.session == draw && draw in Serve(cfg, s, call, draw).state.sessions
    ensures Serve(cfg, s, call, draw).state.projectKey.Some?
    ensures Serve(cfg, s, call, draw).state.projectKey == GetText(call.p, "project_pubkey")
  {
    if call.Join? {
      RegisterExactly(cfg, s, call.p, draw);
    }
  }
}
