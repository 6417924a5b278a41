/** The parent side of the project lifecycle protocol: challenge, register, heartbeat, unregister and
    anchor submission, as one step function over its state, and what every run of it keeps. */
module ParentProtocol {
  import opened Basics

  /** JSON values, as far as the protocol looks at them. */
  datatype Value = Null | Text(s: string) | Int(n: int) | List(items: seq<Value>) | Obj(fields: map<string, Value>)

  /** What is signed; each kind has its own domain prefix on the wire. */
  datatype Message =
    | Pop(userKey: string, nonce: string, project: string)
    | Bind(project: string, nonce: string, clientNonce: Value, socket: Value, pid: Value)
    | Beat(session: string, pid: Value, at: Value, activity: seq<Value>)
    | Leave(session: string, pid: Value, at: Value)
    | Anchor(body: Value)

  /** What the parent is set up with: its identity, the launch facts it checks, and the primitives. */
  datatype Config = Config(
    project: string, userKey: string, socket: string, rootHash: string,
    verify: (string, string, Message) -> bool,
    hash: Value -> string)

  datatype State = State(
    nonces: set<string>, sessions: set<string>, projectKey: Option<string>,
    registrations: nat, refusals: nat, heartbeats: nat, unregisters: nat,
    anchors: seq<Value>,
    adoptedPid: Option<int>, failAnchors: bool, failAll: bool, badAck: bool,
    errors: nat)

  datatype Reply =
    | Challenge(nonce: string)
    | Registered(session: string, genuineAck: bool)
    | Done
    | Anchored(userSeq: nat)
    | Refused(kind: string)
    | Raised

  datatype Outcome = Outcome(state: State, reply: Reply)

  const INITIAL := State({}, {}, None, 0, 0, 0, 0, [], None, false, false, false, 0)

  function Get(v: Value, k: string): Option<Value> {
    if v.Obj? && k in v.fields then Some(v.fields[k]) else None
  }

  function GetText(v: Value, k: string): Option<string> {
    match Get(v, k)
    case Some(Text(s)) => Some(s)
    case _ => None
  }

  function GetInt(v: Value, k: string): Option<int> {
    match Get(v, k)
    case Some(Int(n)) => Some(n)
    case _ => None
  }

  predicate HasAll(v: Value, keys: seq<string>) {
    forall i :: 0 <= i < |keys| ==> Get(v, keys[i]).Some?
  }

  function Field(v: Value, k: string): Value {
    if Get(v, k).Some? then Get(v, k).value else Null
  }

  // ---------------------------------------------------------------------------------------------
  // One function per operation
  // ---------------------------------------------------------------------------------------------

  /** The launch facts of a register request. */
  predicate Identified(cfg: Config, p: Value) {
    && Get(p, "project_id") == Some(Text(cfg.project))
    && GetInt(p, "pid").Some? && GetInt(p, "pid").value > 0
    && Get(p, "socket") == Some(Text(cfg.socket))
    && Get(p, "root_sha256") == Some(Text(cfg.rootHash))
    && (Get(p, "spawn_nonce") == Some(Text("fixture-spawn")) || Get(p, "spawn_nonce") == Some(Null))
  }

  /** A request without a spawn nonce is admitted only for the adopted process. */
  predicate Unexpected(adoptedPid: Option<int>, p: Value) {
    Get(p, "spawn_nonce") == Some(Null) && adoptedPid != GetInt(p, "pid")
  }

  /** Possession of the key it names, and its binding to this socket and process. */
  predicate Proved(cfg: Config, p: Value, nonce: string) {
    && GetText(p, "project_pubkey").Some?
    && GetText(Field(p, "nonce_reply"), "sig").Some?
    && cfg.verify(GetText(p, "project_pubkey").value, GetText(Field(p, "nonce_reply"), "sig").value,
                  Pop(cfg.userKey, nonce, cfg.project))
    && Get(p, "client_nonce").Some? && GetText(p, "bind_sig").Some?
    && cfg.verify(GetText(p, "project_pubkey").value, GetText(p, "bind_sig").value,
                  Bind(cfg.project, nonce, Field(p, "client_nonce"), Field(p, "socket"), Field(p, "pid")))
  }

  /** The rest of a registration, its nonce already used up. */
  function Admit(cfg: Config, s: State, p: Value, nonce: string, session: string): Outcome {
    if !Identified(cfg, p) then Outcome(s, Raised)
    else if Unexpected(s.adoptedPid, p) then Outcome(s.(refusals := s.refusals + 1), Refused("spawn_not_expected"))
    else if !Proved(cfg, p, nonce) then Outcome(s, Raised)
    else
      var key := GetText(p, "project_pubkey").value;
      if s.projectKey.Some? && s.projectKey.value != key then Outcome(s, Raised)
      else
        Outcome(s.(projectKey := Some(key), sessions := s.sessions + {session}, registrations := s.registrations + 1),
                Registered(session, !s.badAck))
  }

  /** The nonce a register request answers. */
  function NonceOf(p: Value): Option<string> {
    GetText(Field(p, "nonce_reply"), "nonce")
  }

  function Register(cfg: Config, s: State, p: Value, session: string): Outcome {
    match NonceOf(p)
    case None => Outcome(s, Raised)
    case Some(nonce) =>
      if nonce !in s.nonces then Outcome(s, Raised)
      else Admit(cfg, s.(nonces := s.nonces - {nonce}), p, nonce, session)
  }

  /** The parts of the activity report that are signed, when all are there. */
  function ActivityOf(p: Value): Option<seq<Value>> {
    var a := Field(p, "activity");
    var busy := Field(a, "busy");
    if Get(a, "last_activity_unix").Some? && HasAll(busy, ["agents", "workloads", "streams"])
    then Some([Field(a, "last_activity_unix"), Field(busy, "agents"), Field(busy, "workloads"), Field(busy, "streams")])
    else None
  }

  predicate SignedBeat(cfg: Config, s: State, p: Value, session: string) {
    && ActivityOf(p).Some? && HasAll(p, ["pid", "at_unix"])
    && s.projectKey.Some? && GetText(p, "sig").Some?
    && cfg.verify(s.projectKey.value, GetText(p, "sig").value,
                  Beat(session, Field(p, "pid"), Field(p, "at_unix"), ActivityOf(p).value))
  }

  function Heartbeat(cfg: Config, s: State, p: Value): Outcome {
    match Get(p, "session")
    case None => Outcome(s, Raised)
    case Some(Obj(_)) => Outcome(s, Raised)
    case Some(List(_)) => Outcome(s, Raised)
    case Some(Text(session)) =>
      if session !in s.sessions then Outcome(s, Refused("unknown_session"))
      else if !SignedBeat(cfg, s, p, session) then Outcome(s, Raised)
      else Outcome(s.(heartbeats := s.heartbeats + 1), Done)
    case Some(_) => Outcome(s, Refused("unknown_session"))
  }

  predicate SignedLeave(cfg: Config, s: State, p: Value, session: string) {
    && HasAll(p, ["pid", "at_unix"])
    && s.projectKey.Some? && GetText(p, "sig").Some?
    && cfg.verify(s.projectKey.value, GetText(p, "sig").value, Leave(session, Field(p, "pid"), Field(p, "at_unix")))
  }

  function Unregister(cfg: Config, s: State, p: Value): Outcome {
    match GetText(p, "session")
    case None => Outcome(s, Raised)
    case Some(session) =>
      if session !in s.sessions || !SignedLeave(cfg, s, p, session) then Outcome(s, Raised)
      else Outcome(s.(sessions := s.sessions - {session}, unregisters := s.unregisters + 1), Done)
  }

  /** A statement signed under the key, for this project. */
  predicate SignedAnchor(cfg: Config, key: string, p: Value) {
    && p.Obj? && GetText(p, "sig").Some?
    && cfg.verify(key, GetText(p, "sig").value, Anchor(Obj(p.fields - {"sig"})))
    && Get(p, "project_id") == Some(Text(cfg.project))
  }

  /** The statement continues a list of accepted ones: next number, hash of the last. */
  predicate Continues(cfg: Config, anchors: seq<Value>, p: Value) {
    && Get(p, "seq") == Some(Int(|anchors| + 1))
    && Get(p, "prev_anchor") == Some(if anchors == [] then Null else Text(cfg.hash(anchors[|anchors| - 1])))
  }

  function SubmitAnchor(cfg: Config, s: State, p: Value): Outcome {
    if s.failAnchors then Outcome(s, Refused("parent_unavailable"))
    else if s.projectKey.None? || !SignedAnchor(cfg, s.projectKey.value, p) then Outcome(s, Raised)
    else if s.anchors != [] && p == s.anchors[|s.anchors| - 1] then Outcome(s, Anchored(|s.anchors|))
    else if !Continues(cfg, s.anchors, p) then Outcome(s, Raised)
    else Outcome(s.(anchors := s.anchors + [p]), Anchored(|s.anchors| + 1))
  }

  /** What a request asks for. */
  datatype Call =
    | NewNonce
    | Join(p: Value)
    | KeepAlive(p: Value)
    | Depart(p: Value)
    | Commit(p: Value)
    | Unavailable
    | Invalid

  function CallOf(cfg: Config, s: State, req: Value): Call {
    if Get(req, "project") != Some(Text(cfg.project)) then Invalid
    else if s.failAll then Unavailable
    else if Get(req, "params").None? then Invalid
    else
      var p := Field(req, "params");
      match GetText(req, "method")
      case None => Invalid
      case Some(name) =>
        if name == "mesh.challenge" then NewNonce
        else if name == "mesh.register" then Join(p)
        else if name == "mesh.heartbeat" then KeepAlive(p)
        else if name == "mesh.unregister" then Depart(p)
        else if name == "project.anchor.submit" then Commit(p)
        else Invalid
  }

  /** `dispatch`. `draw` is the random token it may need. */
  function Dispatch(cfg: Config, s: State, call: Call, draw: string): Outcome {
    match call
    case NewNonce => Outcome(s.(nonces := s.nonces + {draw}), Challenge(draw))
    case Join(p) => Register(cfg, s, p, draw)
    case KeepAlive(p) => Heartbeat(cfg, s, p)
    case Depart(p) => Unregister(cfg, s, p)
    case Commit(p) => SubmitAnchor(cfg, s, p)
    case Unavailable => Outcome(s, Refused("parent_unavailable"))
    case Invalid => Outcome(s, Raised)
  }

  /** `serve` around one request: a raised error is noted, and nothing is undone. */
  function Serve(cfg: Config, s: State, call: Call, draw: string): Outcome {
    var o := Dispatch(cfg, s, call, draw);
    if o.reply.Raised? then o.(state := o.state.(errors := o.state.errors + 1)) else o
  }

  // ---------------------------------------------------------------------------------------------
  // Runs
  // ---------------------------------------------------------------------------------------------

  /** Requests, and what the test around the parent does to it. */
  datatype Event =
    | Request(req: Value, draw: string)
    | ClearSessions
    | SetFlags(adoptedPid: Option<int>, failAnchors: bool, failAll: bool, badAck: bool)

  /** The state and what has happened: nonces issued, the nonce behind each registration, the
      sessions started, how many were dropped by clearing, and how many nonces were used up by a
      register request that then raised. */
  datatype World = World(s: State, issued: seq<string>, used: seq<string>, started: seq<string>, dropped: nat, wasted: nat)

  const START := World(INITIAL, [], [], [], 0, 0)

  function Record(w: World, call: Call, o: Outcome): World {
    match o.reply
    case Challenge(nonce) => w.(s := o.state, issued := w.issued + [nonce])
    case Registered(session, _) =>
      w.(s := o.state, started := w.started + [session],
         used := w.used + if call.Join? && NonceOf(call.p).Some? then [NonceOf(call.p).value] else [])
    case Raised => w.(s := o.state, wasted := if o.state.nonces == w.s.nonces then w.wasted else w.wasted + 1)
    case _ => w.(s := o.state)
  }

  function Step(cfg: Config, w: World, e: Event): World {
    match e
    case ClearSessions => w.(s := w.s.(sessions := {}), dropped := w.dropped + |w.s.sessions|)
    case SetFlags(pid, anchors, all, ack) =>
      w.(s := w.s.(adoptedPid := pid, failAnchors := anchors, failAll := all, badAck := ack))
    case Request(req, draw) =>
      var call := CallOf(cfg, w.s, req);
      Record(w, call, Serve(cfg, w.s, call, draw))
  }

  function After(cfg: Config, events: seq<Event>): World {
    if events == [] then START else Step(cfg, After(cfg, events[..|events| - 1]), events[|events| - 1])
  }

  /** Random tokens never repeat. */
  predicate FreshDraw(w: World, e: Event) {
    e.Request? ==> e.draw !in w.issued && e.draw !in w.started
  }

  ghost predicate FreshRun(cfg: Config, events: seq<Event>) {
    events == [] ||
    var n := |events| - 1;
    FreshRun(cfg, events[..n]) && FreshDraw(After(cfg, events[..n]), events[n])
  }

  // ---------------------------------------------------------------------------------------------
  // What every run keeps
  // ---------------------------------------------------------------------------------------------

  /** The statement at `i` is numbered by its place and names the hash of the one before it. */
  predicate Linked(cfg: Config, anchors: seq<Value>, i: nat)
    requires i < |anchors|
  {
    && Get(anchors[i], "seq") == Some(Int(i + 1))
    && Get(anchors[i], "prev_anchor") == Some(if i == 0 then Null else Text(cfg.hash(anchors[i - 1])))
  }

  /** Every accepted statement is signed under the key, is numbered by its place and names the hash
      of the one before it. */
  predicate HashChain(cfg: Config, key: string, anchors: seq<Value>) {
    && (forall i :: 0 <= i < |anchors| ==> SignedAnchor(cfg, key, anchors[i]))
    && (forall i {:trigger Linked(cfg, anchors, i)} :: 0 <= i < |anchors| ==> Linked(cfg, anchors, i))
  }

  /** Nonces are issued once, wait or are used up, and back at most one registration each. */
  predicate NonceInv(w: World) {
    && Distinct(w.issued) && Distinct(w.used)
    && (forall n :: n in w.s.nonces ==> n in w.issued && n !in w.used)
    && (forall n :: n in w.used ==> n in w.issued)
  }

  /** Every issued nonce is accounted for. */
  predicate NonceCount(w: World) {
    |w.s.nonces| + |w.used| + w.s.refusals + w.wasted == |w.issued|
  }

  /** Every registration is accounted for: alive, unregistered or dropped. */
  predicate SessionInv(w: World) {
    && (forall x :: x in w.s.sessions ==> x in w.started)
    && |w.s.sessions| + w.s.unregisters + w.dropped == w.s.registrations == |w.used|
    && (w.s.heartbeats > 0 ==> w.s.registrations > 0)
  }

  /** There is a pinned key as soon as anything needs one, and the anchors are a hash chain under it. */
  predicate AnchorInv(cfg: Config, w: World) {
    && (w.s.projectKey.None? ==> w.s.registrations == 0 && w.s.anchors == [])
    && (w.s.projectKey.Some? ==> HashChain(cfg, w.s.projectKey.value, w.s.anchors))
  }

  predicate Inv(cfg: Config, w: World) {
    NonceInv(w) && NonceCount(w) && SessionInv(w) && AnchorInv(cfg, w)
  }

  /** What one step may do to the rest of a run's record: nothing is forgotten, and a pinned key and
      accepted anchors stay. */
  predicate Grows(v: World, w: World) {
    && v.issued <= w.issued && v.used <= w.used && v.started <= w.started
    && v.s.anchors <= w.s.anchors
    && (v.s.projectKey.Some? ==> w.s.projectKey == v.s.projectKey)
  }

  predicate AppendsAnchor(cfg: Config, s: State, t: State, p: Value) {
    && s.projectKey.Some? && SignedAnchor(cfg, s.projectKey.value, p) && Continues(cfg, s.anchors, p)
    && t.anchors == s.anchors + [p]
  }

  /** A registration uses up the nonce `n` and starts the session `x` under the pinned key. */
  predicate Registers(s: State, t: State, n: string, x: string) {
    && n in s.nonces && t.nonces == s.nonces - {n} && t.sessions == s.sessions + {x}
    && t.refusals == s.refusals && t.heartbeats == s.heartbeats
    && t.registrations == s.registrations + 1 && t.unregisters == s.unregisters && t.anchors == s.anchors
    && t.projectKey.Some? && (s.projectKey.Some? ==> t.projectKey == s.projectKey)
  }

  /** A request that does not register leaves the waiting nonces and the refusals alone, or uses up
      the nonce it names and is refused or raises. */
  predicate SpendsAtMost(s: State, t: State, call: Call, reply: Reply) {
    if t.nonces == s.nonces then t.refusals == s.refusals
    else
      && call.Join? && NonceOf(call.p).Some? && NonceOf(call.p).value in s.nonces
      && t.nonces == s.nonces - {NonceOf(call.p).value}
      && (reply.Raised? || reply.Refused?)
      && t.refusals == s.refusals + if reply.Refused? then 1 else 0
  }

  /** Any other request leaves registrations and key alone, ends at most one session, beats only for a
      live one, and adds at most one anchor, which continues the chain. */
  predicate Quiet(cfg: Config, s: State, t: State, call: Call, reply: Reply) {
    && SpendsAtMost(s, t, call, reply) && t.registrations == s.registrations && t.projectKey == s.projectKey
    && t.sessions <= s.sessions && |t.sessions| + t.unregisters == |s.sessions| + s.unregisters
    && (t.heartbeats == s.heartbeats || (t.heartbeats == s.heartbeats + 1 && s.sessions != {}))
    && (t.anchors == s.anchors || (call.Commit? && AppendsAnchor(cfg, s, t, call.p)))
  }

  /** The effect of a request on what the invariants speak of. */
  predicate Effect(cfg: Config, s: State, call: Call, draw: string, o: Outcome) {
    match o.reply
    case Challenge(n) => n == draw && o.state == s.(nonces := s.nonces + {draw})
    case Registered(x, _) =>
      x == draw && call.Join? && NonceOf(call.p).Some? && Registers(s, o.state, NonceOf(call.p).value, draw)
    case _ => Quiet(cfg, s, o.state, call, o.reply)
  }

  lemma RegisterEffect(cfg: Config, s: State, p: Value, draw: string)
    ensures Effect(cfg, s, Join(p), draw, Register(cfg, s, p, draw))
  {
  }

  lemma HeartbeatEffect(cfg: Config, s: State, p: Value, draw: string)
    ensures Effect(cfg, s, KeepAlive(p), draw, Heartbeat(cfg, s, p))
  {
  }

  lemma UnregisterEffect(cfg: Config, s: State, p: Value, draw: string)
    ensures Effect(cfg, s, Depart(p), draw, Unregister(cfg, s, p))
  {
  }

  lemma AnchorEffect(cfg: Config, s: State, p: Value, draw: string)
    ensures Effect(cfg, s, Commit(p), draw, SubmitAnchor(cfg, s, p))
  {
  }

  lemma DispatchEffect(cfg: Config, s: State, call: Call, draw: string)
    ensures Effect(cfg, s, call, draw, Dispatch(cfg, s, call, draw))
  {
    match call
    case Join(p) => RegisterEffect(cfg, s, p, draw);
    case KeepAlive(p) => HeartbeatEffect(cfg, s, p, draw);
    case Depart(p) => UnregisterEffect(cfg, s, p, draw);
    case Commit(p) => AnchorEffect(cfg, s, p, draw);
    case _ =>
  }

  lemma ServeEffect(cfg: Config, s: State, call: Call, draw: string)
    ensures Effect(cfg, s, call, draw, Serve(cfg, s, call, draw))
  {
    DispatchEffect(cfg, s, call, draw);
  }

  // ---------------------------------------------------------------------------------------------
  // The invariants step by step
  // ---------------------------------------------------------------------------------------------

  lemma RecordKeepsNonces(cfg: Config, w: World, call: Call, draw: string, o: Outcome)
    requires NonceInv(w) && draw !in w.issued && Effect(cfg, w.s, call, draw, o)
    ensures NonceInv(Record(w, call, o))
  {
  }

  lemma RecordKeepsCount(cfg: Config, w: World, call: Call, draw: string, o: Outcome)
    requires NonceInv(w) && NonceCount(w) && draw !in w.issued && Effect(cfg, w.s, call, draw, o)
    ensures NonceCount(Record(w, call, o))
  {
    assert draw !in w.s.nonces;
    if o.reply.Challenge? {
      AddsOne(w.s.nonces, draw);
    } else if o.state.nonces != w.s.nonces {
      TakesOne(w.s.nonces, NonceOf(call.p).value);
    }
  }

  lemma AddsOne(s: set<string>, x: string)
    requires x !in s
    ensures |s + {x}| == |s| + 1
  {
  }

  lemma TakesOne(s: set<string>, x: string)
    requires x in s
    ensures |s - {x}| == |s| - 1
  {
  }

  lemma RecordKeepsSessions(cfg: Config, w: World, call: Call, draw: string, o: Outcome)
    requires SessionInv(w) && draw !in w.started && Effect(cfg, w.s, call, draw, o)
    ensures SessionInv(Record(w, call, o))
  {
    assert draw !in w.s.sessions;
  }

  lemma ChainGrows(cfg: Config, key: string, anchors: seq<Value>, p: Value)
    requires HashChain(cfg, key, anchors) && SignedAnchor(cfg, key, p) && Continues(cfg, anchors, p)
    ensures HashChain(cfg, key, anchors + [p])
  {
    var longer := anchors + [p];
    forall i {:trigger Linked(cfg, longer, i)} | 0 <= i < |longer|
      ensures Linked(cfg, longer, i)
    {
      if i < |anchors| {
        assert Linked(cfg, anchors, i);
      }
    }
  }

  lemma RecordKeepsAnchors(cfg: Config, w: World, call: Call, draw: string, o: Outcome)
    requires AnchorInv(cfg, w) && Effect(cfg, w.s, call, draw, o)
    ensures AnchorInv(cfg, Record(w, call, o))
  {
    if !o.reply.Challenge? && !o.reply.Registered? && o.state.anchors != w.s.anchors {
      ChainGrows(cfg, w.s.projectKey.value, w.s.anchors, call.p);
    }
  }

  lemma StepKeeps(cfg: Config, w: World, e: Event)
    requires Inv(cfg, w) && FreshDraw(w, e)
    ensures Inv(cfg, Step(cfg, w, e)) && Grows(w, Step(cfg, w, e))
  {
    if e.Request? {
      var call := CallOf(cfg, w.s, e.req);
      ServeEffect(cfg, w.s, call, e.draw);
      RecordKeeps(cfg, w, call, e.draw, Serve(cfg, w.s, call, e.draw));
    }
  }

  lemma RecordKeeps(cfg: Config, w: World, call: Call, draw: string, o: Outcome)
    requires Inv(cfg, w) && draw !in w.issued && draw !in w.started && Effect(cfg, w.s, call, draw, o)
    ensures Inv(cfg, Record(w, call, o)) && Grows(w, Record(w, call, o))
  {
    RecordKeepsNonces(cfg, w, call, draw, o);
    RecordKeepsCount(cfg, w, call, draw, o);
    RecordKeepsSessions(cfg, w, call, draw, o);
    RecordKeepsAnchors(cfg, w, call, draw, o);
  }

  /** A request moves the state exactly as serving it does. */
  lemma StepServes(cfg: Config, w: World, req: Value, draw: string)
    ensures Step(cfg, w, Request(req, draw)).s == Serve(cfg, w.s, CallOf(cfg, w.s, req), draw).state
  {
  }

  /** Every run keeps the invariants. */
  lemma {:induction false} RunKeeps(cfg: Config, events: seq<Event>)
    requires FreshRun(cfg, events)
    ensures Inv(cfg, After(cfg, events))
    decreases |events|
  {
    if events != [] {
      var n := |events| - 1;
      RunKeeps(cfg, events[..n]);
      StepKeeps(cfg, After(cfg, events[..n]), events[n]);
    }
  }

  lemma {:induction false} RunPrefix(cfg: Config, events: seq<Event>, n: nat)
    requires FreshRun(cfg, events) && n <= |events|
    ensures FreshRun(cfg, events[..n])
    decreases |events|
  {
    if n == |events| {
      assert events[..n] == events;
    } else {
      var m := |events| - 1;
      RunPrefix(cfg, events[..m], n);
      assert events[..m][..n] == events[..n];
    }
  }

  /** Over every run: each issued nonce backs at most one registration; every issued nonce is waiting,
      behind a registration, behind a refusal or wasted on a request that raised; live sessions plus
      unregistered plus dropped ones are the registrations; and there are never more registrations
      than challenges. */
  lemma RegistrationsAccountedFor(cfg: Config, events: seq<Event>)
    requires FreshRun(cfg, events)
    ensures var w := After(cfg, events);
            && Distinct(w.used) && (forall n :: n in w.used ==> n in w.issued)
            && |w.s.nonces| + w.s.registrations + w.s.refusals + w.wasted == |w.issued|
            && |w.s.sessions| + w.s.unregisters + w.dropped == w.s.registrations
            && w.s.registrations <= |w.issued|
  {
    RunKeeps(cfg, events);
  }

  /** A run forgets nothing: anchors are only ever appended and the key stays the one first pinned. */
  lemma {:induction false} RunGrows(cfg: Config, events: seq<Event>, n: nat)
    requires FreshRun(cfg, events) && n <= |events|
    ensures Grows(After(cfg, events[..n]), After(cfg, events))
    decreases |events|
  {
    if n == |events| {
      assert events[..n] == events;
    } else {
      var m := |events| - 1;
      RunGrows(cfg, events[..m], n);
      assert events[..m][..n] == events[..n];
      RunKeeps(cfg, events[..m]);
      StepKeeps(cfg, After(cfg, events[..m]), events[m]);
    }
  }

  // ---------------------------------------------------------------------------------------------
  // Anchors
  // ---------------------------------------------------------------------------------------------

  lemma ResubmitLast(cfg: Config, s: State, draw: string)
    requires s.projectKey.Some? && s.anchors != [] && SignedAnchor(cfg, s.projectKey.value, s.anchors[|s.anchors| - 1])
    ensures Serve(cfg, s, Commit(s.anchors[|s.anchors| - 1]), draw) ==
            Outcome(s, if s.failAnchors then Refused("parent_unavailable") else Anchored(|s.anchors|))
  {
  }

  lemma InvSignsLast(cfg: Config, w: World)
    requires Inv(cfg, w) && w.s.anchors != []
    ensures w.s.projectKey.Some? && SignedAnchor(cfg, w.s.projectKey.value, w.s.anchors[|w.s.anchors| - 1])
  {
  }

  /** Submitting the newest accepted anchor again is answered like the first time and changes nothing. */
  lemma ResubmissionIsHarmless(cfg: Config, events: seq<Event>, draw: string)
    requires FreshRun(cfg, events) && After(cfg, events).s.anchors != []
    ensures var s := After(cfg, events).s;
            Serve(cfg, s, Commit(s.anchors[|s.anchors| - 1]), draw) ==
            Outcome(s, if s.failAnchors then Refused("parent_unavailable") else Anchored(|s.anchors|))
  {
    RunKeeps(cfg, events);
    InvSignsLast(cfg, After(cfg, events));
    ResubmitLast(cfg, After(cfg, events).s, draw);
  }

  /** Two different values with the same hash. */
  ghost predicate Collision(cfg: Config, x: Value, y: Value) {
    x != y && cfg.hash(x) == cfg.hash(y)
  }

  /** A statement fixes its place and the hash of the one before it. */
  lemma StatementFixesPast(cfg: Config, a: seq<Value>, b: seq<Value>, i: nat, j: nat)
    requires i < |a| && j < |b| && a[i] == b[j] && Linked(cfg, a, i) && Linked(cfg, b, j)
    ensures i == j
    ensures i > 0 ==> cfg.hash(a[i - 1]) == cfg.hash(b[i - 1])
  {
  }

  /** Up to `n` the lists are the same, or they collide at some place. */
  ghost predicate SameOrCollide(cfg: Config, a: seq<Value>, b: seq<Value>, n: nat)
    requires n <= |a| && n <= |b|
  {
    a[..n] == b[..n] || exists k :: 0 <= k < n - 1 && Collision(cfg, a[k], b[k])
  }

  /** Hash chains that share an anchor hold it at the same place and share everything before it, or
      collide at an earlier place. */
  lemma {:induction false} ChainsAgree(cfg: Config, k1: string, a: seq<Value>, k2: string, b: seq<Value>, i: nat, j: nat)
    requires HashChain(cfg, k1, a) && HashChain(cfg, k2, b)
    requires i < |a| && j < |b| && a[i] == b[j]
    ensures i == j && SameOrCollide(cfg, a, b, i + 1)
    decreases i
  {
    StatementFixesPast(cfg, a, b, i, j);
    if i > 0 {
      if a[i - 1] == b[i - 1] {
        ChainsAgree(cfg, k1, a, k2, b, i - 1, i - 1);
        OneLonger(cfg, a, b, i);
      } else {
        assert Collision(cfg, a[i - 1], b[i - 1]);
      }
    }
  }

  lemma OneLonger(cfg: Config, a: seq<Value>, b: seq<Value>, n: nat)
    requires n < |a| && n < |b| && a[n] == b[n] && SameOrCollide(cfg, a, b, n)
    ensures SameOrCollide(cfg, a, b, n + 1)
  {
    assert a[..n + 1] == a[..n] + [a[n]] && b[..n + 1] == b[..n] + [b[n]];
  }

  lemma ChainsWithSameEnd(cfg: Config, k1: string, a: seq<Value>, k2: string, b: seq<Value>)
    requires HashChain(cfg, k1, a) && HashChain(cfg, k2, b)
    requires a != [] && b != [] && a[|a| - 1] == b[|b| - 1]
    ensures |a| == |b|
    ensures a == b || exists k :: 0 <= k < |a| - 1 && Collision(cfg, a[k], b[k])
  {
    ChainsAgree(cfg, k1, a, k2, b, |a| - 1, |b| - 1);
    assert a[..|a|] == a && b[..|b|] == b;
    assert SameOrCollide(cfg, a, b, |a|);
  }

  /** The anchors of a run are a hash chain under the pinned key. */
  lemma RunAnchorsChain(cfg: Config, events: seq<Event>)
    requires FreshRun(cfg, events) && After(cfg, events).s.anchors != []
    ensures After(cfg, events).s.projectKey.Some?
    ensures HashChain(cfg, After(cfg, events).s.projectKey.value, After(cfg, events).s.anchors)
  {
    RunKeeps(cfg, events);
  }

  /** Two runs whose newest anchors are equal have accepted equally many anchors, and the same ones from
      the first on, unless the two they hold at some earlier place collide under the hash. */
  lemma SameAnchorSameHistory(cfg: Config, xs: seq<Event>, ys: seq<Event>, a: seq<Value>, b: seq<Value>)
    requires FreshRun(cfg, xs) && FreshRun(cfg, ys)
    requires a == After(cfg, xs).s.anchors && b == After(cfg, ys).s.anchors
    requires a != [] && b != [] && a[|a| - 1] == b[|b| - 1]
    ensures |a| == |b|
    ensures a == b || exists k :: 0 <= k < |a| - 1 && Collision(cfg, a[k], b[k])
  {
    RunAnchorsChain(cfg, xs);
    RunAnchorsChain(cfg, ys);
    ChainsWithSameEnd(cfg, After(cfg, xs).s.projectKey.value, a, After(cfg, ys).s.projectKey.value, b);
  }

  // ---------------------------------------------------------------------------------------------
  // Failed requests
  // ---------------------------------------------------------------------------------------------

  /** A request that raises leaves everything as it was, except that a register request has used up
      the nonce it named, and the error is noted. */
  lemma RaisedUndoesNothing(cfg: Config, s: State, call: Call, draw: string)
    requires Serve(cfg, s, call, draw).reply.Raised?
    ensures Serve(cfg, s, call, draw).state ==
            s.(errors := s.errors + 1,
               nonces := if call.Join? && NonceOf(call.p).Some? then s.nonces - {NonceOf(call.p).value} else s.nonces)
  {
  }

  /** A register request uses up the nonce it names, whatever comes of it, and raises when that nonce
      is not waiting. */
  lemma NonceIsSpent(cfg: Config, s: State, p: Value, draw: string)
    requires NonceOf(p).Some?
    ensures NonceOf(p).value !in Serve(cfg, s, Join(p), draw).state.nonces
    ensures NonceOf(p).value !in s.nonces ==> Serve(cfg, s, Join(p), draw).reply == Raised
  {
  }

  /** The nonce was issued and is no longer waiting. */
  predicate Spent(w: World, n: string) {
    n in w.issued && n !in w.s.nonces
  }

  lemma StepKeepsSpent(cfg: Config, w: World, e: Event, n: string)
    requires FreshDraw(w, e) && Spent(w, n)
    ensures Spent(Step(cfg, w, e), n)
  {
    if e.Request? {
      ServeEffect(cfg, w.s, CallOf(cfg, w.s, e.req), e.draw);
    }
  }

  lemma LastKeepsSpent(cfg: Config, events: seq<Event>, n: string)
    requires events != [] && FreshRun(cfg, events) && Spent(After(cfg, events[..|events| - 1]), n)
    ensures Spent(After(cfg, events), n)
  {
    StepKeepsSpent(cfg, After(cfg, events[..|events| - 1]), events[|events| - 1], n);
  }

  /** A nonce once issued and no longer waiting never waits again. */
  lemma {:induction false} SpentForever(cfg: Config, events: seq<Event>, i: nat, n: string)
    requires FreshRun(cfg, events) && i <= |events| && Spent(After(cfg, events[..i]), n)
    ensures Spent(After(cfg, events), n)
    decreases |events|
  {
    if i == |events| {
      assert events[..i] == events;
    } else {
      var before := events[..|events| - 1];
      assert before[..i] == events[..i];
      SpentForever(cfg, before, i, n);
      LastKeepsSpent(cfg, events, n);
    }
  }

  lemma NamedIsSpent(cfg: Config, w: World, req: Value, draw: string, p: Value)
    requires FreshDraw(w, Request(req, draw)) && CallOf(cfg, w.s, req) == Join(p)
    requires NonceOf(p).Some? && NonceOf(p).value in w.issued
    ensures Spent(Step(cfg, w, Request(req, draw)), NonceOf(p).value)
  {
    NonceIsSpent(cfg, w.s, p, draw);
    StepServes(cfg, w, req, draw);
    ServeEffect(cfg, w.s, Join(p), draw);
  }

  lemma {:induction false} NextFresh(cfg: Config, events: seq<Event>, i: nat)
    requires i < |events| && FreshRun(cfg, events[..i + 1])
    ensures After(cfg, events[..i + 1]) == Step(cfg, After(cfg, events[..i]), events[i])
    ensures FreshDraw(After(cfg, events[..i]), events[i])
  {
    assert events[..i + 1][..i] == events[..i];
  }

  lemma NamedInRun(cfg: Config, events: seq<Event>, i: nat, p: Value)
    requires FreshRun(cfg, events) && i < |events| && events[i].Request?
    requires CallOf(cfg, After(cfg, events[..i]).s, events[i].req) == Join(p)
    requires NonceOf(p).Some? && NonceOf(p).value in After(cfg, events[..i]).issued
    ensures Spent(After(cfg, events[..i + 1]), NonceOf(p).value)
  {
    RunPrefix(cfg, events, i + 1);
    NextFresh(cfg, events, i);
    NamedIsSpent(cfg, After(cfg, events[..i]), events[i].req, events[i].draw, p);
  }

  /** No nonce works twice: once a register request of a run has named an issued nonce, whatever came of
      that request, every later register request that names it raises. */
  lemma NonceWorksOnce(cfg: Config, events: seq<Event>, i: nat, p: Value, later: Value, draw: string)
    requires FreshRun(cfg, events) && i < |events| && events[i].Request?
    requires CallOf(cfg, After(cfg, events[..i]).s, events[i].req) == Join(p)
    requires NonceOf(p).Some? && NonceOf(p).value in After(cfg, events[..i]).issued && NonceOf(later) == NonceOf(p)
    ensures Serve(cfg, After(cfg, events).s, Join(later), draw).reply == Raised
  {
    NamedInRun(cfg, events, i, p);
    SpentForever(cfg, events, i + 1, NonceOf(p).value);
    NonceIsSpent(cfg, After(cfg, events).s, later, draw);
  }
}
