/** Cog conformance results: their classification, when a run counts as native, and how capabilities
    are upgraded to measured provenance. */
module Capabilities {
  import opened Basics

  // ---------------------------------------------------------------------------------------------
  // Results
  // ---------------------------------------------------------------------------------------------

  datatype Status = StatusMissingBinary | StatusExecError | StatusOther

  datatype Mode = Once | Interval | OtherMode(name: string)

  /** One raw harness result. Counts that are absent or null read as 0, flags by their truth value. */
  datatype Result = Result(
    id: Option<string>, status: Status, rc: Option<int>, timedOut: bool, mode: Option<Mode>,
    posts: int, launcher: bool, cycles: int, cycleMs: Option<string>, hostMachine: Option<string>, details: string)

  datatype Verdict = Clean | NoOutput | CliError | MissingBinary | ExecError

  /** `classify`. */
  function Classify(r: Result): Verdict {
    if r.status == StatusMissingBinary then MissingBinary
    else if r.status == StatusExecError then ExecError
    else if r.rc.Some? && r.rc.value != 0 then CliError
    else if r.rc.None? && !r.timedOut then ExecError
    else if r.mode == Some(Once) && r.rc != Some(0) then NoOutput
    else if r.mode == Some(Interval) then
      if (r.timedOut || (r.rc == Some(0) && r.launcher)) && r.posts >= 1 && r.cycles >= 2 then Clean else NoOutput
    else if r.posts >= 1 then Clean else NoOutput
  }

  /** The binary ran and did not fail by itself: exit code 0, or still running at the deadline. */
  predicate Ran(r: Result) {
    r.status == StatusOther && (r.rc == Some(0) || (r.rc.None? && r.timedOut))
  }

  /** Clean means what the documentation says: it ran and posted; a single run exited by itself; an
      interval run was still going at the deadline, or stopped by the launcher, after two cycles. */
  lemma CleanMeans(r: Result)
    ensures Classify(r) == Clean <==>
            && Ran(r) && r.posts >= 1
            && (r.mode == Some(Once) ==> r.rc == Some(0))
            && (r.mode == Some(Interval) ==> r.cycles >= 2 && (r.timedOut || r.launcher))
    ensures Classify(r) == MissingBinary <==> r.status == StatusMissingBinary
    ensures Classify(r) == ExecError <==> r.status == StatusExecError || (r.status == StatusOther && r.rc.None? && !r.timedOut)
    ensures Classify(r) == NoOutput <==> Ran(r) && Classify(r) != Clean
    ensures Classify(r) == CliError <==> r.status == StatusOther && r.rc.Some? && r.rc.value != 0
  {
  }

  // ---------------------------------------------------------------------------------------------
  // Native runs
  // ---------------------------------------------------------------------------------------------

  datatype Arch = Aarch64 | Arm | OtherArch(name: string)

  datatype Runtime = Docker | AppleContainer | Podman | NativeRuntime | Ssh | OtherRuntime(name: string)

  predicate IsContainer(rt: Runtime) {
    rt.Docker? || rt.AppleContainer? || rt.Podman?
  }

  function LowerChar(c: char): char {
    if 'A' <= c <= 'Z' then 'a' + (c - 'A') else c
  }

  function Lower(s: string): string {
    if s == "" then "" else [LowerChar(s[0])] + Lower(s[1..])
  }

  const AARCH64_MACHINES: set<string> := {"aarch64", "arm64"}
  const ARM_MACHINES: set<string> := {"armv7l", "armv8l", "armv7"}

  /** The machines that execute a cog of the given architecture without emulation. */
  function NativeMachines(arch: Arch, raw: bool): set<string> {
    match arch
    case Aarch64 => AARCH64_MACHINES
    case Arm => if raw then ARM_MACHINES + AARCH64_MACHINES else ARM_MACHINES
    case OtherArch(_) => {}
  }

  predicate Matches(m: Option<string>, machines: set<string>) {
    m.Some? && Lower(m.value) in machines
  }

  /** `native_run`. */
  predicate NativeRun(r: Result, arch: Arch, harness: Runtime, driver: Option<string>) {
    var machines := NativeMachines(arch, !IsContainer(harness));
    Matches(r.hostMachine, machines) && (IsContainer(harness) ==> Matches(driver, machines))
  }

  /** A machine with one of these names, in any case. */
  predicate Named(m: Option<string>, names: set<string>) {
    m.Some? && Lower(m.value) in names
  }

  /** A run is native exactly when the machine the harness saw executes the architecture, and for a container
      the machine that drives it too; a raw node may run 32-bit arm on an aarch64 kernel. */
  lemma NativeExactly(r: Result, arch: Arch, harness: Runtime, driver: Option<string>)
    ensures var container := harness == Docker || harness == AppleContainer || harness == Podman;
            var native := NativeRun(r, arch, harness, driver);
            match arch
            case Aarch64 =>
              if container then native <==> Named(r.hostMachine, {"aarch64", "arm64"}) && Named(driver, {"aarch64", "arm64"})
              else native <==> Named(r.hostMachine, {"aarch64", "arm64"})
            case Arm =>
              if container then native <==> && Named(r.hostMachine, {"armv7l", "armv8l", "armv7"})
                                            && Named(driver, {"armv7l", "armv8l", "armv7"})
              else native <==> Named(r.hostMachine, {"armv7l", "armv8l", "armv7", "aarch64", "arm64"})
            case OtherArch(_) => !native
  {
    assert ARM_MACHINES + AARCH64_MACHINES == {"armv7l", "armv8l", "armv7", "aarch64", "arm64"};
  }

  /** Lower case, letter by letter. */
  lemma {:induction false} LowerAt(s: string, i: nat)
    requires i < |s|
    ensures |Lower(s)| == |s|
    ensures Lower(s)[i] == if 'A' <= s[i] <= 'Z' then s[i] - 'A' + 'a' else s[i]
  {
    if |s| > 1 {
      LowerAt(s[1..], if i > 0 then i - 1 else 0);
    }
  }

  // ---------------------------------------------------------------------------------------------
  // Capabilities
  // ---------------------------------------------------------------------------------------------

  datatype CapId = ArchCap(arch: Arch) | ContainerCap(runtime: Runtime) | NativeCap | CycleMs | OtherCap(name: string)

  /** A provenance: one of the ranked ones, another scalar or none, or a list or object, which cannot be
      looked up. */
  datatype Provenance = Claimed | Probed | Measured | Unranked(text: Option<string>) | Unhashable(json: string)

  /** Attribute values: scalars, and lists or objects, which cannot stand in a key. */
  datatype Value = Null | Text(s: string) | Other(json: string) | Nested(json: string)

  /** The attributes of a capability: missing, an object, another falsy value (null, 0, "", [], false),
      or something else. */
  datatype Attrs = Absent | Object(fields: map<string, Value>) | Falsy(json: string) | Truthy(json: string)

  datatype Cap = Cap(id: CapId, attrs: Attrs, provenance: Provenance, rest: string)

  /** A node's list may hold things that are not capabilities. */
  datatype Item = Good(cap: Cap) | Malformed

  function Rank(p: Provenance): int {
    match p
    case Claimed => 0
    case Probed => 1
    case Measured => 2
    case _ => -1
  }

  function ArchName(arch: Arch): string {
    match arch
    case Aarch64 => "aarch64"
    case Arm => "arm"
    case OtherArch(name) => name
  }

  function RuntimeName(rt: Runtime): string {
    match rt
    case Docker => "docker"
    case AppleContainer => "apple-container"
    case Podman => "podman"
    case NativeRuntime => "native"
    case Ssh => "ssh"
    case OtherRuntime(name) => name
  }

  /** `RUNTIME_CAPABILITY`. */
  function RuntimeCap(rt: Runtime): Option<CapId> {
    if IsContainer(rt) then Some(ContainerCap(rt))
    else if rt.NativeRuntime? || rt.Ssh? then Some(NativeCap)
    else None
  }

  /** What a run is about: the architecture and runtime exercised, where the harness ran, and when. */
  datatype Context = Context(arch: Arch, runtime: Runtime, harness: Option<Runtime>, driver: Option<string>, at: string)

  /** `harness_runtime or runtime`: an empty name counts as none. */
  function HarnessOf(ctx: Context): Runtime {
    if ctx.harness.Some? && ctx.harness.value != OtherRuntime("") then ctx.harness.value else ctx.runtime
  }

  /** The architecture and runtime are ones that have a capability. */
  predicate Known(ctx: Context) {
    !ctx.arch.OtherArch? && RuntimeCap(ctx.runtime).Some?
  }

  predicate CleanAndNative(r: Result, ctx: Context) {
    Classify(r) == Clean && NativeRun(r, ctx.arch, HarnessOf(ctx), ctx.driver)
  }

  predicate AnyClean(results: seq<Result>, ctx: Context) {
    exists i :: 0 <= i < |results| && CleanAndNative(results[i], ctx)
  }

  /** Results that yield a cycle-time capability. */
  predicate Timed(r: Result, ctx: Context) {
    CleanAndNative(r, ctx) && r.cycleMs.Some?
  }

  /** Its fields `id` and `mode` are there. */
  predicate Complete(r: Result) {
    r.id.Some? && r.mode.Some?
  }

  function CycleCap(r: Result, ctx: Context): Cap
    requires r.id.Some? && r.cycleMs.Some?
  {
    Cap(CycleMs,
        Object(map["cog_id" := Text(r.id.value), "arch" := Text(ArchName(ctx.arch)), "runtime" := Text(RuntimeName(ctx.runtime)),
                   "value" := Other(r.cycleMs.value), "measured_at" := Text(ctx.at)]),
        Measured, r.details)
  }

  /** Results whose architecture is looked up: clean ones with a cycle time. */
  predicate HasCycle(r: Result) {
    Classify(r) == Clean && r.cycleMs.Some?
  }

  /** Its architecture is unknown, or it is to yield a cycle time and lacks a field that needs. */
  predicate Stops(r: Result, ctx: Context) {
    HasCycle(r) && (ctx.arch.OtherArch? || (Timed(r, ctx) && !Complete(r)))
  }

  /** `cycle_capabilities`; `None` when it raises. */
  function CycleCaps(results: seq<Result>, ctx: Context): Option<seq<Cap>> {
    if results == [] then Some([])
    else
      var n := |results| - 1;
      var before := CycleCaps(results[..n], ctx);
      if before.None? then None
      else if Stops(results[n], ctx) then None
      else if !Timed(results[n], ctx) then before
      else Some(before.value + [CycleCap(results[n], ctx)])
  }

  type CapKey = (Value, Value, Value)

  function FieldOf(a: Attrs, k: string): Value {
    if a.Object? && k in a.fields then a.fields[k] else Null
  }

  function KeyOf(c: Cap): CapKey {
    (FieldOf(c.attrs, "cog_id"), FieldOf(c.attrs, "arch"), FieldOf(c.attrs, "runtime"))
  }

  function FreshKeys(timed: seq<Cap>): set<CapKey> {
    set c | c in timed :: KeyOf(c)
  }

  /** An entry that cannot be read: its attributes are not an object, or it is a cycle time with a list or
      an object where the key is looked up. */
  predicate Unreadable(c: Cap) {
    c.attrs.Truthy? || (c.id.CycleMs? && (KeyOf(c).0.Nested? || KeyOf(c).1.Nested? || KeyOf(c).2.Nested?))
  }

  /** An older cycle time that the run measured again. */
  predicate Replaced(c: Cap, keys: set<CapKey>) {
    c.id.CycleMs? && KeyOf(c) in keys
  }

  predicate Exercised(id: CapId, ctx: Context) {
    id == ArchCap(ctx.arch) || Some(id) == RuntimeCap(ctx.runtime)
  }

  predicate Upgrades(c: Cap, ctx: Context, anyClean: bool) {
    anyClean && Exercised(c.id, ctx) && Rank(c.provenance) < 2
  }

  /** One entry of the loop: `None` when it raises. */
  function UpgradeOne(c: Cap, ctx: Context, anyClean: bool): Option<Cap> {
    if c.provenance.Unhashable? then None
    else if !Upgrades(c, ctx, anyClean) then Some(c)
    else
      match c.attrs
      case Absent => Some(Marked(c, map[], ctx))
      case Object(fields) => Some(Marked(c, fields, ctx))
      case _ => None
  }

  function Marked(c: Cap, fields: map<string, Value>, ctx: Context): Cap {
    c.(provenance := Measured,
       attrs := Object(fields["measured_by" := Text("cog-conformance")]["measured_at" := Text(ctx.at)]))
  }

  /** The entries so far, kept or upgraded; `None` when one raises. */
  function UpgradeAll(items: seq<Item>, ctx: Context, anyClean: bool, keys: set<CapKey>): Option<seq<Cap>> {
    if items == [] then Some([])
    else
      var n := |items| - 1;
      var before := UpgradeAll(items[..n], ctx, anyClean, keys);
      if before.None? || items[n].Malformed? || Unreadable(items[n].cap) then None
      else if Replaced(items[n].cap, keys) then before
      else
        var c := UpgradeOne(items[n].cap, ctx, anyClean);
        if c.None? then None else Some(before.value + [c.value])
  }

  /** `upgrade_provenance`; `None` when it raises. */
  function Upgrade(items: seq<Item>, results: seq<Result>, ctx: Context): Option<seq<Cap>> {
    if !Known(ctx) then None
    else
      var timed := CycleCaps(results, ctx);
      if timed.None? then None
      else
        var kept := UpgradeAll(items, ctx, AnyClean(results, ctx), FreshKeys(timed.value));
        if kept.None? then None else Some(kept.value + timed.value)
  }

  function Items(caps: seq<Cap>): (r: seq<Item>)
    ensures |r| == |caps| && forall i :: 0 <= i < |caps| ==> r[i] == Good(caps[i])
  {
    if caps == [] then [] else Items(caps[..|caps| - 1]) + [Good(caps[|caps| - 1])]
  }

  // ---------------------------------------------------------------------------------------------
  // Running it again
  // ---------------------------------------------------------------------------------------------

  lemma UpgradeOneTwice(c: Cap, ctx: Context, anyClean: bool)
    requires UpgradeOne(c, ctx, anyClean).Some?
    ensures UpgradeOne(UpgradeOne(c, ctx, anyClean).value, ctx, anyClean) == UpgradeOne(c, ctx, anyClean)
  {
  }

  lemma {:induction false} ItemsConcat(a: seq<Cap>, b: seq<Cap>)
    ensures Items(a + b) == Items(a) + Items(b)
  {
    var l, r := Items(a + b), Items(a) + Items(b);
    assert forall i :: 0 <= i < |l| ==> l[i] == r[i];
  }

  /** The kept entries are settled: not replaceable, and upgrading leaves them as they are. */
  ghost predicate Settled(caps: seq<Cap>, ctx: Context, anyClean: bool, keys: set<CapKey>) {
    forall c :: c in caps ==> !Replaced(c, keys) && !Unreadable(c) && UpgradeOne(c, ctx, anyClean) == Some(c)
  }

  lemma {:induction false} UpgradeAllSettles(items: seq<Item>, ctx: Context, anyClean: bool, keys: set<CapKey>)
    requires UpgradeAll(items, ctx, anyClean, keys).Some?
    ensures Settled(UpgradeAll(items, ctx, anyClean, keys).value, ctx, anyClean, keys)
    decreases |items|
  {
    if items != [] {
      var n := |items| - 1;
      UpgradeAllSettles(items[..n], ctx, anyClean, keys);
      var c := items[n].cap;
      if !Replaced(c, keys) {
        UpgradeOneTwice(c, ctx, anyClean);
      }
    }
  }

  lemma {:induction false} SettledStays(caps: seq<Cap>, ctx: Context, anyClean: bool, keys: set<CapKey>)
    requires Settled(caps, ctx, anyClean, keys)
    ensures UpgradeAll(Items(caps), ctx, anyClean, keys) == Some(caps)
    decreases |caps|
  {
    if caps != [] {
      var n := |caps| - 1;
      assert caps == caps[..n] + [caps[n]];
      assert Items(caps)[..n] == Items(caps[..n]);
      SettledStays(caps[..n], ctx, anyClean, keys);
    }
  }

  /** Entries that the run measures again disappear from the kept ones. */
  lemma {:induction false} ReplacedVanish(items: seq<Item>, caps: seq<Cap>, ctx: Context, anyClean: bool, keys: set<CapKey>)
    requires forall c :: c in caps ==> Replaced(c, keys) && !Unreadable(c)
    ensures UpgradeAll(items + Items(caps), ctx, anyClean, keys) == UpgradeAll(items, ctx, anyClean, keys)
    decreases |caps|
  {
    if caps == [] {
      assert items + Items(caps) == items;
    } else {
      var n := |caps| - 1;
      var all := items + Items(caps);
      assert caps == caps[..n] + [caps[n]];
      assert all[..|all| - 1] == items + Items(caps[..n]);
      ReplacedVanish(items, caps[..n], ctx, anyClean, keys);
    }
  }

  lemma CycleCapShape(r: Result, ctx: Context)
    requires r.id.Some? && r.cycleMs.Some?
    ensures var c := CycleCap(r, ctx);
            c.id.CycleMs? && c.attrs.Object? && !Unreadable(c) && c.provenance == Measured
  {
  }

  lemma {:induction false} CycleCapsShape(results: seq<Result>, ctx: Context)
    requires CycleCaps(results, ctx).Some?
    ensures forall c :: c in CycleCaps(results, ctx).value ==>
                          c.id.CycleMs? && c.attrs.Object? && !Unreadable(c) && c.provenance == Measured
    ensures CycleCaps(results, ctx).value != [] ==> AnyClean(results, ctx)
    decreases |results|
  {
    if results != [] {
      var n := |results| - 1;
      CycleCapsShape(results[..n], ctx);
      if Timed(results[n], ctx) {
        CycleCapShape(results[n], ctx);
      }
      if AnyClean(results[..n], ctx) {
        var i :| 0 <= i < n && CleanAndNative(results[..n][i], ctx);
        assert CleanAndNative(results[i], ctx);
      }
    }
  }

  /** Applying the same run's results again changes nothing. */
  lemma UpgradeTwice(items: seq<Item>, results: seq<Result>, ctx: Context)
    requires Upgrade(items, results, ctx).Some?
    ensures Upgrade(Items(Upgrade(items, results, ctx).value), results, ctx) == Upgrade(items, results, ctx)
  {
    var timed := CycleCaps(results, ctx).value;
    var keys, anyClean := FreshKeys(timed), AnyClean(results, ctx);
    var kept := UpgradeAll(items, ctx, anyClean, keys).value;
    CycleCapsShape(results, ctx);
    UpgradeAllSettles(items, ctx, anyClean, keys);
    SettledStays(kept, ctx, anyClean, keys);
    ItemsConcat(kept, timed);
    ReplacedVanish(Items(kept), timed, ctx, anyClean, keys);
  }

  // ---------------------------------------------------------------------------------------------
  // What an upgrade may do
  // ---------------------------------------------------------------------------------------------

  /** `after` has the attributes of `before` and, newly set, who measured it and when. */
  predicate MarkedAttrs(before: Attrs, after: Attrs, at: string) {
    && !before.Falsy? && !before.Truthy? && after.Object?
    && "measured_by" in after.fields && after.fields["measured_by"] == Text("cog-conformance")
    && "measured_at" in after.fields && after.fields["measured_at"] == Text(at)
    && (after.fields - {"measured_by", "measured_at"}) ==
       (if before.Object? then before.fields - {"measured_by", "measured_at"} else map[])
  }

  /** `after` may stand where `before` stood: nothing but an exercised entry changes, its rank does not
      fall, it becomes measured only through a clean and native result, and it keeps its other
      attributes. */
  predicate FairChange(before: Cap, after: Cap, ctx: Context, anyClean: bool) {
    && after.id == before.id && after.rest == before.rest
    && Rank(before.provenance) <= Rank(after.provenance) && (before.provenance == Measured ==> after == before)
    && (!Exercised(before.id, ctx) ==> after == before)
    && (after != before ==> && anyClean && after.provenance == Measured && Rank(before.provenance) < 2
                            && MarkedAttrs(before.attrs, after.attrs, ctx.at))
    && (anyClean && Exercised(before.id, ctx) ==> after.provenance == Measured)
  }

  /** Which entries a run exercises: the architecture's, and that of its container runtime, or the native one for
      a native or remote run. */
  lemma ExercisedExactly(id: CapId, ctx: Context)
    ensures Exercised(id, ctx) <==>
            || id == ArchCap(ctx.arch)
            || (id == ContainerCap(ctx.runtime) && (ctx.runtime == Docker || ctx.runtime == AppleContainer || ctx.runtime == Podman))
            || (id == NativeCap && (ctx.runtime == NativeRuntime || ctx.runtime == Ssh))
  {
  }

  /** A run counts for upgrades when some result is clean and native, timed or not. */
  lemma AnyCleanExactly(results: seq<Result>, ctx: Context)
    ensures AnyClean(results, ctx) <==>
            exists r :: r in results && Classify(r) == Clean && NativeRun(r, ctx.arch, HarnessOf(ctx), ctx.driver)
  {
    if r :| r in results && Classify(r) == Clean && NativeRun(r, ctx.arch, HarnessOf(ctx), ctx.driver) {
      var i :| 0 <= i < |results| && results[i] == r;
      assert CleanAndNative(results[i], ctx);
    }
    if AnyClean(results, ctx) {
      var i :| 0 <= i < |results| && CleanAndNative(results[i], ctx);
      assert results[i] in results;
    }
  }

  /** The entries of the list that are not replaced, in order. */
  function Remaining(items: seq<Item>, keys: set<CapKey>): seq<Cap>
    decreases |items|
  {
    if items == [] then []
    else
      var n := |items| - 1;
      Remaining(items[..n], keys)
      + if items[n].Good? && !Replaced(items[n].cap, keys) then [items[n].cap] else []
  }

  lemma UpgradeOneFair(c: Cap, ctx: Context, anyClean: bool)
    requires UpgradeOne(c, ctx, anyClean).Some?
    ensures FairChange(c, UpgradeOne(c, ctx, anyClean).value, ctx, anyClean)
  {
  }

  lemma {:induction false} UpgradeAllFair(items: seq<Item>, ctx: Context, anyClean: bool, keys: set<CapKey>)
    requires UpgradeAll(items, ctx, anyClean, keys).Some?
    ensures var after := UpgradeAll(items, ctx, anyClean, keys).value;
            var before := Remaining(items, keys);
            && |after| == |before|
            && forall i :: 0 <= i < |before| ==> FairChange(before[i], after[i], ctx, anyClean)
    decreases |items|
  {
    if items != [] {
      var n := |items| - 1;
      UpgradeAllFair(items[..n], ctx, anyClean, keys);
      if !Replaced(items[n].cap, keys) {
        UpgradeOneFair(items[n].cap, ctx, anyClean);
      }
    }
  }

  /** The result is the remaining entries in order, each changed only as allowed, and then this run's
      cycle times; without a clean and native result it is the old list. */
  lemma UpgradeIsFair(items: seq<Item>, results: seq<Result>, ctx: Context)
    requires Upgrade(items, results, ctx).Some?
    ensures var out, timed := Upgrade(items, results, ctx).value, CycleCaps(results, ctx).value;
            var before := Remaining(items, FreshKeys(timed));
            && |out| == |before| + |timed| && out[|before|..] == timed
            && (forall i :: 0 <= i < |before| ==> FairChange(before[i], out[i], ctx, AnyClean(results, ctx)))
    ensures !AnyClean(results, ctx) ==> CycleCaps(results, ctx) == Some([])
  {
    var timed := CycleCaps(results, ctx).value;
    UpgradeAllFair(items, ctx, AnyClean(results, ctx), FreshKeys(timed));
    CycleCapsShape(results, ctx);
  }

  lemma {:induction false} RemainingConcat(a: seq<Item>, b: seq<Item>, keys: set<CapKey>)
    ensures Remaining(a + b, keys) == Remaining(a, keys) + Remaining(b, keys)
    decreases |b|
  {
    if b == [] {
      assert a + b == a;
    } else {
      assert (a + b)[..|a + b| - 1] == a + b[..|b| - 1];
      RemainingConcat(a, b[..|b| - 1], keys);
    }
  }

  /** An entry goes only when it is a cycle time of a cog that this run timed, on the same architecture and
      runtime. */
  lemma RemainingOne(c: Cap, results: seq<Result>, ctx: Context)
    ensures Remaining([Good(c)], TimedKeys(results, ctx)) ==
            if c.id == CycleMs && exists r :: r in results && Timed(r, ctx) && r.id.Some?
                                              && FieldOf(c.attrs, "cog_id") == Text(r.id.value)
                                              && FieldOf(c.attrs, "arch") == Text(ArchName(ctx.arch))
                                              && FieldOf(c.attrs, "runtime") == Text(RuntimeName(ctx.runtime))
            then [] else [c]
  {
    var keys := TimedKeys(results, ctx);
    assert Remaining([Good(c)], keys) == if Replaced(c, keys) then [] else [c];
    if KeyOf(c) in keys {
      var r :| r in results && Timed(r, ctx) && r.id.Some? && KeyOfResult(r, ctx) == KeyOf(c);
    }
    if r :| r in results && Timed(r, ctx) && r.id.Some? && FieldOf(c.attrs, "cog_id") == Text(r.id.value)
            && FieldOf(c.attrs, "arch") == Text(ArchName(ctx.arch)) && FieldOf(c.attrs, "runtime") == Text(RuntimeName(ctx.runtime)) {
      assert KeyOfResult(r, ctx) == KeyOf(c);
    }
  }

  // ---------------------------------------------------------------------------------------------
  // What cycle times say
  // ---------------------------------------------------------------------------------------------

  /** A result yields at most one cycle time: for a clean native one that has one, under its id, with the
      architecture, runtime and time of the run. */
  lemma CycleCapOfOne(r: Result, ctx: Context)
    requires CycleCaps([r], ctx).Some?
    ensures var caps := CycleCaps([r], ctx).value;
            if Classify(r) == Clean && NativeRun(r, ctx.arch, HarnessOf(ctx), ctx.driver) && r.cycleMs.Some? && r.id.Some?
            then && |caps| == 1 && caps[0].id == CycleMs && caps[0].provenance == Measured && caps[0].rest == r.details
                 && FieldOf(caps[0].attrs, "cog_id") == Text(r.id.value)
                 && FieldOf(caps[0].attrs, "value") == Other(r.cycleMs.value)
                 && FieldOf(caps[0].attrs, "arch") == Text(ArchName(ctx.arch))
                 && FieldOf(caps[0].attrs, "runtime") == Text(RuntimeName(ctx.runtime))
                 && FieldOf(caps[0].attrs, "measured_at") == Text(ctx.at)
            else caps == []
  {
    assert [r][..0] == [];
    assert CycleCaps([], ctx) == Some([]);
  }

  /** The names under which architecture and runtime are recorded. */
  lemma NamesExactly()
    ensures ArchName(Aarch64) == "aarch64" && ArchName(Arm) == "arm"
    ensures RuntimeName(Docker) == "docker" && RuntimeName(AppleContainer) == "apple-container" && RuntimeName(Podman) == "podman"
    ensures RuntimeName(NativeRuntime) == "native" && RuntimeName(Ssh) == "ssh"
  {
  }

  /** Results are taken one by one, in order. */
  lemma {:induction false} CycleCapsConcat(a: seq<Result>, b: seq<Result>, ctx: Context)
    requires CycleCaps(a, ctx).Some? && CycleCaps(b, ctx).Some?
    ensures CycleCaps(a + b, ctx) == Some(CycleCaps(a, ctx).value + CycleCaps(b, ctx).value)
    decreases |b|
  {
    if b == [] {
      assert a + b == a && CycleCaps(a, ctx).value + [] == CycleCaps(a, ctx).value;
    } else {
      var n := |b| - 1;
      assert (a + b)[..|a + b| - 1] == a + b[..n] && (a + b)[|a + b| - 1] == b[n];
      CycleCapsConcat(a, b[..n], ctx);
      if Timed(b[n], ctx) {
        Regroup(CycleCaps(a, ctx).value, CycleCaps(b[..n], ctx).value, [CycleCap(b[n], ctx)]);
      }
    }
  }

  // ---------------------------------------------------------------------------------------------
  // Emulated runs
  // ---------------------------------------------------------------------------------------------

  lemma {:induction false} NothingCleanKeeps(items: seq<Item>, ctx: Context)
    requires UpgradeAll(items, ctx, false, {}).Some?
    ensures Items(UpgradeAll(items, ctx, false, {}).value) == items
    decreases |items|
  {
    if items != [] {
      var n := |items| - 1;
      NothingCleanKeeps(items[..n], ctx);
      var before := UpgradeAll(items[..n], ctx, false, {}).value;
      NothingCleanOne(items, ctx);
      ItemsSnoc(before, items[n].cap);
      assert items == items[..n] + [items[n]];
    }
  }

  lemma NothingCleanOne(items: seq<Item>, ctx: Context)
    requires items != [] && UpgradeAll(items, ctx, false, {}).Some?
    ensures var n := |items| - 1;
            && items[n].Good? && UpgradeAll(items[..n], ctx, false, {}).Some?
            && UpgradeAll(items, ctx, false, {}).value == UpgradeAll(items[..n], ctx, false, {}).value + [items[n].cap]
  {
  }

  lemma ItemsSnoc(caps: seq<Cap>, c: Cap)
    ensures Items(caps + [c]) == Items(caps) + [Good(c)]
  {
    var l, r := Items(caps + [c]), Items(caps) + [Good(c)];
    assert forall i :: 0 <= i < |l| ==> l[i] == r[i];
  }

  /** The machine that drives a container harness does not execute the architecture. */
  predicate Emulated(ctx: Context) {
    var harness := if ctx.harness.None? || ctx.harness == Some(OtherRuntime("")) then ctx.runtime else ctx.harness.value;
    && (harness == Docker || harness == AppleContainer || harness == Podman)
    && (ctx.arch == Aarch64 ==> !Named(ctx.driver, {"aarch64", "arm64"}))
    && (ctx.arch == Arm ==> !Named(ctx.driver, {"armv7l", "armv8l", "armv7"}))
  }

  lemma EmulatedIsNotClean(results: seq<Result>, ctx: Context)
    requires Emulated(ctx)
    ensures !AnyClean(results, ctx)
  {
    forall i | 0 <= i < |results|
      ensures !CleanAndNative(results[i], ctx)
    {
      NativeExactly(results[i], ctx.arch, HarnessOf(ctx), ctx.driver);
    }
  }

  /** An emulated run upgrades nothing and adds nothing: the list comes back as it was. */
  lemma EmulatedChangesNothing(items: seq<Item>, results: seq<Result>, ctx: Context)
    requires Emulated(ctx) && Upgrade(items, results, ctx).Some?
    ensures Items(Upgrade(items, results, ctx).value) == items
  {
    EmulatedIsNotClean(results, ctx);
    CycleCapsShape(results, ctx);
    assert FreshKeys([]) == {};
    NothingCleanKeeps(items, ctx);
    var kept := UpgradeAll(items, ctx, false, {}).value;
    assert kept + [] == kept;
  }

  // ---------------------------------------------------------------------------------------------
  // When it raises
  // ---------------------------------------------------------------------------------------------

  /** An entry that is no capability, that cannot be read, or that is not replaced and either has a
      provenance that cannot be looked up or would have to be marked although its attributes are a falsy
      value that cannot take fields. */
  predicate Faulty(item: Item, ctx: Context, anyClean: bool, keys: set<CapKey>) {
    || item.Malformed?
    || item.cap.attrs.Truthy?
    || (item.cap.id == CycleMs && exists k :: k in {"cog_id", "arch", "runtime"} && FieldOf(item.cap.attrs, k).Nested?)
    || (&& !(item.cap.id == CycleMs && KeyOf(item.cap) in keys)
        && (|| item.cap.provenance.Unhashable?
            || (item.cap.attrs.Falsy? && anyClean && Exercised(item.cap.id, ctx) && item.cap.provenance != Measured)))
  }

  lemma UnreadableExactly(c: Cap)
    ensures Unreadable(c) <==>
            c.attrs.Truthy? || (c.id == CycleMs && exists k :: k in {"cog_id", "arch", "runtime"} && FieldOf(c.attrs, k).Nested?)
  {
    if c.id == CycleMs && Unreadable(c) && !c.attrs.Truthy? {
      assert "cog_id" in {"cog_id", "arch", "runtime"} && "arch" in {"cog_id", "arch", "runtime"};
    }
  }

  lemma {:induction false} UpgradeAllRaises(items: seq<Item>, ctx: Context, anyClean: bool, keys: set<CapKey>)
    ensures UpgradeAll(items, ctx, anyClean, keys).None? <==>
            exists i :: 0 <= i < |items| && Faulty(items[i], ctx, anyClean, keys)
    decreases |items|
  {
    if items != [] {
      var n := |items| - 1;
      UpgradeAllRaises(items[..n], ctx, anyClean, keys);
      if items[n].Good? {
        UnreadableExactly(items[n].cap);
      }
      assert forall i :: 0 <= i < n ==> items[..n][i] == items[i];
      if UpgradeAll(items, ctx, anyClean, keys).None? && UpgradeAll(items[..n], ctx, anyClean, keys).Some? {
        assert Faulty(items[n], ctx, anyClean, keys);
      }
    }
  }

  lemma {:induction false} CycleCapsRaises(results: seq<Result>, ctx: Context)
    ensures CycleCaps(results, ctx).None? <==> exists i :: 0 <= i < |results| && Stops(results[i], ctx)
    ensures forall r :: r in results ==>
                          (Stops(r, ctx) <==> && Classify(r) == Clean && r.cycleMs.Some?
                                              && (ctx.arch.OtherArch? || (Timed(r, ctx) && (r.id.None? || r.mode.None?))))
    decreases |results|
  {
    if results != [] {
      var n := |results| - 1;
      CycleCapsRaises(results[..n], ctx);
      assert forall i :: 0 <= i < n ==> results[..n][i] == results[i];
    }
  }

  /** Id, architecture and runtime of each timed result. */
  function TimedKeys(results: seq<Result>, ctx: Context): set<CapKey> {
    set r | r in results && Timed(r, ctx) && r.id.Some? :: KeyOfResult(r, ctx)
  }

  function KeyOfResult(r: Result, ctx: Context): CapKey
    requires r.id.Some?
  {
    (Text(r.id.value), Text(ArchName(ctx.arch)), Text(RuntimeName(ctx.runtime)))
  }

  lemma {:induction false} FreshKeysAreTimed(results: seq<Result>, ctx: Context)
    requires CycleCaps(results, ctx).Some?
    ensures FreshKeys(CycleCaps(results, ctx).value) == TimedKeys(results, ctx)
    decreases |results|
  {
    if results != [] {
      var n := |results| - 1;
      var r, most := results[n], results[..n];
      FreshKeysAreTimed(most, ctx);
      assert results == most + [r];
      if Timed(r, ctx) {
        KeyOfCycleCap(r, ctx);
        FreshKeysSnoc(CycleCaps(most, ctx).value, CycleCap(r, ctx));
      }
      TimedKeysSnoc(most, r, ctx);
    }
  }

  lemma KeyOfCycleCap(r: Result, ctx: Context)
    requires r.id.Some? && r.cycleMs.Some?
    ensures KeyOf(CycleCap(r, ctx)) == KeyOfResult(r, ctx)
  {
  }

  lemma FreshKeysSnoc(caps: seq<Cap>, c: Cap)
    ensures FreshKeys(caps + [c]) == FreshKeys(caps) + {KeyOf(c)}
  {
  }

  lemma TimedKeysSnoc(most: seq<Result>, r: Result, ctx: Context)
    ensures TimedKeys(most + [r], ctx) ==
            TimedKeys(most, ctx) + if Timed(r, ctx) && r.id.Some? then {KeyOfResult(r, ctx)} else {}
  {
  }

  /** The upgrade fails exactly on an unknown architecture or runtime, a timed result without id or
      mode, or a faulty entry. */
  lemma UpgradeRaisesExactly(items: seq<Item>, results: seq<Result>, ctx: Context)
    ensures Upgrade(items, results, ctx).None? <==>
            || ctx.arch.OtherArch? || ctx.runtime.OtherRuntime?
            || (exists i :: 0 <= i < |results| && Timed(results[i], ctx) && (results[i].id.None? || results[i].mode.None?))
            || (exists i :: 0 <= i < |items| && Faulty(items[i], ctx, AnyClean(results, ctx), TimedKeys(results, ctx)))
  {
    CycleCapsRaises(results, ctx);
    if CycleCaps(results, ctx).Some? {
      FreshKeysAreTimed(results, ctx);
      UpgradeAllRaises(items, ctx, AnyClean(results, ctx), FreshKeys(CycleCaps(results, ctx).value));
    }
  }

  // ---------------------------------------------------------------------------------------------
  // The loops
  // ---------------------------------------------------------------------------------------------

  method CycleCapabilities(results: seq<Result>, ctx: Context) returns (caps: Option<seq<Cap>>)
    ensures caps == CycleCaps(results, ctx)
  {
    var out: seq<Cap> := [];
    for i := 0 to |results|
      invariant CycleCaps(results[..i], ctx) == Some(out)
    {
      var r := results[i];
      assert results[..i + 1][..i] == results[..i] && results[..i + 1][i] == r;
      if Classify(r) != Clean || r.cycleMs.None? {
        continue;
      }
      if ctx.arch.OtherArch? {
        CycleCapsRaises(results, ctx);
        assert Stops(results[i], ctx);
        return None;
      }
      if !NativeRun(r, ctx.arch, HarnessOf(ctx), ctx.driver) {
        continue;
      }
      if !Complete(r) {
        CycleCapsRaises(results, ctx);
        assert Stops(results[i], ctx);
        return None;
      }
      out := out + [CycleCap(r, ctx)];
    }
    assert results[..|results|] == results;
    return Some(out);
  }

  method HasClean(results: seq<Result>, ctx: Context) returns (any: bool)
    ensures any == AnyClean(results, ctx)
  {
    for i := 0 to |results|
      invariant forall j :: 0 <= j < i ==> !CleanAndNative(results[j], ctx)
    {
      if CleanAndNative(results[i], ctx) {
        return true;
      }
    }
    return false;
  }

  /** `upgrade_provenance`. */
  method UpgradeProvenance(items: seq<Item>, results: seq<Result>, ctx: Context) returns (caps: Option<seq<Cap>>)
    ensures caps == Upgrade(items, results, ctx)
  {
    if !Known(ctx) {
      return None;
    }
    var anyClean := HasClean(results, ctx);
    var timed := CycleCapabilities(results, ctx);
    if timed.None? {
      return None;
    }
    var kept := UpgradeEntries(items, ctx, anyClean, FreshKeys(timed.value));
    if kept.None? {
      return None;
    }
    return Some(kept.value + timed.value);
  }

  method UpgradeEntries(items: seq<Item>, ctx: Context, anyClean: bool, keys: set<CapKey>) returns (caps: Option<seq<Cap>>)
    ensures caps == UpgradeAll(items, ctx, anyClean, keys)
  {
    var out: seq<Cap> := [];
    for i := 0 to |items|
      invariant UpgradeAll(items[..i], ctx, anyClean, keys) == Some(out)
    {
      assert items[..i + 1][..i] == items[..i] && items[..i + 1][i] == items[i];
      UpgradeAllRaises(items, ctx, anyClean, keys);
      if items[i].Good? {
        UnreadableExactly(items[i].cap);
      }
      if items[i].Malformed? || Unreadable(items[i].cap) {
        assert Faulty(items[i], ctx, anyClean, keys);
        return None;
      }
      var c := items[i].cap;
      if Replaced(c, keys) {
        continue;
      }
      if c.provenance.Unhashable? || (Upgrades(c, ctx, anyClean) && c.attrs.Falsy?) {
        assert Faulty(items[i], ctx, anyClean, keys);
        return None;
      }
      if Upgrades(c, ctx, anyClean) {
        c := Marked(c, if c.attrs.Object? then c.attrs.fields else map[], ctx);
      }
      out := out + [c];
    }
    assert items[..|items|] == items;
    return Some(out);
  }
}
