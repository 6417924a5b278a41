/** What consolidation guarantees: it keeps a catalog valid, running it again does nothing, and every
    canonical entry is the priority merge of its group. */
module CatalogTheorems {
  import opened Basics
  import opened CatalogMerge
  import opened Catalog

  predicate FlatRefs(al: Aliases) {
    Flat(al.modules) && Flat(al.chips)
  }

  // ---------------------------------------------------------------------------------------------
  // Validity
  // ---------------------------------------------------------------------------------------------

  lemma UniqueAfterRemap(cat: Catalog, al: Aliases)
    requires ValidCatalog(cat) && Consolidate(cat, al).Done?
    ensures var c := Consolidate(cat, al).catalog;
            UniqueIds(c.projects) && UniqueIds(c.modules) && UniqueIds(c.chips)
  {
    CollectionUnique(cat.projects, al.projects);
    CollectionUnique(cat.modules, al.modules);
    CollectionUnique(cat.chips, al.chips);
  }

  lemma RemapKeepsIds(ms: seq<Record>, alias: Alias, id: string)
    ensures id in Ids(RemapAllChips(ms, alias)) <==> id in Ids(ms)
  {
    var rs := RemapAllChips(ms, alias);
    IdThere(ms, id);
    IdThere(rs, id);
    if id in Ids(ms) {
      var i := Find(ms, id).value;
      assert rs[i].id == id;
    }
    if id in Ids(rs) {
      var i := Find(rs, id).value;
      assert ms[i].id == id;
    }
  }

  lemma ProjectRefsResolve(cat: Catalog, al: Aliases)
    requires ValidCatalog(cat) && Flat(al.modules) && Consolidate(cat, al).Done?
    ensures var c := Consolidate(cat, al).catalog;
            ModulesResolve(c.projects, Ids(c.modules))
  {
    var c := Consolidate(cat, al).catalog;
    var kept := Drop(FoldCollection(cat.projects, al.projects).entries, al.projects);
    var left := Drop(FoldCollection(cat.modules, al.modules).entries, al.modules);
    forall p, r | p in c.projects && r in ModuleRefs(p)
      ensures r in Ids(c.modules)
    {
      var i :| 0 <= i < |c.projects| && c.projects[i] == p;
      var before := kept[i];
      KeptProject(cat.projects, al.projects, before);
      var q :| q in cat.projects && q.modules == before.modules;
      RemapMember(before.modules.value, al.modules, r);
      var x :| x in before.modules.value && r == Target(al.modules, x);
      assert x in ModuleRefs(q);
      TargetSurvives(cat.modules, al.modules, x);
      RemapKeepsIds(left, al.chips, r);
    }
  }

  lemma ChipRefsResolve(cat: Catalog, al: Aliases)
    requires ValidCatalog(cat) && Flat(al.chips) && Consolidate(cat, al).Done?
    ensures var c := Consolidate(cat, al).catalog;
            ChipsResolve(c.modules, Ids(c.chips))
  {
    var c := Consolidate(cat, al).catalog;
    var left := Drop(FoldCollection(cat.modules, al.modules).entries, al.modules);
    forall m, r | m in c.modules && r in ListOf(m, Chips)
      ensures r in Ids(c.chips)
    {
      var i :| 0 <= i < |c.modules| && c.modules[i] == m;
      var before := left[i];
      KeptChips(cat.modules, al.modules, before, Ids(cat.chips));
      RemapMember(ListOf(before, Chips), al.chips, r);
      var x :| x in ListOf(before, Chips) && r == Target(al.chips, x);
      TargetSurvives(cat.chips, al.chips, x);
    }
  }

  /** With flat module and chip aliases, consolidating a valid catalog yields a valid one. */
  lemma StaysValid(cat: Catalog, al: Aliases)
    requires ValidCatalog(cat) && FlatRefs(al) && Consolidate(cat, al).Done?
    ensures ValidCatalog(Consolidate(cat, al).catalog)
  {
    UniqueAfterRemap(cat, al);
    ProjectRefsResolve(cat, al);
    ChipRefsResolve(cat, al);
  }

  /** Every aliased id of the collection has its target in it. */
  predicate TargetsPresent(entries: seq<Record>, alias: Alias) {
    forall k :: k in alias && k in Ids(entries) ==> alias[k] in Ids(entries)
  }

  lemma {:induction false} FoldSucceeds(entries: seq<Record>, alias: Alias, order: seq<string>)
    requires TargetsPresent(entries, alias) && forall k :: k in order ==> k in alias
    ensures FoldAll(entries, alias, order).Folded?
    decreases |order|
  {
    if order != [] {
      var n := |order| - 1;
      assert order == order[..n] + [order[n]];
      FoldSucceeds(entries, alias, order[..n]);
      var before := FoldAll(entries, alias, order[..n]).entries;
      FoldShape(entries, alias, order[..n]);
      FindSame(entries, before, order[n]);
      FindSame(entries, before, alias[order[n]]);
      IdThere(entries, order[n]);
      IdThere(entries, alias[order[n]]);
    }
  }

  lemma CollectionSucceedsExactly(entries: seq<Record>, alias: Alias)
    ensures FoldCollection(entries, alias).Folded? <==> TargetsPresent(entries, alias)
  {
    var order := SortedKeys(alias.Keys);
    if TargetsPresent(entries, alias) {
      FoldSucceeds(entries, alias, order);
    }
    if FoldCollection(entries, alias).Folded? {
      forall k | k in alias && k in Ids(entries)
        ensures alias[k] in Ids(entries)
      {
        TargetsThere(entries, alias, order, k);
      }
    }
  }

  /** The run succeeds exactly when every aliased id present has its target present. */
  lemma SucceedsExactly(cat: Catalog, al: Aliases)
    ensures Consolidate(cat, al).Done? <==>
            && TargetsPresent(cat.projects, al.projects)
            && TargetsPresent(cat.modules, al.modules)
            && TargetsPresent(cat.chips, al.chips)
  {
    CollectionSucceedsExactly(cat.projects, al.projects);
    CollectionSucceedsExactly(cat.modules, al.modules);
    CollectionSucceedsExactly(cat.chips, al.chips);
  }

  // ---------------------------------------------------------------------------------------------
  // Running it again
  // ---------------------------------------------------------------------------------------------

  ghost predicate AllSurvive(entries: seq<Record>, alias: Alias) {
    forall i :: 0 <= i < |entries| ==> Survives(alias, entries[i].id)
  }

  lemma {:induction false} FoldNothing(entries: seq<Record>, alias: Alias, order: seq<string>)
    requires AllSurvive(entries, alias)
    ensures FoldAll(entries, alias, order) == Folded(entries, [])
    decreases |order|
  {
    if order != [] {
      var n := |order| - 1;
      FoldNothing(entries, alias, order[..n]);
      var from := Find(entries, order[n]);
      assert from.Some? ==> Survives(alias, entries[from.value].id);
    }
  }

  lemma {:induction false} DropNothing(entries: seq<Record>, alias: Alias)
    requires AllSurvive(entries, alias)
    ensures Drop(entries, alias) == entries
  {
    if entries != [] {
      assert AllSurvive(entries[1..], alias);
      DropNothing(entries[1..], alias);
    }
  }

  lemma DropLeavesSurvivors(entries: seq<Record>, alias: Alias)
    ensures AllSurvive(Drop(entries, alias), alias)
  {
    var kept := Drop(entries, alias);
    forall i | 0 <= i < |kept|
      ensures Survives(alias, kept[i].id)
    {
      DropMember(entries, alias, kept[i]);
    }
  }

  /** A list of distinct references that no alias changes is left as it is. */
  lemma RemapFixed(ids: seq<string>, alias: Alias)
    requires Distinct(ids) && forall x :: x in ids ==> Survives(alias, x)
    ensures Remap(ids, alias) == ids
  {
    forall i | 0 <= i < |ids|
      ensures Target(alias, ids[i]) == ids[i]
    {
      assert ids[i] in ids;
    }
    assert Targets(ids, alias) == ids;
    UnionDistinct([], ids);
  }

  lemma {:induction false} UnionDistinct(canon: seq<string>, other: seq<string>)
    requires Distinct(other) && forall x :: x in other ==> x !in canon
    ensures UnionBy(Self, canon, other) == canon + other
    decreases |other|
  {
    if other == [] {
      assert canon + other == canon;
    } else {
      SelfKey(canon, other[0]);
      assert other[0] !in other[1..];
      UnionDistinct(canon + [other[0]], other[1..]);
      assert canon + [other[0]] + other[1..] == canon + other;
    }
  }

  lemma {:induction false} UnionStaysDistinct(canon: seq<string>, other: seq<string>)
    requires Distinct(canon)
    ensures Distinct(UnionBy(Self, canon, other))
    decreases |other|
  {
    if other != [] {
      SelfKey(canon, other[0]);
      var next := if HasKey(Self, canon, other[0]) then canon else canon + [other[0]];
      assert Distinct(next);
      UnionStaysDistinct(next, other[1..]);
    }
  }

  /** Rewriting references twice under a flat alias map is rewriting them once. */
  lemma RemapTwice(ids: seq<string>, alias: Alias)
    requires Flat(alias)
    ensures Remap(Remap(ids, alias), alias) == Remap(ids, alias)
  {
    var once := Remap(ids, alias);
    UnionStaysDistinct([], Targets(ids, alias));
    forall x | x in once
      ensures Survives(alias, x)
    {
      RemapMember(ids, alias, x);
    }
    RemapFixed(once, alias);
  }

  /** Whatever the alias map, a second run finds nothing to fold or to drop. */
  lemma SecondRunFoldsNothing(entries: seq<Record>, alias: Alias)
    requires AllSurvive(entries, alias)
    ensures FoldCollection(entries, alias) == Folded(entries, []) && Drop(entries, alias) == entries
  {
    FoldNothing(entries, alias, SortedKeys(alias.Keys));
    DropNothing(entries, alias);
  }

  lemma ConsolidatedSurvives(cat: Catalog, al: Aliases)
    requires Consolidate(cat, al).Done?
    ensures var c := Consolidate(cat, al).catalog;
            AllSurvive(c.projects, al.projects) && AllSurvive(c.modules, al.modules) && AllSurvive(c.chips, al.chips)
  {
    DropLeavesSurvivors(FoldCollection(cat.projects, al.projects).entries, al.projects);
    DropLeavesSurvivors(FoldCollection(cat.modules, al.modules).entries, al.modules);
    DropLeavesSurvivors(FoldCollection(cat.chips, al.chips).entries, al.chips);
  }

  /** What a second run returns: no merges, and the references rewritten once more. */
  lemma SecondRun(cat: Catalog, al: Aliases)
    requires Consolidate(cat, al).Done?
    ensures var c := Consolidate(cat, al).catalog;
            Consolidate(c, al) == Done(Catalog(RemapAllModules(c.projects, al.modules), RemapAllChips(c.modules, al.chips), c.chips),
                                       Report([], [], []))
  {
    var c := Consolidate(cat, al).catalog;
    ConsolidatedSurvives(cat, al);
    SecondRunFoldsNothing(c.projects, al.projects);
    SecondRunFoldsNothing(c.modules, al.modules);
    SecondRunFoldsNothing(c.chips, al.chips);
  }

  lemma ModulesFixed(ps: seq<Record>, alias: Alias)
    requires Flat(alias)
    ensures RemapAllModules(RemapAllModules(ps, alias), alias) == RemapAllModules(ps, alias)
  {
    forall i | 0 <= i < |ps|
      ensures RemapModules(RemapModules(ps[i], alias), alias) == RemapModules(ps[i], alias)
    {
      if ps[i].modules.Some? {
        RemapTwice(ps[i].modules.value, alias);
      }
    }
  }

  lemma ChipsFixed(ms: seq<Record>, alias: Alias)
    requires Flat(alias)
    ensures RemapAllChips(RemapAllChips(ms, alias), alias) == RemapAllChips(ms, alias)
  {
    forall i | 0 <= i < |ms|
      ensures RemapChips(RemapChips(ms[i], alias), alias) == RemapChips(ms[i], alias)
    {
      if Chips in ms[i].lists {
        RemapTwice(ms[i].lists[Chips], alias);
      }
    }
  }

  /** With flat module and chip aliases a second run reports no merges and changes nothing. */
  lemma Idempotent(cat: Catalog, al: Aliases)
    requires FlatRefs(al) && Consolidate(cat, al).Done?
    ensures Consolidate(Consolidate(cat, al).catalog, al) == Done(Consolidate(cat, al).catalog, Report([], [], []))
  {
    SecondRun(cat, al);
    ModulesFixed(Drop(FoldCollection(cat.projects, al.projects).entries, al.projects), al.modules);
    ChipsFixed(Drop(FoldCollection(cat.modules, al.modules).entries, al.modules), al.chips);
  }

  // ---------------------------------------------------------------------------------------------
  // Flatness is what it takes
  // ---------------------------------------------------------------------------------------------

  function Blank(id: string): Record {
    Record(id, map[], None, None, map[], None, "")
  }

  function Blanks(ids: seq<string>): (r: seq<Record>)
    ensures |r| == |ids| && forall i :: 0 <= i < |ids| ==> r[i] == Blank(ids[i])
  {
    if ids == [] then [] else [Blank(ids[0])] + Blanks(ids[1..])
  }

  /** One blank entry for each of some ids. */
  lemma BlanksHave(ids: seq<string>, id: string)
    ensures id in Ids(Blanks(ids)) <==> id in ids
  {
    var r := Blanks(ids);
    if id in ids {
      var i :| 0 <= i < |ids| && ids[i] == id;
      assert r[i] in r && r[i].id == id;
    }
    if id in Ids(r) {
      var e :| e in r && e.id == id;
      var i :| 0 <= i < |r| && r[i] == e;
    }
  }

  lemma BlanksUnique(ids: seq<string>)
    requires Distinct(ids)
    ensures UniqueIds(Blanks(ids))
  {
  }

  lemma SortedIsDistinct(s: seq<string>)
    requires SortedDistinct(s)
    ensures Distinct(s)
  {
    forall i, j | 0 <= i < j < |s|
      ensures s[i] != s[j]
    {
      LexTotal(s[i], s[j]);
    }
  }

  /** An id that is not among finitely many. */
  lemma {:induction false} SpareId(used: set<string>) returns (id: string)
    ensures id !in used
  {
    var n := LongerThan(used);
    id := seq(n, _ => 'x');
  }

  lemma {:induction false} LongerThan(used: set<string>) returns (n: nat)
    ensures forall x :: x in used ==> |x| < n
    decreases used
  {
    if used == {} {
      return 0;
    }
    var x :| x in used;
    var m := LongerThan(used - {x});
    n := if |x| < m then m else |x| + 1;
  }

  /** A collection with one blank entry for everything an alias map mentions. */
  ghost function Stock(alias: Alias): seq<Record> {
    Blanks(SortedKeys(alias.Keys + alias.Values))
  }

  lemma StockFolds(alias: Alias)
    ensures UniqueIds(Stock(alias)) && FoldCollection(Stock(alias), alias).Folded?
    ensures forall k :: k in alias ==> k in Ids(Stock(alias))
  {
    var ids := SortedKeys(alias.Keys + alias.Values);
    SortedIsDistinct(ids);
    BlanksUnique(ids);
    forall k | k in alias
      ensures k in Ids(Stock(alias)) && alias[k] in Ids(Stock(alias))
    {
      BlanksHave(ids, k);
      BlanksHave(ids, alias[k]);
    }
    CollectionSucceedsExactly(Stock(alias), alias);
  }

  /** A catalog in which one project names the module `k`. */
  ghost function OneProject(al: Aliases, id: string, k: string): Catalog {
    Catalog([Blank(id).(modules := Some([k]))], Stock(al.modules), [])
  }

  /** A catalog in which one module names the chip `k`. */
  ghost function OneModule(al: Aliases, id: string, k: string): Catalog {
    Catalog([], [Blank(id).(lists := map[Chips := [k]])], Stock(al.chips))
  }

  lemma NothingToFold(alias: Alias)
    ensures FoldCollection([], alias) == Folded([], [])
  {
    FoldNothing([], alias, SortedKeys(alias.Keys));
  }

  lemma LoneEntry(e: Record, alias: Alias)
    requires e.id !in alias
    ensures FoldCollection([e], alias) == Folded([e], []) && Drop([e], alias) == [e]
  {
    SecondRunFoldsNothing([e], alias);
  }

  lemma RemapSingle(k: string, alias: Alias)
    ensures Remap([k], alias) == [Target(alias, k)]
  {
    assert Targets([k], alias) == [Target(alias, k)];
    UnionDistinct([], [Target(alias, k)]);
  }

  lemma OneProjectIsValid(al: Aliases, id: string, k: string)
    requires k in al.modules
    ensures ValidCatalog(OneProject(al, id, k))
  {
    StockFolds(al.modules);
    StockNamesNothing(al.modules);
    OneReference(id, k, Stock(al.modules));
  }

  lemma OneReference(id: string, k: string, modules: seq<Record>)
    requires UniqueIds(modules) && k in Ids(modules) && ChipsResolve(modules, {})
    ensures ValidCatalog(Catalog([Blank(id).(modules := Some([k]))], modules, []))
  {
    var p := Blank(id).(modules := Some([k]));
    assert ModuleRefs(p) == [k];
    assert ModulesResolve([p], Ids(modules));
    assert Ids([]) == {};
  }

  lemma StockNamesNothing(alias: Alias)
    ensures ChipsResolve(Stock(alias), {})
  {
  }

  lemma OneProjectRuns(al: Aliases, id: string, k: string)
    requires k in al.modules && id !in al.projects
    ensures var r := Consolidate(OneProject(al, id, k), al);
            && r.Done? && r.catalog.projects == [Blank(id).(modules := Some([al.modules[k]]))]
            && r.catalog.modules == RemapAllChips(Drop(FoldCollection(Stock(al.modules), al.modules).entries, al.modules), al.chips)
  {
    StockFolds(al.modules);
    LoneEntry(Blank(id).(modules := Some([k])), al.projects);
    NothingToFold(al.chips);
    RemapSingle(k, al.modules);
  }

  /** A module alias that is not flat breaks a valid catalog: the project's rewritten reference names
      a module that was folded away, and the next run would move it again. */
  lemma UnflatModulesBreak(al: Aliases, k: string) returns (cat: Catalog)
    requires k in al.modules && !Survives(al.modules, al.modules[k])
    ensures ValidCatalog(cat) && Consolidate(cat, al).Done?
    ensures !ValidCatalog(Consolidate(cat, al).catalog)
    ensures Consolidate(Consolidate(cat, al).catalog, al) != Done(Consolidate(cat, al).catalog, Report([], [], []))
  {
    var id := SpareId(al.projects.Keys);
    cat := OneProject(al, id, k);
    OneProjectIsValid(al, id, k);
    OneProjectRuns(al, id, k);
    SecondRun(cat, al);
    var t, c := al.modules[k], Consolidate(cat, al).catalog;
    assert c.projects[0] in c.projects && t in ModuleRefs(c.projects[0]);
    DropIds(FoldCollection(Stock(al.modules), al.modules).entries, al.modules, t);
    RemapKeepsIds(Drop(FoldCollection(Stock(al.modules), al.modules).entries, al.modules), al.chips, t);
    RemapSingle(t, al.modules);
    assert RemapAllModules(c.projects, al.modules)[0].modules == Some([Target(al.modules, t)]);
  }

  lemma UnflatChipsBreak(al: Aliases, k: string) returns (cat: Catalog)
    requires k in al.chips && !Survives(al.chips, al.chips[k])
    ensures ValidCatalog(cat) && Consolidate(cat, al).Done?
    ensures !ValidCatalog(Consolidate(cat, al).catalog)
    ensures Consolidate(Consolidate(cat, al).catalog, al) != Done(Consolidate(cat, al).catalog, Report([], [], []))
  {
    var id := SpareId(al.modules.Keys);
    cat := OneModule(al, id, k);
    var t := al.chips[k];
    var m := Blank(id).(lists := map[Chips := [k]]);
    StockFolds(al.chips);
    LoneEntry(m, al.modules);
    NothingToFold(al.projects);
    var c := Consolidate(cat, al).catalog;
    RemapSingle(k, al.chips);
    RemapSingle(t, al.chips);
    assert ListOf(c.modules[0], Chips) == [t];
    assert c.modules[0] in c.modules && t in ListOf(c.modules[0], Chips);
    DropIds(FoldCollection(cat.chips, al.chips).entries, al.chips, t);
    SecondRun(cat, al);
    assert ListOf(RemapAllChips(c.modules, al.chips)[0], Chips) == [Target(al.chips, t)];
  }

  ghost predicate AlwaysStaysValid(al: Aliases) {
    forall cat :: ValidCatalog(cat) && Consolidate(cat, al).Done? ==> ValidCatalog(Consolidate(cat, al).catalog)
  }

  ghost predicate AlwaysIdempotent(al: Aliases) {
    forall cat :: Consolidate(cat, al).Done? ==>
                    Consolidate(Consolidate(cat, al).catalog, al) == Done(Consolidate(cat, al).catalog, Report([], [], []))
  }

  lemma UnflatBreaks(al: Aliases) returns (cat: Catalog)
    requires !FlatRefs(al)
    ensures ValidCatalog(cat) && Consolidate(cat, al).Done?
    ensures !ValidCatalog(Consolidate(cat, al).catalog)
    ensures Consolidate(Consolidate(cat, al).catalog, al) != Done(Consolidate(cat, al).catalog, Report([], [], []))
  {
    if !Flat(al.modules) {
      var k :| k in al.modules && !Survives(al.modules, al.modules[k]);
      cat := UnflatModulesBreak(al, k);
    } else {
      var k :| k in al.chips && !Survives(al.chips, al.chips[k]);
      cat := UnflatChipsBreak(al, k);
    }
  }

  /** Consolidation keeps every valid catalog valid exactly when the module and chip aliases are flat. */
  lemma ValidityNeedsFlatness(al: Aliases)
    ensures AlwaysStaysValid(al) <==> FlatRefs(al)
  {
    if FlatRefs(al) {
      forall cat | ValidCatalog(cat) && Consolidate(cat, al).Done?
        ensures ValidCatalog(Consolidate(cat, al).catalog)
      {
        StaysValid(cat, al);
      }
    } else {
      var cat := UnflatBreaks(al);
    }
  }

  /** A second run is a no-op on every catalog exactly when the module and chip aliases are flat. */
  lemma IdempotenceNeedsFlatness(al: Aliases)
    ensures AlwaysIdempotent(al) <==> FlatRefs(al)
  {
    if FlatRefs(al) {
      forall cat | Consolidate(cat, al).Done?
        ensures Consolidate(Consolidate(cat, al).catalog, al) == Done(Consolidate(cat, al).catalog, Report([], [], []))
      {
        Idempotent(cat, al);
      }
    } else {
      var cat := UnflatBreaks(al);
    }
  }

  // ---------------------------------------------------------------------------------------------
  // Canonical entries
  // ---------------------------------------------------------------------------------------------

  /** What the entry `id` absorbs: in alias order, each entry folded into it and then what that one has
      absorbed by then. */
  function Group(entries: seq<Record>, alias: Alias, order: seq<string>, id: string): seq<Record>
    decreases |order|
  {
    if order == [] then []
    else
      var n := |order| - 1;
      var before, o := order[..n], order[n];
      Group(entries, alias, before, id)
      + if o != id && Target(alias, o) == id && Find(entries, o).Some?
        then [entries[Find(entries, o).value]] + Group(entries, alias, before, o) else []
  }

  /** During the loop: every entry has absorbed its group so far. */
  ghost predicate Absorbed(entries: seq<Record>, alias: Alias, order: seq<string>, now: seq<Record>) {
    && |now| == |entries|
    && forall i :: 0 <= i < |entries| ==>
                     now[i] == MergeAll(entries[i], Group(entries, alias, order, entries[i].id))
  }

  lemma FindUnique(entries: seq<Record>, i: nat)
    requires UniqueIds(entries) && i < |entries|
    ensures Find(entries, entries[i].id) == Some(i)
  {
  }

  lemma {:induction false} FoldAbsorbs(entries: seq<Record>, alias: Alias, order: seq<string>)
    requires UniqueIds(entries) && FoldAll(entries, alias, order).Folded?
    ensures Absorbed(entries, alias, order, FoldAll(entries, alias, order).entries)
    decreases |order|
  {
    if order != [] {
      FoldAbsorbs(entries, alias, order[..|order| - 1]);
      AbsorbOne(entries, alias, order);
    }
  }

  lemma AbsorbOne(entries: seq<Record>, alias: Alias, order: seq<string>)
    requires UniqueIds(entries) && order != [] && FoldAll(entries, alias, order).Folded?
    requires Absorbed(entries, alias, order[..|order| - 1], FoldAll(entries, alias, order[..|order| - 1]).entries)
    ensures Absorbed(entries, alias, order, FoldAll(entries, alias, order).entries)
  {
    var n := |order| - 1;
    var before := FoldAll(entries, alias, order[..n]);
    FoldShape(entries, alias, order[..n]);
    forall i | 0 <= i < |entries|
      ensures FoldAll(entries, alias, order).entries[i] == MergeAll(entries[i], Group(entries, alias, order, entries[i].id))
    {
      AbsorbAt(entries, before.entries, before.merged, alias, order, i);
    }
  }

  /** One alias at one place: the target takes over the aliased entry's group, everything else stays. */
  lemma AbsorbAt(entries: seq<Record>, before: seq<Record>, merged: seq<Fold>, alias: Alias, order: seq<string>, i: nat)
    requires UniqueIds(entries) && SameShape(entries, before) && order != [] && i < |entries|
    requires Absorbed(entries, alias, order[..|order| - 1], before)
    requires FoldOne(before, merged, alias, order[|order| - 1]).Folded?
    ensures |FoldOne(before, merged, alias, order[|order| - 1]).entries| == |entries|
    ensures FoldOne(before, merged, alias, order[|order| - 1]).entries[i] ==
            MergeAll(entries[i], Group(entries, alias, order, entries[i].id))
  {
    var n := |order| - 1;
    var o, id := order[n], entries[i].id;
    var ds := Group(entries, alias, order[..n], id);
    FindSame(entries, before, o);
    FindSame(entries, before, Target(alias, o));
    FindUnique(entries, i);
    if o != id && Target(alias, o) == id && Find(entries, o).Some? {
      var from := Find(entries, o).value;
      MergeGroup(entries[i], ds, entries[from], Group(entries, alias, order[..n], o));
    } else {
      assert ds + [] == ds;
    }
  }

  /** Whatever the alias map, with unique ids every surviving entry is the priority merge of itself and
      then its group. */
  lemma SurvivorsArePriorityMerges(entries: seq<Record>, alias: Alias, i: nat)
    requires UniqueIds(entries) && FoldCollection(entries, alias).Folded?
    requires i < |entries| && Survives(alias, entries[i].id)
    ensures var ds := Group(entries, alias, SortedKeys(alias.Keys), entries[i].id);
            var after := FoldCollection(entries, alias).entries;
            && |after| == |entries| && after[i] in Drop(after, alias)
            && PriorityMerge(entries[i], ds, after[i])
  {
    var order := SortedKeys(alias.Keys);
    FoldAbsorbs(entries, alias, order);
    FoldShape(entries, alias, order);
    MergesArePriority(entries[i], Group(entries, alias, order, entries[i].id));
    DropMember(FoldCollection(entries, alias).entries, alias, FoldCollection(entries, alias).entries[i]);
  }

  /** The duplicates of an entry, in alias order. */
  function Duplicates(entries: seq<Record>, alias: Alias, order: seq<string>, id: string): seq<Record>
    decreases |order|
  {
    if order == [] then []
    else
      var n := |order| - 1;
      var o := order[n];
      Duplicates(entries, alias, order[..n], id)
      + if o != id && Target(alias, o) == id && Find(entries, o).Some? then [entries[Find(entries, o).value]] else []
  }

  lemma {:induction false} FoldedAwayAbsorbsNothing(entries: seq<Record>, alias: Alias, order: seq<string>, id: string)
    requires Flat(alias) && !Survives(alias, id)
    ensures Group(entries, alias, order, id) == []
    decreases |order|
  {
    if order != [] {
      FoldedAwayAbsorbsNothing(entries, alias, order[..|order| - 1], id);
    }
  }

  /** Under a flat alias map the group of an entry is its duplicates. */
  lemma {:induction false} FlatGroup(entries: seq<Record>, alias: Alias, order: seq<string>, id: string)
    requires Flat(alias)
    ensures Group(entries, alias, order, id) == Duplicates(entries, alias, order, id)
    decreases |order|
  {
    if order != [] {
      var n := |order| - 1;
      FlatGroup(entries, alias, order[..n], id);
      if order[n] != id && Target(alias, order[n]) == id && Find(entries, order[n]).Some? {
        FoldedAwayAbsorbsNothing(entries, alias, order[..n], order[n]);
        var e := entries[Find(entries, order[n]).value];
        assert [e] + [] == [e];
      }
    }
  }

  /** The module references of a written project are its own, rewritten: each target once and in order. Those
      of a project folded into it are not among the fields that a merge unites. */
  lemma ProjectReferencesAreNotUnited(cat: Catalog, al: Aliases, p: Record) returns (q: Record)
    requires Consolidate(cat, al).Done? && p in Consolidate(cat, al).catalog.projects
    ensures q in cat.projects && q.id == p.id && (p.modules.Some? <==> q.modules.Some?)
    ensures p.modules.Some? ==> Rewritten(q.modules.value, al.modules, p.modules.value)
  {
    var kept := Drop(FoldCollection(cat.projects, al.projects).entries, al.projects);
    var s := RemappedFrom(kept, al.modules, p);
    KeptProject(cat.projects, al.projects, s);
    q :| q in cat.projects && q.id == s.id && q.modules == s.modules;
    if q.modules.Some? {
      RemapIsRewriting(q.modules.value, al.modules);
    }
  }

  /** A surviving module is written as the priority merge of its group, with its chip references rewritten. */
  lemma WrittenModule(cat: Catalog, al: Aliases, i: nat) returns (s: Record, m: Record)
    requires Consolidate(cat, al).Done? && UniqueIds(cat.modules) && i < |cat.modules| && Survives(al.modules, cat.modules[i].id)
    ensures PriorityMerge(cat.modules[i], Group(cat.modules, al.modules, SortedKeys(al.modules.Keys), cat.modules[i].id), s)
    ensures m in Consolidate(cat, al).catalog.modules
    ensures Chips !in s.lists ==> m == s
    ensures Chips in s.lists ==> Chips in m.lists && m == s.(lists := s.lists[Chips := m.lists[Chips]])
    ensures Chips in s.lists ==> Rewritten(s.lists[Chips], al.chips, m.lists[Chips])
  {
    SurvivorsArePriorityMerges(cat.modules, al.modules, i);
    var after := FoldCollection(cat.modules, al.modules).entries;
    var kept := Drop(after, al.modules);
    s := after[i];
    var j :| 0 <= j < |kept| && kept[j] == s;
    m := RemapAllChips(kept, al.chips)[j];
    assert m in RemapAllChips(kept, al.chips);
    if Chips in s.lists {
      RemapIsRewriting(s.lists[Chips], al.chips);
    }
  }

  /** Every written list of references is free of repetitions. */
  lemma ReferencesAreDistinct(cat: Catalog, al: Aliases)
    requires Consolidate(cat, al).Done?
    ensures var c := Consolidate(cat, al).catalog;
            && (forall p :: p in c.projects && p.modules.Some? ==> Distinct(p.modules.value))
            && (forall m :: m in c.modules && Chips in m.lists ==> Distinct(m.lists[Chips]))
  {
    var c := Consolidate(cat, al).catalog;
    forall p | p in c.projects && p.modules.Some?
      ensures Distinct(p.modules.value)
    {
      var q := ProjectReferencesAreNotUnited(cat, al, p);
    }
    RemappedChipsDistinct(Drop(FoldCollection(cat.modules, al.modules).entries, al.modules), al.chips);
  }

  lemma RemappedChipsDistinct(ms: seq<Record>, alias: Alias)
    ensures forall m :: m in RemapAllChips(ms, alias) && Chips in m.lists ==> Distinct(m.lists[Chips])
  {
    var rs := RemapAllChips(ms, alias);
    forall m | m in rs && Chips in m.lists
      ensures Distinct(m.lists[Chips])
    {
      var j :| 0 <= j < |rs| && rs[j] == m;
      RemapIsRewriting(ms[j].lists[Chips], alias);
    }
  }

  // ---------------------------------------------------------------------------------------------
  // What is reported
  // ---------------------------------------------------------------------------------------------

  /** The reported merges: each present id aliased to another, with its target, in sorted order. */
  ghost predicate ReportsExactly(entries: seq<Record>, alias: Alias, merged: seq<Fold>) {
    && (forall k, t :: (k, t) in merged <==> k in alias && t == alias[k] && k != t && k in Ids(entries))
    && (forall i, j :: 0 <= i < j < |merged| ==> LexLess(merged[i].0, merged[j].0))
  }

  /** After some of the sorted aliases. */
  ghost predicate ReportsSome(entries: seq<Record>, alias: Alias, order: seq<string>, merged: seq<Fold>) {
    && (forall k, t :: (k, t) in merged <==> k in order && t == Target(alias, k) && k != t && k in Ids(entries))
    && (forall i, j :: 0 <= i < j < |merged| ==> LexLess(merged[i].0, merged[j].0))
  }

  lemma ReportNext(entries: seq<Record>, alias: Alias, before: seq<string>, o: string, merged: seq<Fold>)
    requires ReportsSome(entries, alias, before, merged) && forall k :: k in before ==> LexLess(k, o)
    ensures var t := Target(alias, o);
            ReportsSome(entries, alias, before + [o], if o != t && o in Ids(entries) then merged + [(o, t)] else merged)
  {
    forall i | 0 <= i < |merged|
      ensures LexLess(merged[i].0, o)
    {
      assert (merged[i].0, merged[i].1) in merged;
    }
  }

  lemma ReportStep(entries: seq<Record>, alias: Alias, prefix: seq<string>, o: string, now: seq<Record>, merged: seq<Fold>)
    requires SameShape(entries, now) && FoldOne(now, merged, alias, o).Folded?
    requires ReportsSome(entries, alias, prefix, merged) && forall k :: k in prefix ==> LexLess(k, o)
    ensures ReportsSome(entries, alias, prefix + [o], FoldOne(now, merged, alias, o).merged)
  {
    MergedOf(entries, now, merged, alias, o);
    ReportNext(entries, alias, prefix, o, merged);
  }

  lemma {:induction false} FoldReports(entries: seq<Record>, alias: Alias, order: seq<string>)
    requires SortedDistinct(order) && FoldAll(entries, alias, order).Folded?
    ensures ReportsSome(entries, alias, order, FoldAll(entries, alias, order).merged)
    decreases |order|
  {
    if order != [] {
      var n := |order| - 1;
      var prefix, o := order[..n], order[n];
      var before := FoldAll(entries, alias, prefix);
      FoldReports(entries, alias, prefix);
      FoldShape(entries, alias, prefix);
      assert order == prefix + [o];
      LastIsGreatest(prefix, o);
      ReportStep(entries, alias, prefix, o, before.entries, before.merged);
    }
  }

  lemma LastIsGreatest(prefix: seq<string>, o: string)
    requires SortedDistinct(prefix + [o])
    ensures forall k :: k in prefix ==> LexLess(k, o)
  {
    forall k | k in prefix
      ensures LexLess(k, o)
    {
      var i :| 0 <= i < |prefix| && prefix[i] == k;
      assert (prefix + [o])[i] == k && (prefix + [o])[|prefix|] == o;
    }
  }

  lemma MergedOf(entries: seq<Record>, now: seq<Record>, merged: seq<Fold>, alias: Alias, o: string)
    requires SameShape(entries, now) && FoldOne(now, merged, alias, o).Folded?
    ensures var t := Target(alias, o);
            FoldOne(now, merged, alias, o).merged == if o != t && o in Ids(entries) then merged + [(o, t)] else merged
  {
    FindSame(entries, now, o);
    IdThere(entries, o);
  }

  lemma CollectionReports(entries: seq<Record>, alias: Alias)
    requires FoldCollection(entries, alias).Folded?
    ensures ReportsExactly(entries, alias, FoldCollection(entries, alias).merged)
  {
    FoldReports(entries, alias, SortedKeys(alias.Keys));
  }

  /** A successful run reports exactly the merges of each collection, in sorted order. */
  lemma ReportIsExact(cat: Catalog, al: Aliases)
    requires Consolidate(cat, al).Done?
    ensures var r := Consolidate(cat, al).report;
            && ReportsExactly(cat.projects, al.projects, r.projects)
            && ReportsExactly(cat.modules, al.modules, r.modules)
            && ReportsExactly(cat.chips, al.chips, r.chips)
  {
    CollectionReports(cat.projects, al.projects);
    CollectionReports(cat.modules, al.modules);
    CollectionReports(cat.chips, al.chips);
  }

  /** `missing` is the absent target of the first present id, in sorted order, that has one. */
  ghost predicate FirstMissing(entries: seq<Record>, alias: Alias, missing: string) {
    exists k :: k in alias && k in Ids(entries) && alias[k] == missing && missing !in Ids(entries)
                && forall j :: j in alias && LexLess(j, k) && j in Ids(entries) ==> alias[j] in Ids(entries)
  }

  lemma {:induction false} FoldMisses(entries: seq<Record>, alias: Alias, order: seq<string>) returns (k: string)
    requires SortedDistinct(order) && FoldAll(entries, alias, order).Missing?
    ensures k in order && k in Ids(entries) && Target(alias, k) == FoldAll(entries, alias, order).id
    ensures FoldAll(entries, alias, order).id !in Ids(entries)
    ensures forall j :: j in order && LexLess(j, k) && j in Ids(entries) ==> Target(alias, j) in Ids(entries)
    decreases |order|
  {
    var n := |order| - 1;
    var before := FoldAll(entries, alias, order[..n]);
    assert order == order[..n] + [order[n]];
    if before.Missing? {
      k := FoldMisses(entries, alias, order[..n]);
      LexTotal(k, order[n]);
    } else {
      k := order[n];
      FoldShape(entries, alias, order[..n]);
      FindSame(entries, before.entries, k);
      FindSame(entries, before.entries, Target(alias, k));
      IdThere(entries, k);
      IdThere(entries, Target(alias, k));
      LexTotal(k, k);
      forall j | j in order && LexLess(j, k) && j in Ids(entries)
        ensures Target(alias, j) in Ids(entries)
      {
        TargetsThere(entries, alias, order[..n], j);
      }
    }
  }

  lemma CollectionMisses(entries: seq<Record>, alias: Alias)
    requires FoldCollection(entries, alias).Missing?
    ensures FirstMissing(entries, alias, FoldCollection(entries, alias).id)
  {
    var k := FoldMisses(entries, alias, SortedKeys(alias.Keys));
  }

  /** A run that fails names the first missing target of the first collection that has one: projects, then
      modules, then chips. */
  lemma FailureIsFirst(cat: Catalog, al: Aliases)
    requires Consolidate(cat, al).Failed?
    ensures var m := Consolidate(cat, al).missing;
            if !TargetsPresent(cat.projects, al.projects) then FirstMissing(cat.projects, al.projects, m)
            else if !TargetsPresent(cat.modules, al.modules) then FirstMissing(cat.modules, al.modules, m)
            else FirstMissing(cat.chips, al.chips, m)
  {
    CollectionSucceedsExactly(cat.projects, al.projects);
    CollectionSucceedsExactly(cat.modules, al.modules);
    if FoldCollection(cat.projects, al.projects).Missing? {
      CollectionMisses(cat.projects, al.projects);
    } else if FoldCollection(cat.modules, al.modules).Missing? {
      CollectionMisses(cat.modules, al.modules);
    } else {
      CollectionMisses(cat.chips, al.chips);
    }
  }

  lemma RemappedFrom(ps: seq<Record>, alias: Alias, p: Record) returns (s: Record)
    requires p in RemapAllModules(ps, alias)
    ensures s in ps && p == RemapModules(s, alias)
  {
    var i :| 0 <= i < |ps| && RemapAllModules(ps, alias)[i] == p;
    s := ps[i];
  }
}
