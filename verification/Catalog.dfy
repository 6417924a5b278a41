/** Consolidating a catalog under an alias map: fold duplicates into their canonical entries, drop
    them, rewrite the references. */
module Catalog {
  import opened Basics
  import opened CatalogMerge

  type Alias = map<string, string>

  datatype Catalog = Catalog(projects: seq<Record>, modules: seq<Record>, chips: seq<Record>)

  datatype Aliases = Aliases(projects: Alias, modules: Alias, chips: Alias)

  /** A reported merge: the aliased id and its canonical one. */
  type Fold = (string, string)

  /** The report, collection by collection. */
  datatype Report = Report(projects: seq<Fold>, modules: seq<Fold>, chips: seq<Fold>)

  /** `alias.get(id, id)`. */
  function Target(alias: Alias, id: string): string {
    if id in alias then alias[id] else id
  }

  predicate Survives(alias: Alias, id: string) {
    Target(alias, id) == id
  }

  /** No alias target is itself aliased elsewhere. */
  predicate Flat(alias: Alias) {
    forall k :: k in alias ==> Survives(alias, alias[k])
  }

  function Ids(entries: seq<Record>): set<string> {
    set e | e in entries :: e.id
  }

  predicate UniqueIds(entries: seq<Record>) {
    forall i, j :: 0 <= i < j < |entries| ==> entries[i].id != entries[j].id
  }

  /** `by_id`: the last entry with an id. */
  function Find(entries: seq<Record>, id: string): (r: Option<nat>)
    ensures r.Some? ==> r.value < |entries| && entries[r.value].id == id
    ensures r.Some? ==> forall i :: r.value < i < |entries| ==> entries[i].id != id
    ensures r.None? ==> forall i :: 0 <= i < |entries| ==> entries[i].id != id
  {
    if entries == [] then None
    else
      var n := |entries| - 1;
      if entries[n].id == id then Some(n) else Find(entries[..n], id)
  }

  // ---------------------------------------------------------------------------------------------
  // The sorted alias order
  // ---------------------------------------------------------------------------------------------

  ghost predicate SortedDistinct(s: seq<string>) {
    forall i, j :: 0 <= i < j < |s| ==> LexLess(s[i], s[j])
  }

  ghost predicate Enumerates(s: seq<string>, keys: set<string>) {
    SortedDistinct(s) && forall k :: k in s <==> k in keys
  }

  lemma {:induction false} LeastExists(keys: set<string>) returns (least: string)
    requires keys != {}
    ensures least in keys && forall k :: k in keys && k != least ==> LexLess(least, k)
    decreases keys
  {
    var x :| x in keys;
    least := x;
    if keys != {x} {
      var y := LeastExists(keys - {x});
      LexTotal(x, y);
      if LexLess(y, x) {
        least := y;
      } else {
        forall k | k in keys && k != x
          ensures LexLess(x, k)
        {
          if k != y {
            LexTransitive(x, y, k);
          }
        }
      }
    }
  }

  /** `sorted(alias)`. */
  ghost function SortedKeys(keys: set<string>): (s: seq<string>)
    ensures Enumerates(s, keys)
    decreases keys
  {
    if keys == {} then []
    else
      assert exists least :: least in keys && forall k :: k in keys && k != least ==> LexLess(least, k) by {
        var least := LeastExists(keys);
      }
      var least :| least in keys && forall k :: k in keys && k != least ==> LexLess(least, k);
      [least] + SortedKeys(keys - {least})
  }

  // ---------------------------------------------------------------------------------------------
  // One collection
  // ---------------------------------------------------------------------------------------------

  datatype Folded = Folded(entries: seq<Record>, merged: seq<Fold>) | Missing(id: string)

  /** One alias of the loop. */
  function FoldOne(entries: seq<Record>, merged: seq<Fold>, alias: Alias, old_id: string): Folded {
    var canonical := Target(alias, old_id);
    var from, to := Find(entries, old_id), Find(entries, canonical);
    if old_id == canonical || from.None? then Folded(entries, merged)
    else if to.None? then Missing(canonical)
    else Folded(entries[to.value := Merge(entries[to.value], entries[from.value])], merged + [(old_id, canonical)])
  }

  function FoldAll(entries: seq<Record>, alias: Alias, order: seq<string>): Folded {
    if order == [] then Folded(entries, [])
    else
      var n := |order| - 1;
      var before := FoldAll(entries, alias, order[..n]);
      if before.Missing? then before else FoldOne(before.entries, before.merged, alias, order[n])
  }

  /** The entries that are not aliased away. */
  function Drop(entries: seq<Record>, alias: Alias): seq<Record> {
    if entries == [] then []
    else (if Survives(alias, entries[0].id) then [entries[0]] else []) + Drop(entries[1..], alias)
  }

  ghost function FoldCollection(entries: seq<Record>, alias: Alias): Folded {
    FoldAll(entries, alias, SortedKeys(alias.Keys))
  }

  // ---------------------------------------------------------------------------------------------
  // References
  // ---------------------------------------------------------------------------------------------

  function Targets(ids: seq<string>, alias: Alias): (r: seq<string>)
    ensures |r| == |ids| && forall i :: 0 <= i < |ids| ==> r[i] == Target(alias, ids[i])
  {
    if ids == [] then [] else [Target(alias, ids[0])] + Targets(ids[1..], alias)
  }

  /** `remap`. */
  function Remap(ids: seq<string>, alias: Alias): seq<string> {
    UnionBy(Self, [], Targets(ids, alias))
  }

  function RemapModules(p: Record, alias: Alias): Record {
    if p.modules.Some? then p.(modules := Some(Remap(p.modules.value, alias))) else p
  }

  function RemapChips(m: Record, alias: Alias): Record {
    if Chips in m.lists then m.(lists := m.lists[Chips := Remap(m.lists[Chips], alias)]) else m
  }

  function RemapAllModules(ps: seq<Record>, alias: Alias): (r: seq<Record>)
    ensures |r| == |ps| && forall i :: 0 <= i < |ps| ==> r[i] == RemapModules(ps[i], alias)
  {
    if ps == [] then [] else [RemapModules(ps[0], alias)] + RemapAllModules(ps[1..], alias)
  }

  function RemapAllChips(ms: seq<Record>, alias: Alias): (r: seq<Record>)
    ensures |r| == |ms| && forall i :: 0 <= i < |ms| ==> r[i] == RemapChips(ms[i], alias)
  {
    if ms == [] then [] else [RemapChips(ms[0], alias)] + RemapAllChips(ms[1..], alias)
  }

  // ---------------------------------------------------------------------------------------------
  // The whole catalog
  // ---------------------------------------------------------------------------------------------

  datatype Result = Done(catalog: Catalog, report: Report) | Failed(missing: string)

  ghost function Consolidate(cat: Catalog, al: Aliases): Result {
    var ps := FoldCollection(cat.projects, al.projects);
    if ps.Missing? then Failed(ps.id)
    else
      var ms := FoldCollection(cat.modules, al.modules);
      if ms.Missing? then Failed(ms.id)
      else
        var cs := FoldCollection(cat.chips, al.chips);
        if cs.Missing? then Failed(cs.id)
        else
          Done(Catalog(RemapAllModules(Drop(ps.entries, al.projects), al.modules),
                       RemapAllChips(Drop(ms.entries, al.modules), al.chips),
                       Drop(cs.entries, al.chips)),
               Report(ps.merged, ms.merged, cs.merged))
  }

  function ModuleRefs(p: Record): seq<string> {
    if p.modules.Some? then p.modules.value else []
  }

  predicate ModulesResolve(ps: seq<Record>, ids: set<string>) {
    forall p, r :: p in ps && r in ModuleRefs(p) ==> r in ids
  }

  predicate ChipsResolve(ms: seq<Record>, ids: set<string>) {
    forall m, r :: m in ms && r in ListOf(m, Chips) ==> r in ids
  }

  /** `validate` reports nothing. */
  predicate ValidCatalog(cat: Catalog) {
    && UniqueIds(cat.projects) && UniqueIds(cat.modules) && UniqueIds(cat.chips)
    && ModulesResolve(cat.projects, Ids(cat.modules))
    && ChipsResolve(cat.modules, Ids(cat.chips))
  }

  // ---------------------------------------------------------------------------------------------
  // What folding keeps
  // ---------------------------------------------------------------------------------------------

  /** The same ids and module references, position by position. */
  ghost predicate SameShape(a: seq<Record>, b: seq<Record>) {
    |a| == |b| && forall i :: 0 <= i < |a| ==> a[i].id == b[i].id && a[i].modules == b[i].modules
  }

  lemma {:induction false} FindSame(a: seq<Record>, b: seq<Record>, id: string)
    requires SameShape(a, b)
    ensures Find(a, id) == Find(b, id)
    decreases |a|
  {
    if a != [] {
      var n := |a| - 1;
      FindSame(a[..n], b[..n], id);
    }
  }

  lemma {:induction false} FoldShape(entries: seq<Record>, alias: Alias, order: seq<string>)
    ensures var f := FoldAll(entries, alias, order);
            f.Folded? ==> SameShape(entries, f.entries)
    decreases |order|
  {
    if order != [] {
      FoldShape(entries, alias, order[..|order| - 1]);
    }
  }

  lemma IdThere(entries: seq<Record>, id: string)
    ensures id in Ids(entries) <==> Find(entries, id).Some?
  {
    if id in Ids(entries) {
      var e :| e in entries && e.id == id;
      var i :| 0 <= i < |entries| && entries[i] == e;
    }
    if Find(entries, id).Some? {
      assert entries[Find(entries, id).value] in entries;
    }
  }

  /** When folding succeeds, every id it folds away has its target in the collection. */
  lemma {:induction false} TargetsThere(entries: seq<Record>, alias: Alias, order: seq<string>, old_id: string)
    requires FoldAll(entries, alias, order).Folded? && old_id in order && old_id in Ids(entries)
    ensures Target(alias, old_id) in Ids(entries)
    decreases |order|
  {
    var n := |order| - 1;
    if old_id == order[n] {
      var before := FoldAll(entries, alias, order[..n]);
      FoldShape(entries, alias, order[..n]);
      FindSame(entries, before.entries, old_id);
      FindSame(entries, before.entries, Target(alias, old_id));
      IdThere(entries, old_id);
      IdThere(entries, Target(alias, old_id));
    } else {
      assert order == order[..n] + [order[n]];
      TargetsThere(entries, alias, order[..n], old_id);
    }
  }

  /** Every chip a folded entry names was named by some entry before. */
  ghost predicate ChipsFrom(entries: seq<Record>, pool: set<string>) {
    forall i, x :: 0 <= i < |entries| && x in ListOf(entries[i], Chips) ==> x in pool
  }

  lemma MergeChips(c: Record, o: Record, x: string)
    requires x in ListOf(Merge(c, o), Chips)
    ensures x in ListOf(c, Chips) || x in ListOf(o, Chips)
  {
    var a, b := ListOf(c, Chips), ListOf(o, Chips);
    UnionIsOrdered(Self, a, b);
    SelfKey(UnionBy(Self, a, b), x);
    SelfKey(a, x);
    SelfKey(b, x);
  }

  lemma {:induction false} FoldChips(entries: seq<Record>, alias: Alias, order: seq<string>, pool: set<string>)
    requires ChipsFrom(entries, pool)
    ensures var f := FoldAll(entries, alias, order);
            f.Folded? ==> ChipsFrom(f.entries, pool)
    decreases |order|
  {
    if order != [] && FoldAll(entries, alias, order).Folded? {
      var n := |order| - 1;
      var before := FoldAll(entries, alias, order[..n]);
      var f := FoldAll(entries, alias, order);
      FoldChips(entries, alias, order[..n], pool);
      forall i, x | 0 <= i < |f.entries| && x in ListOf(f.entries[i], Chips)
        ensures x in pool
      {
        if f.entries[i] != before.entries[i] {
          var from := Find(before.entries, order[n]).value;
          MergeChips(before.entries[i], before.entries[from], x);
        }
      }
    }
  }

  lemma {:induction false} DropMember(entries: seq<Record>, alias: Alias, e: Record)
    ensures e in Drop(entries, alias) <==> e in entries && Survives(alias, e.id)
  {
    if entries != [] {
      DropMember(entries[1..], alias, e);
    }
  }

  /** Dropping is a filter: it goes entry by entry, in order. */
  lemma {:induction false} DropConcat(a: seq<Record>, b: seq<Record>, alias: Alias)
    ensures Drop(a + b, alias) == Drop(a, alias) + Drop(b, alias)
    decreases |a|
  {
    if a == [] {
      assert a + b == b;
    } else {
      assert (a + b)[1..] == a[1..] + b;
      DropConcat(a[1..], b, alias);
    }
  }

  lemma DropIds(entries: seq<Record>, alias: Alias, id: string)
    ensures id in Ids(Drop(entries, alias)) <==> id in Ids(entries) && Survives(alias, id)
  {
    if id in Ids(entries) && Survives(alias, id) {
      var e :| e in entries && e.id == id;
      DropMember(entries, alias, e);
    }
    if id in Ids(Drop(entries, alias)) {
      var e :| e in Drop(entries, alias) && e.id == id;
      DropMember(entries, alias, e);
    }
  }

  lemma {:induction false} DropUnique(entries: seq<Record>, alias: Alias)
    requires UniqueIds(entries)
    ensures UniqueIds(Drop(entries, alias))
  {
    if entries != [] {
      var rest := Drop(entries[1..], alias);
      DropUnique(entries[1..], alias);
      forall i | 0 <= i < |rest|
        ensures rest[i].id != entries[0].id
      {
        DropMember(entries[1..], alias, rest[i]);
      }
    }
  }

  lemma ShapeUnique(a: seq<Record>, b: seq<Record>)
    requires SameShape(a, b) && UniqueIds(a)
    ensures UniqueIds(b)
  {
  }

  lemma ShapeIds(a: seq<Record>, b: seq<Record>, id: string)
    requires SameShape(a, b)
    ensures id in Ids(a) <==> id in Ids(b)
  {
    IdThere(a, id);
    IdThere(b, id);
    FindSame(a, b, id);
  }

  lemma RemapMember(ids: seq<string>, alias: Alias, x: string)
    ensures x in Remap(ids, alias) <==> exists r :: r in ids && x == Target(alias, r)
  {
    var ts := Targets(ids, alias);
    UnionIsOrdered(Self, [], ts);
    SelfKey(UnionBy(Self, [], ts), x);
    SelfKey(ts, x);
    SelfKey([], x);
    if x in ts {
      var i :| 0 <= i < |ts| && ts[i] == x;
      assert ids[i] in ids;
    }
    if r :| r in ids && x == Target(alias, r) {
      var i :| 0 <= i < |ids| && ids[i] == r;
      assert ts[i] == x;
    }
  }

  /** Some reference for `x` comes before every reference for `y`. */
  predicate NamedBefore(ids: seq<string>, alias: Alias, x: string, y: string) {
    exists i :: 0 <= i < |ids| && Target(alias, ids[i]) == x && forall j :: 0 <= j <= i ==> Target(alias, ids[j]) != y
  }

  /** `r` holds the targets of the references, each once, in the order in which they are first named. */
  ghost predicate Rewritten(ids: seq<string>, alias: Alias, r: seq<string>) {
    && Distinct(r)
    && (forall x :: x in r <==> exists y :: y in ids && x == Target(alias, y))
    && (forall p, q :: 0 <= p < q < |r| ==> NamedBefore(ids, alias, r[p], r[q]))
  }

  /** Rewriting follows every reference, repeats none and keeps the order. */
  lemma RemapIsRewriting(ids: seq<string>, alias: Alias)
    ensures Rewritten(ids, alias, Remap(ids, alias))
  {
    var ts, r := Targets(ids, alias), Remap(ids, alias);
    UnionAppendsFirsts(Self, [], ts);
    forall p, q | 0 <= p < q < |r|
      ensures r[p] != r[q] && NamedBefore(ids, alias, r[p], r[q])
    {
      var i := FirstAt(Self, ts, r[p]);
      assert i < FirstAt(Self, ts, r[q]) && Self(r[p]) == r[p] && Self(r[q]) == r[q];
      assert forall j :: 0 <= j <= i ==> Self(ts[j]) != r[q] && ts[j] == Target(alias, ids[j]);
      assert Target(alias, ids[i]) == r[p];
    }
    forall x
      ensures x in r <==> exists y :: y in ids && x == Target(alias, y)
    {
      RemapMember(ids, alias, x);
    }
  }

  // ---------------------------------------------------------------------------------------------
  // A folded collection
  // ---------------------------------------------------------------------------------------------

  /** Every id of the collection has its target among the survivors. */
  lemma TargetSurvives(entries: seq<Record>, alias: Alias, id: string)
    requires Flat(alias) && FoldCollection(entries, alias).Folded? && id in Ids(entries)
    ensures Target(alias, id) in Ids(Drop(FoldCollection(entries, alias).entries, alias))
  {
    var order := SortedKeys(alias.Keys);
    var after := FoldAll(entries, alias, order).entries;
    FoldShape(entries, alias, order);
    if id in alias {
      TargetsThere(entries, alias, order, id);
    }
    ShapeIds(entries, after, Target(alias, id));
    DropIds(after, alias, Target(alias, id));
  }

  lemma CollectionUnique(entries: seq<Record>, alias: Alias)
    requires UniqueIds(entries) && FoldCollection(entries, alias).Folded?
    ensures UniqueIds(Drop(FoldCollection(entries, alias).entries, alias))
  {
    var order := SortedKeys(alias.Keys);
    FoldShape(entries, alias, order);
    ShapeUnique(entries, FoldAll(entries, alias, order).entries);
    DropUnique(FoldAll(entries, alias, order).entries, alias);
  }

  /** A surviving project names the same modules as before. */
  lemma KeptProject(entries: seq<Record>, alias: Alias, p: Record)
    requires FoldCollection(entries, alias).Folded? && p in Drop(FoldCollection(entries, alias).entries, alias)
    ensures exists q :: q in entries && q.id == p.id && q.modules == p.modules
  {
    var after := FoldCollection(entries, alias).entries;
    FoldShape(entries, alias, SortedKeys(alias.Keys));
    DropMember(after, alias, p);
    var i :| 0 <= i < |after| && after[i] == p;
    assert entries[i] in entries;
  }

  lemma KeptChips(entries: seq<Record>, alias: Alias, m: Record, pool: set<string>)
    requires ChipsResolve(entries, pool)
    requires FoldCollection(entries, alias).Folded? && m in Drop(FoldCollection(entries, alias).entries, alias)
    ensures forall x :: x in ListOf(m, Chips) ==> x in pool
  {
    var after := FoldCollection(entries, alias).entries;
    FoldChips(entries, alias, SortedKeys(alias.Keys), pool);
    DropMember(after, alias, m);
    var i :| 0 <= i < |after| && after[i] == m;
  }
}
