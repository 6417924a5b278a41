/** The catalog script's promise that consolidation loses nothing: what every entry held is found in a
    surviving entry, and the exact alias maps for which that is so. */
module CatalogProvenance {
  import opened Basics
  import opened CatalogMerge
  import opened Catalog
  import opened CatalogTheorems

  // ---------------------------------------------------------------------------------------------
  // One entry holding what another held
  // ---------------------------------------------------------------------------------------------

  /** A list item as it stands after references were rewritten: chip references follow the alias map. */
  function Item(chips: Alias, f: ListField, x: string): string {
    if f == Chips then Target(chips, x) else x
  }

  ghost predicate CarriesLists(e: Record, s: Record, chips: Alias) {
    forall f, x :: x in ListOf(e, f) ==> Item(chips, f, x) in ListOf(s, f)
  }

  ghost predicate CarriesOffers(e: Record, s: Record) {
    forall k :: HasKey(OfferKeyOf, Offers(e), k) ==> HasKey(OfferKeyOf, Offers(s), k)
  }

  ghost predicate CarriesSpec(e: Record, s: Record) {
    forall k :: SpecValue(e, k).Some? ==> SpecValue(s, k).Some?
  }

  ghost predicate CarriesScalars(e: Record, s: Record) {
    forall f :: !IsEmpty(Scalar(e, f)) ==> !IsEmpty(Scalar(s, f))
  }

  /** `s` holds every list item, offer key and spec key of `e`, and a value for every field `e` fills. */
  ghost predicate Carries(e: Record, s: Record, chips: Alias) {
    CarriesLists(e, s, chips) && CarriesOffers(e, s) && CarriesSpec(e, s) && CarriesScalars(e, s)
  }

  lemma CarriesOn(a: Record, b: Record, c: Record)
    requires Carries(a, b, map[]) && Carries(b, c, map[])
    ensures Carries(a, c, map[])
  {
    forall f, x | x in ListOf(a, f)
      ensures Item(map[], f, x) in ListOf(c, f)
    {
      assert Item(map[], f, x) in ListOf(b, f);
      assert Item(map[], f, x) in ListOf(c, f);
    }
  }

  lemma MergeCarriesLists(c: Record, o: Record)
    ensures CarriesLists(c, Merge(c, o), map[]) && CarriesLists(o, Merge(c, o), map[])
  {
    forall f, x | x in ListOf(c, f) || x in ListOf(o, f)
      ensures x in ListOf(Merge(c, o), f)
    {
      assert ListOf(Merge(c, o), f) == UnionBy(Self, ListOf(c, f), ListOf(o, f));
      UnionIsOrdered(Self, ListOf(c, f), ListOf(o, f));
      SelfKey(ListOf(c, f), x);
      SelfKey(ListOf(o, f), x);
      SelfKey(ListOf(Merge(c, o), f), x);
    }
  }

  /** A merge loses nothing of either side. */
  lemma MergeCarries(c: Record, o: Record)
    ensures Carries(c, Merge(c, o), map[]) && Carries(o, Merge(c, o), map[])
  {
    MergeCarriesLists(c, o);
    assert Offers(Merge(c, o)) == UnionBy(OfferKeyOf, Offers(c), Offers(o));
    UnionIsOrdered(OfferKeyOf, Offers(c), Offers(o));
    forall f
      ensures !IsEmpty(Scalar(c, f)) || !IsEmpty(Scalar(o, f)) ==> !IsEmpty(Scalar(Merge(c, o), f))
    {
      ScalarStep(c, o, f);
    }
  }

  // ---------------------------------------------------------------------------------------------
  // Through the loop over the aliases
  // ---------------------------------------------------------------------------------------------

  /** `k` is aliased to an id that is itself aliased away and does not come after `k` in the sorted order. */
  predicate OutOfOrder(alias: Alias, k: string) {
    k in alias && !Survives(alias, k) && !Survives(alias, alias[k]) && !LexLess(k, alias[k])
  }

  /** A flat alias map has no alias out of order. */
  predicate Ordered(alias: Alias) {
    forall k :: k in alias ==> !OutOfOrder(alias, k)
  }

  /** An entry carries everything folded into it. */
  lemma {:induction false} MergeAllCarries(c: Record, ds: seq<Record>, e: Record)
    requires e == c || e in ds
    ensures Carries(e, MergeAll(c, ds), map[])
    decreases |ds|
  {
    if ds != [] {
      var m := Merge(c, ds[0]);
      MergeCarries(c, ds[0]);
      if e == c || e == ds[0] {
        MergeAllCarries(m, ds[1..], m);
        CarriesOn(e, m, MergeAll(c, ds));
      } else {
        MergeAllCarries(m, ds[1..], e);
      }
    }
  }

  /** `e` is the entry `id` or in its group after the first `m` aliases. */
  predicate In(e: Record, entries: seq<Record>, alias: Alias, order: seq<string>, m: nat, id: string)
    requires m <= |order|
  {
    e.id == id || e in Group(entries, alias, order[..m], id)
  }

  /** One alias: groups only grow, and the target takes over the group of the aliased id. */
  lemma GroupStep(e: Record, entries: seq<Record>, alias: Alias, order: seq<string>, m: nat, id: string)
    requires m < |order| && UniqueIds(entries) && e in entries && In(e, entries, alias, order, m, id)
    ensures In(e, entries, alias, order, m + 1, id)
    ensures id == order[m] && !Survives(alias, id) && Find(entries, id).Some? ==>
              In(e, entries, alias, order, m + 1, Target(alias, id))
  {
    assert order[..m + 1][..m] == order[..m] && order[..m + 1][m] == order[m];
    var i :| 0 <= i < |entries| && entries[i] == e;
    FindUnique(entries, i);
  }

  lemma {:induction false} GroupGrows(e: Record, entries: seq<Record>, alias: Alias, order: seq<string>, m: nat, n: nat, id: string)
    requires m <= n <= |order| && UniqueIds(entries) && e in entries && In(e, entries, alias, order, m, id)
    ensures In(e, entries, alias, order, n, id)
    decreases n
  {
    if m < n {
      GroupGrows(e, entries, alias, order, m, n - 1, id);
      GroupStep(e, entries, alias, order, n - 1, id);
    }
  }

  /** The alias of `id` is still to come, at or after place `m`. */
  predicate StillToCome(order: seq<string>, m: nat, id: string) {
    exists p :: m <= p < |order| && order[p] == id
  }

  /** An id aliased away comes later in the order than the ids aliased to it. */
  lemma TargetStillToCome(alias: Alias, order: seq<string>, m: nat, id: string) returns (p: nat)
    requires Ordered(alias) && Enumerates(order, alias.Keys)
    requires !Survives(alias, id) && StillToCome(order, m, id)
    ensures m <= p < |order| && order[p] == id
    ensures Survives(alias, Target(alias, id)) || StillToCome(order, p + 1, Target(alias, id))
  {
    p :| m <= p < |order| && order[p] == id;
    var t := alias[id];
    if !Survives(alias, t) {
      assert !OutOfOrder(alias, id);
      assert t in order;
      var q :| 0 <= q < |order| && order[q] == t;
      LexTotal(id, t);
    }
  }

  /** What is in the group of `id` after `m` aliases ends up in the group of a survivor. */
  lemma {:induction false} ReachesSurvivor(e: Record, entries: seq<Record>, alias: Alias, order: seq<string>, m: nat, id: string)
    returns (s: string)
    requires UniqueIds(entries) && Ordered(alias) && Enumerates(order, alias.Keys) && TargetsPresent(entries, alias)
    requires m <= |order| && e in entries && id in Ids(entries) && In(e, entries, alias, order, m, id)
    requires Survives(alias, id) || StillToCome(order, m, id)
    ensures s in Ids(entries) && Survives(alias, s) && In(e, entries, alias, order, |order|, s)
    ensures Survives(alias, Target(alias, id)) ==> s == Target(alias, id)
    decreases |order| - m
  {
    if Survives(alias, id) {
      s := id;
      GroupGrows(e, entries, alias, order, m, |order|, id);
    } else {
      var p := TargetStillToCome(alias, order, m, id);
      GroupGrows(e, entries, alias, order, m, p, id);
      IdThere(entries, id);
      GroupStep(e, entries, alias, order, p, id);
      s := ReachesSurvivor(e, entries, alias, order, p + 1, Target(alias, id));
    }
  }

  /** Every entry of a collection is carried by a survivor, the one its alias names if that survives. */
  ghost predicate CollectionCarried(entries: seq<Record>, alias: Alias, after: seq<Record>, chips: Alias) {
    forall i :: 0 <= i < |entries| ==> EntryCarried(entries[i], alias, after, chips)
  }

  ghost predicate EntryCarried(e: Record, alias: Alias, after: seq<Record>, chips: Alias) {
    exists s :: s in after && Carries(e, s, chips) && (Survives(alias, Target(alias, e.id)) ==> s.id == Target(alias, e.id))
  }

  lemma EntryIsCarried(entries: seq<Record>, alias: Alias, i: nat)
    requires UniqueIds(entries) && Ordered(alias) && FoldCollection(entries, alias).Folded? && i < |entries|
    ensures EntryCarried(entries[i], alias, Drop(FoldCollection(entries, alias).entries, alias), map[])
  {
    var order, after, e := SortedKeys(alias.Keys), FoldCollection(entries, alias).entries, entries[i];
    CollectionSucceedsExactly(entries, alias);
    if !Survives(alias, e.id) {
      assert e.id in order;
    }
    var s := ReachesSurvivor(e, entries, alias, order, 0, e.id);
    assert order[..|order|] == order;
    IdThere(entries, s);
    var j := Find(entries, s).value;
    if e.id == s {
      FindUnique(entries, i);
    }
    FoldAbsorbs(entries, alias, order);
    MergeAllCarries(entries[j], Group(entries, alias, order, s), e);
    FoldShape(entries, alias, order);
    DropMember(after, alias, after[j]);
  }

  /** Folding a collection with unique ids under an ordered alias map loses nothing. */
  lemma FoldingCarries(entries: seq<Record>, alias: Alias)
    requires UniqueIds(entries) && Ordered(alias) && FoldCollection(entries, alias).Folded?
    ensures CollectionCarried(entries, alias, Drop(FoldCollection(entries, alias).entries, alias), map[])
  {
    forall i | 0 <= i < |entries|
      ensures EntryCarried(entries[i], alias, Drop(FoldCollection(entries, alias).entries, alias), map[])
    {
      EntryIsCarried(entries, alias, i);
    }
  }

  // ---------------------------------------------------------------------------------------------
  // The whole catalog
  // ---------------------------------------------------------------------------------------------

  /** Every entry of `cat` is carried by an entry of `c`, chip references of modules as rewritten. */
  ghost predicate NothingLost(cat: Catalog, al: Aliases, c: Catalog) {
    && CollectionCarried(cat.projects, al.projects, c.projects, map[])
    && CollectionCarried(cat.modules, al.modules, c.modules, al.chips)
    && CollectionCarried(cat.chips, al.chips, c.chips, map[])
  }

  predicate AllOrdered(al: Aliases) {
    Ordered(al.projects) && Ordered(al.modules) && Ordered(al.chips)
  }

  predicate AllUnique(cat: Catalog) {
    UniqueIds(cat.projects) && UniqueIds(cat.modules) && UniqueIds(cat.chips)
  }

  /** `t` stands for `s` in the written catalog and carries whatever `s` carries. */
  ghost predicate PassesOn(s: Record, t: Record, chips: Alias) {
    t.id == s.id && forall e :: Carries(e, s, map[]) ==> Carries(e, t, chips)
  }

  lemma RewritingCarries(entries: seq<Record>, alias: Alias, kept: seq<Record>, after: seq<Record>, chips: Alias)
    requires CollectionCarried(entries, alias, kept, map[])
    requires |after| == |kept| && forall j :: 0 <= j < |kept| ==> PassesOn(kept[j], after[j], chips)
    ensures CollectionCarried(entries, alias, after, chips)
  {
    forall i | 0 <= i < |entries|
      ensures EntryCarried(entries[i], alias, after, chips)
    {
      var e := entries[i];
      var s :| s in kept && Carries(e, s, map[]) && (Survives(alias, Target(alias, e.id)) ==> s.id == Target(alias, e.id));
      var j :| 0 <= j < |kept| && kept[j] == s;
      assert PassesOn(kept[j], after[j], chips) && after[j] in after;
    }
  }

  lemma RemapModulesPasses(s: Record, modules: Alias)
    ensures PassesOn(s, RemapModules(s, modules), map[])
  {
    var t := RemapModules(s, modules);
    assert Offers(t) == Offers(s) && SpecOf(t) == SpecOf(s);
    assert forall f :: ListOf(t, f) == ListOf(s, f);
    assert forall f :: Scalar(t, f) == Scalar(s, f);
  }

  lemma RemapChipsCarries(e: Record, s: Record, chips: Alias)
    requires Carries(e, s, map[])
    ensures Carries(e, RemapChips(s, chips), chips)
  {
    forall f, x | x in ListOf(e, f)
      ensures Item(chips, f, x) in ListOf(RemapChips(s, chips), f)
    {
      assert Item(map[], f, x) in ListOf(s, f);
      if f == Chips {
        RemapMember(ListOf(s, Chips), chips, Target(chips, x));
      }
    }
  }

  lemma RemapChipsPasses(s: Record, chips: Alias)
    ensures PassesOn(s, RemapChips(s, chips), chips)
  {
    forall e | Carries(e, s, map[])
      ensures Carries(e, RemapChips(s, chips), chips)
    {
      RemapChipsCarries(e, s, chips);
    }
  }

  lemma ProjectsCarried(entries: seq<Record>, alias: Alias, modules: Alias)
    requires UniqueIds(entries) && Ordered(alias) && FoldCollection(entries, alias).Folded?
    ensures CollectionCarried(entries, alias, RemapAllModules(Drop(FoldCollection(entries, alias).entries, alias), modules), map[])
  {
    var kept := Drop(FoldCollection(entries, alias).entries, alias);
    FoldingCarries(entries, alias);
    forall j | 0 <= j < |kept|
      ensures PassesOn(kept[j], RemapAllModules(kept, modules)[j], map[])
    {
      RemapModulesPasses(kept[j], modules);
    }
    RewritingCarries(entries, alias, kept, RemapAllModules(kept, modules), map[]);
  }

  lemma ModulesCarried(entries: seq<Record>, alias: Alias, chips: Alias)
    requires UniqueIds(entries) && Ordered(alias) && FoldCollection(entries, alias).Folded?
    ensures CollectionCarried(entries, alias, RemapAllChips(Drop(FoldCollection(entries, alias).entries, alias), chips), chips)
  {
    var kept := Drop(FoldCollection(entries, alias).entries, alias);
    FoldingCarries(entries, alias);
    forall j | 0 <= j < |kept|
      ensures PassesOn(kept[j], RemapAllChips(kept, chips)[j], chips)
    {
      RemapChipsPasses(kept[j], chips);
    }
    RewritingCarries(entries, alias, kept, RemapAllChips(kept, chips), chips);
  }

  /** With ordered aliases consolidation loses nothing. */
  lemma OrderedLosesNothing(cat: Catalog, al: Aliases)
    requires AllUnique(cat) && AllOrdered(al) && Consolidate(cat, al).Done?
    ensures NothingLost(cat, al, Consolidate(cat, al).catalog)
  {
    ProjectsCarried(cat.projects, al.projects, al.modules);
    ModulesCarried(cat.modules, al.modules, al.chips);
    FoldingCarries(cat.chips, al.chips);
  }

  // ---------------------------------------------------------------------------------------------
  // Order is what it takes
  // ---------------------------------------------------------------------------------------------

  /** Only entries with these ids have notes. */
  ghost predicate NotesOnlyAt(entries: seq<Record>, ids: set<string>) {
    forall i :: 0 <= i < |entries| && ListOf(entries[i], Notes) != [] ==> entries[i].id in ids
  }

  lemma FoldOneNotes(a: seq<Record>, merged: seq<Fold>, alias: Alias, k: string, ids: set<string>)
    requires NotesOnlyAt(a, ids) && FoldOne(a, merged, alias, k).Folded?
    ensures NotesOnlyAt(FoldOne(a, merged, alias, k).entries, if k in ids then ids + {Target(alias, k)} else ids)
  {
  }

  /** A note on `k` moves to the target of `k` alone when that target was folded away before. */
  lemma {:induction false} NoteStays(entries: seq<Record>, alias: Alias, order: seq<string>, k: string)
    requires SortedDistinct(order) && FoldAll(entries, alias, order).Folded? && NotesOnlyAt(entries, {k})
    requires LexLess(Target(alias, k), k)
    ensures NotesOnlyAt(FoldAll(entries, alias, order).entries, if k in order then {k, Target(alias, k)} else {k})
    decreases |order|
  {
    if order != [] {
      var n := |order| - 1;
      var before, o := FoldAll(entries, alias, order[..n]), order[n];
      assert order == order[..n] + [o];
      NoteStays(entries, alias, order[..n], k);
      FoldOneNotes(before.entries, before.merged, alias, o, if k in order[..n] then {k, Target(alias, k)} else {k});
      LexTotal(k, o);
      LexTotal(Target(alias, k), k);
    }
  }

  function Noted(id: string): Record {
    Blank(id).(lists := map[Notes := ["note"]])
  }

  /** A note on one entry of a list. */
  function Annotate(stock: seq<Record>, i: nat): seq<Record>
    requires i < |stock|
  {
    stock[i := Noted(stock[i].id)]
  }

  predicate AllBlank(stock: seq<Record>) {
    forall i :: 0 <= i < |stock| ==> stock[i] == Blank(stock[i].id)
  }

  lemma ShapeTargets(a: seq<Record>, b: seq<Record>, alias: Alias)
    requires SameShape(a, b) && TargetsPresent(a, alias)
    ensures TargetsPresent(b, alias)
  {
    forall k | k in alias && k in Ids(b)
      ensures alias[k] in Ids(b)
    {
      ShapeIds(a, b, k);
      ShapeIds(a, b, alias[k]);
    }
  }

  lemma AnnotatedFolds(stock: seq<Record>, i: nat, alias: Alias)
    requires i < |stock| && AllBlank(stock) && UniqueIds(stock) && TargetsPresent(stock, alias)
    ensures UniqueIds(Annotate(stock, i)) && FoldCollection(Annotate(stock, i), alias).Folded?
  {
    var entries := Annotate(stock, i);
    assert SameShape(stock, entries);
    ShapeUnique(stock, entries);
    ShapeTargets(stock, entries, alias);
    CollectionSucceedsExactly(entries, alias);
  }

  lemma AnnotatedNamesNothing(stock: seq<Record>, i: nat)
    requires i < |stock| && AllBlank(stock)
    ensures ChipsResolve(Annotate(stock, i), {}) && ModulesResolve(Annotate(stock, i), {})
  {
    var entries := Annotate(stock, i);
    forall e | e in entries
      ensures ListOf(e, Chips) == [] && ModuleRefs(e) == []
    {
      var j :| 0 <= j < |entries| && entries[j] == e;
    }
  }

  /** When `k` is out of order its note is in no survivor. */
  lemma NoteIsLost(stock: seq<Record>, i: nat, alias: Alias)
    requires i < |stock| && AllBlank(stock) && OutOfOrder(alias, stock[i].id)
    requires FoldCollection(Annotate(stock, i), alias).Folded?
    ensures NotesOnlyAt(Drop(FoldCollection(Annotate(stock, i), alias).entries, alias), {})
  {
    var entries, order, k := Annotate(stock, i), SortedKeys(alias.Keys), stock[i].id;
    LexTotal(k, alias[k]);
    assert NotesOnlyAt(entries, {k});
    NoteStays(entries, alias, order, k);
    assert k in order;
    SurvivorsHaveNone(FoldCollection(entries, alias).entries, alias, {k, alias[k]});
  }

  lemma SurvivorsHaveNone(after: seq<Record>, alias: Alias, ids: set<string>)
    requires NotesOnlyAt(after, ids) && forall k :: k in ids ==> !Survives(alias, k)
    ensures NotesOnlyAt(Drop(after, alias), {})
  {
    var kept := Drop(after, alias);
    forall j | 0 <= j < |kept|
      ensures ListOf(kept[j], Notes) == []
    {
      DropMember(after, alias, kept[j]);
      var i :| 0 <= i < |after| && after[i] == kept[j];
    }
  }

  lemma CarrierHasNotes(e: Record, s: Record, chips: Alias)
    requires ListOf(e, Notes) != [] && Carries(e, s, chips)
    ensures ListOf(s, Notes) != []
  {
    assert Item(chips, Notes, ListOf(e, Notes)[0]) in ListOf(s, Notes);
  }

  lemma NoteNotCarried(entries: seq<Record>, i: nat, alias: Alias, after: seq<Record>, chips: Alias)
    requires i < |entries| && ListOf(entries[i], Notes) != [] && NotesOnlyAt(after, {})
    ensures !CollectionCarried(entries, alias, after, chips)
  {
    forall s | s in after
      ensures !Carries(entries[i], s, chips)
    {
      if Carries(entries[i], s, chips) {
        CarrierHasNotes(entries[i], s, chips);
      }
    }
    assert !EntryCarried(entries[i], alias, after, chips);
  }

  lemma StockEntry(alias: Alias, k: string) returns (i: nat)
    requires k in alias
    ensures i < |Stock(alias)| && Stock(alias)[i].id == k
    ensures AllBlank(Stock(alias)) && UniqueIds(Stock(alias)) && TargetsPresent(Stock(alias), alias)
  {
    StockFolds(alias);
    CollectionSucceedsExactly(Stock(alias), alias);
    IdThere(Stock(alias), k);
    i := Find(Stock(alias), k).value;
  }

  /** A collection that an alias out of order makes lose a note. */
  lemma LossyCollection(alias: Alias, k: string) returns (entries: seq<Record>, i: nat)
    requires OutOfOrder(alias, k)
    ensures UniqueIds(entries) && ChipsResolve(entries, {}) && ModulesResolve(entries, {})
    ensures i < |entries| && ListOf(entries[i], Notes) != []
    ensures FoldCollection(entries, alias).Folded? && NotesOnlyAt(Drop(FoldCollection(entries, alias).entries, alias), {})
  {
    i := StockEntry(alias, k);
    entries := Annotate(Stock(alias), i);
    AnnotatedFolds(Stock(alias), i, alias);
    AnnotatedNamesNothing(Stock(alias), i);
    NoteIsLost(Stock(alias), i, alias);
  }

  /** A collection without references makes a valid catalog on its own. */
  lemma AloneIsValid(entries: seq<Record>)
    requires UniqueIds(entries) && ChipsResolve(entries, {}) && ModulesResolve(entries, {})
    ensures ValidCatalog(Catalog(entries, [], [])) && ValidCatalog(Catalog([], entries, []))
    ensures ValidCatalog(Catalog([], [], entries))
  {
    assert Ids([]) == {};
  }

  lemma RemapKeepsNotes(kept: seq<Record>, alias: Alias)
    requires NotesOnlyAt(kept, {})
    ensures NotesOnlyAt(RemapAllModules(kept, alias), {}) && NotesOnlyAt(RemapAllChips(kept, alias), {})
  {
    var ps, ms := RemapAllModules(kept, alias), RemapAllChips(kept, alias);
    forall j | 0 <= j < |kept|
      ensures ListOf(ps[j], Notes) == [] && ListOf(ms[j], Notes) == []
    {
      assert ps[j] == RemapModules(kept[j], alias) && ms[j] == RemapChips(kept[j], alias);
    }
  }

  lemma ProjectLost(al: Aliases, k: string) returns (cat: Catalog)
    requires OutOfOrder(al.projects, k)
    ensures ValidCatalog(cat) && Consolidate(cat, al).Done? && !NothingLost(cat, al, Consolidate(cat, al).catalog)
  {
    var entries, i := LossyCollection(al.projects, k);
    AloneIsValid(entries);
    cat := Catalog(entries, [], []);
    var kept := Drop(FoldCollection(entries, al.projects).entries, al.projects);
    assert Consolidate(cat, al).Done? && Consolidate(cat, al).catalog.projects == RemapAllModules(kept, al.modules) by {
      NothingToFold(al.modules);
      NothingToFold(al.chips);
    }
    RemapKeepsNotes(kept, al.modules);
    NoteNotCarried(entries, i, al.projects, RemapAllModules(kept, al.modules), map[]);
  }

  lemma ModuleLost(al: Aliases, k: string) returns (cat: Catalog)
    requires OutOfOrder(al.modules, k)
    ensures ValidCatalog(cat) && Consolidate(cat, al).Done? && !NothingLost(cat, al, Consolidate(cat, al).catalog)
  {
    var entries, i := LossyCollection(al.modules, k);
    AloneIsValid(entries);
    cat := Catalog([], entries, []);
    var kept := Drop(FoldCollection(entries, al.modules).entries, al.modules);
    assert Consolidate(cat, al).Done? && Consolidate(cat, al).catalog.modules == RemapAllChips(kept, al.chips) by {
      NothingToFold(al.projects);
      NothingToFold(al.chips);
    }
    RemapKeepsNotes(kept, al.chips);
    NoteNotCarried(entries, i, al.modules, RemapAllChips(kept, al.chips), al.chips);
  }

  lemma ChipLost(al: Aliases, k: string) returns (cat: Catalog)
    requires OutOfOrder(al.chips, k)
    ensures ValidCatalog(cat) && Consolidate(cat, al).Done? && !NothingLost(cat, al, Consolidate(cat, al).catalog)
  {
    var entries, i := LossyCollection(al.chips, k);
    AloneIsValid(entries);
    cat := Catalog([], [], entries);
    var kept := Drop(FoldCollection(entries, al.chips).entries, al.chips);
    assert Consolidate(cat, al).Done? && Consolidate(cat, al).catalog.chips == kept by {
      NothingToFold(al.projects);
      NothingToFold(al.modules);
    }
    NoteNotCarried(entries, i, al.chips, kept, map[]);
  }

  /** Aliases that are out of order lose a note of some valid catalog. */
  lemma UnorderedLoses(al: Aliases) returns (cat: Catalog)
    requires !AllOrdered(al)
    ensures ValidCatalog(cat) && Consolidate(cat, al).Done? && !NothingLost(cat, al, Consolidate(cat, al).catalog)
  {
    if !Ordered(al.projects) {
      var k :| OutOfOrder(al.projects, k);
      cat := ProjectLost(al, k);
    } else if !Ordered(al.modules) {
      var k :| OutOfOrder(al.modules, k);
      cat := ModuleLost(al, k);
    } else {
      var k :| OutOfOrder(al.chips, k);
      cat := ChipLost(al, k);
    }
  }

  ghost predicate NeverLoses(al: Aliases) {
    forall cat :: AllUnique(cat) && Consolidate(cat, al).Done? ==> NothingLost(cat, al, Consolidate(cat, al).catalog)
  }

  /** Consolidation never loses anything of a catalog with unique ids exactly when every alias whose
      target is itself aliased away sorts before that target. */
  lemma ProvenanceNeedsOrder(al: Aliases)
    ensures NeverLoses(al) <==> AllOrdered(al)
  {
    if AllOrdered(al) {
      forall cat | AllUnique(cat) && Consolidate(cat, al).Done?
        ensures NothingLost(cat, al, Consolidate(cat, al).catalog)
      {
        OrderedLosesNothing(cat, al);
      }
    } else {
      var cat := UnorderedLoses(al);
    }
  }
}
