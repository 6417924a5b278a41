/** The consolidation script as it runs: entries are objects changed in place, lists are rebuilt in
    loops. Each method is tied to the function that specifies it. */
module CatalogScript {
  import opened Basics
  import opened CatalogMerge
  import opened Catalog

  const SCALAR_FIELDS: seq<ScalarField> :=
    [Name, Vendor, Manufacturer, Kind, Role, Summary, Datasheet, MouserQuery, Photo]

  const LIST_FIELDS: seq<ListField> := [GoodFor, NotFor, Notes, SeenIn, Pins, Tags, Chips, Cogs]

  class Entry {
    var rec: Record

    constructor (rec: Record)
      ensures this.rec == rec
    {
      this.rec := rec;
    }
  }

  // ---------------------------------------------------------------------------------------------
  // Lists
  // ---------------------------------------------------------------------------------------------

  method UnionList(canon: seq<string>, other: seq<string>) returns (out: seq<string>)
    ensures out == UnionBy(Self, canon, other)
  {
    out := canon;
    for i := 0 to |other|
      invariant UnionBy(Self, out, other[i..]) == UnionBy(Self, canon, other)
    {
      assert other[i..][0] == other[i] && other[i..][1..] == other[i + 1..];
      SelfKey(out, other[i]);
      if other[i] !in out {
        out := out + [other[i]];
      }
    }
  }

  lemma KeySet(offers: seq<Offer>, k: OfferKey)
    ensures k in (set b | b in offers :: OfferKeyOf(b)) <==> HasKey(OfferKeyOf, offers, k)
  {
    if HasKey(OfferKeyOf, offers, k) {
      var i :| 0 <= i < |offers| && OfferKeyOf(offers[i]) == k;
      assert offers[i] in offers;
    }
    if b :| b in offers && OfferKeyOf(b) == k {
      var i :| 0 <= i < |offers| && offers[i] == b;
      assert OfferKeyOf(offers[i]) == k;
    }
  }

  method MergeBuy(canon: seq<Offer>, other: seq<Offer>) returns (out: seq<Offer>)
    ensures out == UnionBy(OfferKeyOf, canon, other)
  {
    out := canon;
    var seen := set b | b in canon :: OfferKeyOf(b);
    for i := 0 to |other|
      invariant UnionBy(OfferKeyOf, out, other[i..]) == UnionBy(OfferKeyOf, canon, other)
      invariant seen == set b | b in out :: OfferKeyOf(b)
    {
      assert other[i..][0] == other[i] && other[i..][1..] == other[i + 1..];
      var key := OfferKeyOf(other[i]);
      KeySet(out, key);
      if key !in seen {
        out := out + [other[i]];
        seen := seen + {key};
      }
    }
  }

  method RemapIds(ids: seq<string>, alias: Alias) returns (out: seq<string>)
    ensures out == Remap(ids, alias)
  {
    out := [];
    ghost var targets := Targets(ids, alias);
    for i := 0 to |ids|
      invariant UnionBy(Self, out, targets[i..]) == Remap(ids, alias)
    {
      assert targets[i..][0] == targets[i] && targets[i..][1..] == targets[i + 1..];
      var c := if ids[i] in alias then alias[ids[i]] else ids[i];
      SelfKey(out, c);
      if c !in out {
        out := out + [c];
      }
    }
  }

  // ---------------------------------------------------------------------------------------------
  // One merge, in place
  // ---------------------------------------------------------------------------------------------

  lemma ScalarFieldsListed(f: ScalarField)
    ensures f in SCALAR_FIELDS
  {
    assert SCALAR_FIELDS[0] == Name && SCALAR_FIELDS[1] == Vendor && SCALAR_FIELDS[2] == Manufacturer;
    assert SCALAR_FIELDS[3] == Kind && SCALAR_FIELDS[4] == Role && SCALAR_FIELDS[5] == Summary;
    assert SCALAR_FIELDS[6] == Datasheet && SCALAR_FIELDS[7] == MouserQuery && SCALAR_FIELDS[8] == Photo;
  }

  lemma ListFieldsListed(f: ListField)
    ensures f in LIST_FIELDS
  {
    assert LIST_FIELDS[0] == GoodFor && LIST_FIELDS[1] == NotFor && LIST_FIELDS[2] == Notes && LIST_FIELDS[3] == SeenIn;
    assert LIST_FIELDS[4] == Pins && LIST_FIELDS[5] == Tags && LIST_FIELDS[6] == Chips && LIST_FIELDS[7] == Cogs;
  }

  lemma FieldsDistinct()
    ensures Distinct(SCALAR_FIELDS) && Distinct(LIST_FIELDS)
  {
  }

  /** Some of the additions made. */
  ghost function SoFar<F(!new), V>(base: map<F, V>, add: map<F, V>, done: seq<F>): map<F, V> {
    base + map f | f in add && f in done :: add[f]
  }

  lemma SoFarNext<F(!new), V>(base: map<F, V>, add: map<F, V>, done: seq<F>, f: F)
    requires f !in done
    ensures var now := SoFar(base, add, done);
            && (f in now <==> f in base) && (f in base ==> now[f] == base[f])
            && SoFar(base, add, done + [f]) == if f in add then now[f := add[f]] else now
  {
  }

  lemma SoFarEnds<F(!new), V>(base: map<F, V>, add: map<F, V>, fields: seq<F>)
    requires forall f :: f in add ==> f in fields
    ensures SoFar(base, add, []) == base
    ensures SoFar(base, add, fields) == base + add
  {
  }

  /** One scalar field: the loop adopts it exactly when the merge does. */
  lemma ScalarFieldNext(c: Record, o: Record, now: Record, fields: seq<ScalarField>, i: nat)
    requires i < |fields| && Distinct(fields) && now == c.(scalars := SoFar(c.scalars, AdoptedScalars(c, o), fields[..i]))
    ensures var f := fields[i];
            c.(scalars := SoFar(c.scalars, AdoptedScalars(c, o), fields[..i + 1])) ==
            if f in o.scalars && !IsEmpty(o.scalars[f]) && IsEmpty(Scalar(now, f))
            then now.(scalars := now.scalars[f := o.scalars[f]]) else now
  {
    SoFarNext(c.scalars, AdoptedScalars(c, o), fields[..i], fields[i]);
    assert fields[..i + 1] == fields[..i] + [fields[i]];
    assert Scalar(now, fields[i]) == Scalar(c, fields[i]);
  }

  /** One list field: the loop unites it exactly when the merge does. */
  lemma ListFieldNext(c: Record, o: Record, now: Record, fields: seq<ListField>, i: nat)
    requires i < |fields| && Distinct(fields) && now == c.(lists := SoFar(c.lists, UnitedLists(c, o), fields[..i]))
    ensures var f := fields[i];
            c.(lists := SoFar(c.lists, UnitedLists(c, o), fields[..i + 1])) ==
            if f in o.lists then now.(lists := now.lists[f := UnionBy(Self, ListOf(now, f), o.lists[f])]) else now
  {
    SoFarNext(c.lists, UnitedLists(c, o), fields[..i], fields[i]);
    assert fields[..i + 1] == fields[..i] + [fields[i]];
    assert ListOf(now, fields[i]) == ListOf(c, fields[i]);
  }

  method MergeScalarFields(canon: Entry, other: Entry, fields: seq<ScalarField>)
    requires canon != other
    requires forall f: ScalarField :: f in fields
    requires Distinct(fields)
    modifies canon
    ensures canon.rec == old(canon.rec).(scalars := old(canon.rec).scalars + AdoptedScalars(old(canon.rec), other.rec))
  {
    ghost var c, o := canon.rec, other.rec;
    ghost var add := AdoptedScalars(c, o);
    SoFarEnds(c.scalars, add, fields);
    for i := 0 to |fields|
      invariant canon.rec == c.(scalars := SoFar(c.scalars, add, fields[..i]))
    {
      var f := fields[i];
      ScalarFieldNext(c, o, canon.rec, fields, i);
      if f in other.rec.scalars && !IsEmpty(other.rec.scalars[f]) {
        if IsEmpty(Scalar(canon.rec, f)) {
          canon.rec := canon.rec.(scalars := canon.rec.scalars[f := other.rec.scalars[f]]);
        }
      }
    }
    assert fields[..|fields|] == fields;
  }

  method MergeListFields(canon: Entry, other: Entry, fields: seq<ListField>)
    requires canon != other
    requires forall f: ListField :: f in fields
    requires Distinct(fields)
    modifies canon
    ensures canon.rec == old(canon.rec).(lists := old(canon.rec).lists + UnitedLists(old(canon.rec), other.rec))
  {
    ghost var c, o := canon.rec, other.rec;
    ghost var add := UnitedLists(c, o);
    SoFarEnds(c.lists, add, fields);
    for i := 0 to |fields|
      invariant canon.rec == c.(lists := SoFar(c.lists, add, fields[..i]))
    {
      var f := fields[i];
      ListFieldNext(c, o, canon.rec, fields, i);
      if f in other.rec.lists {
        var united := UnionList(ListOf(canon.rec, f), other.rec.lists[f]);
        canon.rec := canon.rec.(lists := canon.rec.lists[f := united]);
      }
    }
    assert fields[..|fields|] == fields;
  }

  method MergeScalars(canon: Entry, other: Entry)
    requires canon != other
    modifies canon
    ensures canon.rec == old(canon.rec).(scalars := old(canon.rec).scalars + AdoptedScalars(old(canon.rec), other.rec))
  {
    FieldsDistinct();
    forall f: ScalarField
      ensures f in SCALAR_FIELDS
    {
      ScalarFieldsListed(f);
    }
    MergeScalarFields(canon, other, SCALAR_FIELDS);
  }

  method MergeLists(canon: Entry, other: Entry)
    requires canon != other
    modifies canon
    ensures canon.rec == old(canon.rec).(lists := old(canon.rec).lists + UnitedLists(old(canon.rec), other.rec))
  {
    FieldsDistinct();
    forall f: ListField
      ensures f in LIST_FIELDS
    {
      ListFieldsListed(f);
    }
    MergeListFields(canon, other, LIST_FIELDS);
  }

  lemma UnitedListsDependOnLists(c: Record, d: Record, o: Record)
    requires c.lists == d.lists
    ensures UnitedLists(c, o) == UnitedLists(d, o)
  {
    assert forall f :: ListOf(c, f) == ListOf(d, f);
  }

  /** `merge_into`. */
  method MergeInto(canon: Entry, other: Entry)
    requires canon != other
    modifies canon
    ensures canon.rec == Merge(old(canon.rec), other.rec)
  {
    ghost var c := canon.rec;
    MergeScalars(canon, other);
    if other.rec.spec.Some? {
      canon.rec := canon.rec.(spec := Some(other.rec.spec.value + SpecOf(canon.rec)));
    }
    if other.rec.buy.Some? {
      var united := MergeBuy(Offers(canon.rec), other.rec.buy.value);
      canon.rec := canon.rec.(buy := Some(united));
    }
    UnitedListsDependOnLists(canon.rec, c, other.rec);
    MergeLists(canon, other);
  }

  // ---------------------------------------------------------------------------------------------
  // One collection, in place
  // ---------------------------------------------------------------------------------------------

  ghost function Recs(es: seq<Entry>): (r: seq<Record>)
    reads es
    ensures |r| == |es| && forall i :: 0 <= i < |es| ==> r[i] == es[i].rec
  {
    seq(|es|, i requires 0 <= i < |es| reads es => es[i].rec)
  }

  /** `by_id` for the records an entry list holds. */
  ghost predicate Indexes(byId: map<string, Entry>, es: seq<Entry>, recs: seq<Record>)
    requires |recs| == |es|
  {
    forall id :: && (id in byId <==> Find(recs, id).Some?)
                 && (id in byId ==> byId[id] == es[Find(recs, id).value])
  }

  method Index(es: seq<Entry>) returns (byId: map<string, Entry>)
    ensures Indexes(byId, es, Recs(es))
  {
    byId := map[];
    ghost var recs := Recs(es);
    for i := 0 to |es|
      invariant Indexes(byId, es[..i], recs[..i])
    {
      assert recs[..i + 1][..i] == recs[..i] && es[..i + 1][..i] == es[..i];
      byId := byId[es[i].rec.id := es[i]];
    }
    assert recs[..|es|] == recs && es[..|es|] == es;
  }

  lemma IndexesSame(byId: map<string, Entry>, es: seq<Entry>, a: seq<Record>, b: seq<Record>)
    requires |a| == |es| && SameShape(a, b) && Indexes(byId, es, a)
    ensures Indexes(byId, es, b)
  {
    forall id
      ensures Find(a, id) == Find(b, id)
    {
      FindSame(a, b, id);
    }
  }

  method MergeEntries(es: seq<Entry>, canon: Entry, other: Entry, ghost to: nat, ghost from: nat)
    requires Distinct(es) && to < |es| && from < |es| && es[to] == canon && es[from] == other && canon != other
    modifies canon
    ensures Recs(es) == old(Recs(es))[to := Merge(old(canon.rec), old(other.rec))]
  {
    MergeInto(canon, other);
  }

  /** One alias: fold the old entry into its canonical one, or find that the target is missing. */
  method FoldStep(es: seq<Entry>, byId: map<string, Entry>, alias: Alias, old_id: string, merged: seq<Fold>)
    returns (missing: Option<string>, after: seq<Fold>)
    requires Distinct(es) && Indexes(byId, es, Recs(es)) && old_id in alias
    modifies es
    ensures FoldOne(old(Recs(es)), merged, alias, old_id) ==
            if missing.Some? then Missing(missing.value) else Folded(Recs(es), after)
  {
    ghost var before := Recs(es);
    missing, after := None, merged;
    var canonical := alias[old_id];
    if old_id == canonical || old_id !in byId {
      return;
    }
    if canonical !in byId {
      missing := Some(canonical);
      return;
    }
    MergeEntries(es, byId[canonical], byId[old_id], Find(before, canonical).value, Find(before, old_id).value);
    after := merged + [(old_id, canonical)];
  }

  lemma FoldAllNext(recs: seq<Record>, alias: Alias, order: seq<string>, i: nat)
    requires i < |order| && FoldAll(recs, alias, order[..i]).Folded?
    ensures var f := FoldAll(recs, alias, order[..i]);
            FoldAll(recs, alias, order[..i + 1]) == FoldOne(f.entries, f.merged, alias, order[i])
  {
    assert order[..i + 1][..i] == order[..i];
  }

  lemma {:induction false} FoldAllMissing(recs: seq<Record>, alias: Alias, order: seq<string>, n: nat)
    requires n <= |order| && FoldAll(recs, alias, order[..n]).Missing?
    ensures FoldAll(recs, alias, order) == FoldAll(recs, alias, order[..n])
    decreases |order|
  {
    if n < |order| {
      var m := |order| - 1;
      assert order[..m][..n] == order[..n];
      FoldAllMissing(recs, alias, order[..m], n);
    } else {
      assert order[..n] == order;
    }
  }

  /** The loop over the sorted aliases. */
  method FoldInPlace(es: seq<Entry>, alias: Alias, order: seq<string>) returns (missing: Option<string>, merged: seq<Fold>)
    requires Distinct(es) && forall k :: k in order ==> k in alias
    modifies es
    ensures FoldAll(old(Recs(es)), alias, order) ==
            if missing.Some? then Missing(missing.value) else Folded(Recs(es), merged)
  {
    ghost var recs0 := Recs(es);
    missing, merged := None, [];
    var byId := Index(es);
    for i := 0 to |order|
      invariant FoldAll(recs0, alias, order[..i]) == Folded(Recs(es), merged)
      invariant missing.None?
    {
      FoldShape(recs0, alias, order[..i]);
      IndexesSame(byId, es, recs0, Recs(es));
      FoldAllNext(recs0, alias, order, i);
      assert order[i] in order;
      missing, merged := FoldStep(es, byId, alias, order[i], merged);
      if missing.Some? {
        FoldAllMissing(recs0, alias, order, i + 1);
        return;
      }
    }
    assert order[..|order|] == order;
  }

  lemma {:induction false} DropSnoc(recs: seq<Record>, e: Record, alias: Alias)
    ensures Drop(recs + [e], alias) == Drop(recs, alias) + if Survives(alias, e.id) then [e] else []
    decreases |recs|
  {
    if recs == [] {
      assert recs + [e] == [e] + [];
      DropCons(e, [], alias);
    } else {
      var first, rest := recs[0], recs[1..];
      assert recs + [e] == [first] + (rest + [e]) && recs == [first] + rest;
      DropSnoc(rest, e, alias);
      DropCons(first, rest, alias);
      DropCons(first, rest + [e], alias);
      Regroup(if Survives(alias, first.id) then [first] else [], Drop(rest, alias), if Survives(alias, e.id) then [e] else []);
    }
  }

  lemma {:induction false} DropCons(e: Record, rest: seq<Record>, alias: Alias)
    ensures Drop([e] + rest, alias) == (if Survives(alias, e.id) then [e] else []) + Drop(rest, alias)
  {
    assert ([e] + rest)[1..] == rest;
  }

  method DropAliased(es: seq<Entry>, alias: Alias) returns (kept: seq<Entry>)
    requires Distinct(es)
    ensures Recs(kept) == Drop(Recs(es), alias)
    ensures Distinct(kept) && forall i :: 0 <= i < |kept| ==> kept[i] in es
  {
    kept := [];
    ghost var recs := Recs(es);
    for i := 0 to |es|
      invariant Recs(kept) == Drop(recs[..i], alias)
      invariant Distinct(kept) && forall j :: 0 <= j < |kept| ==> kept[j] in es[..i]
    {
      DropSnoc(recs[..i], recs[i], alias);
      assert recs[..i + 1] == recs[..i] + [recs[i]];
      assert es[i] !in es[..i];
      var id := es[i].rec.id;
      if (if id in alias then alias[id] else id) == id {
        ghost var before := Recs(kept);
        kept := kept + [es[i]];
        assert Recs(kept) == before + [recs[i]];
      }
    }
    assert recs[..|es|] == recs;
  }

  // ---------------------------------------------------------------------------------------------
  // The whole catalog
  // ---------------------------------------------------------------------------------------------

  lemma {:induction false} EnumerationUnique(s: seq<string>, t: seq<string>, keys: set<string>)
    requires Enumerates(s, keys) && Enumerates(t, keys)
    ensures s == t
    decreases |s|
  {
    if s == [] {
      NonEmptyHas(t);
    } else {
      assert s[0] in s;
      var x, y := s[0], t[0];
      assert y in t;
      LexTotal(x, y);
      var i :| 0 <= i < |t| && t[i] == x;
      var j :| 0 <= j < |s| && s[j] == y;
      assert x == y;
      TailEnumerates(s, keys);
      TailEnumerates(t, keys);
      EnumerationUnique(s[1..], t[1..], keys - {x});
      assert s == [x] + s[1..] && t == [x] + t[1..];
    }
  }

  lemma NonEmptyHas(t: seq<string>)
    ensures t == [] || exists k :: k in t
  {
    if t != [] {
      assert t[0] in t;
    }
  }

  lemma TailEnumerates(s: seq<string>, keys: set<string>)
    requires Enumerates(s, keys) && s != []
    ensures Enumerates(s[1..], keys - {s[0]})
  {
    forall k
      ensures k in s[1..] <==> k in keys && k != s[0]
    {
      if k in s[1..] {
        var i :| 0 <= i < |s[1..]| && s[1..][i] == k;
        assert s[i + 1] == k;
        LexTotal(s[0], k);
      }
      if k in keys && k != s[0] {
        var i :| 0 <= i < |s| && s[i] == k;
        assert s[1..][i - 1] == k;
      }
    }
  }

  /** `sorted(alias)`. */
  method SortKeys(keys: set<string>) returns (s: seq<string>)
    ensures s == SortedKeys(keys)
  {
    s := [];
    var todo := keys;
    while todo != {}
      invariant todo <= keys && SortedDistinct(s)
      invariant forall k :: k in s <==> k in keys - todo
      invariant forall i, k :: 0 <= i < |s| && k in todo ==> LexLess(s[i], k)
    {
      ghost var least := LeastExists(todo);
      assert forall k :: k in todo ==> k == least || LexLess(least, k);
      var next :| next in todo && forall k :: k in todo ==> k == next || LexLess(next, k);
      s := s + [next];
      todo := todo - {next};
    }
    EnumerationUnique(s, SortedKeys(keys), keys);
  }

  /** A run from `before` that ends with a missing alias target, or in `after` with a report. */
  ghost predicate Consolidates(before: Catalog, al: Aliases, missing: Option<string>, after: Catalog, report: Report) {
    Consolidate(before, al) == if missing.Some? then Failed(missing.value) else Done(after, report)
  }

  class CatalogFile {
    var projects: seq<Entry>
    var modules: seq<Entry>
    var chips: seq<Entry>

    constructor (projects: seq<Entry>, modules: seq<Entry>, chips: seq<Entry>)
      ensures this.projects == projects && this.modules == modules && this.chips == chips
    {
      this.projects, this.modules, this.chips := projects, modules, chips;
    }

    /** All entries are different objects. */
    ghost predicate Valid()
      reads this
    {
      Apart(projects, modules, chips)
    }

    ghost function View(): Catalog
      reads this, projects, modules, chips
    {
      Catalog(Recs(projects), Recs(modules), Recs(chips))
    }

    /** `consolidate`. On a missing target the script exits and writes nothing. */
    method Run(al: Aliases) returns (missing: Option<string>, report: Report)
      requires Valid()
      modifies this, projects, modules, chips
      ensures Valid()
      ensures Consolidates(old(View()), al, missing, View(), report)
    {
      var ps, ms, cs;
      missing, report, ps, ms, cs := ConsolidateEntries(projects, modules, chips, al);
      Replace(ps, ms, cs);
    }

    method Replace(ps: seq<Entry>, ms: seq<Entry>, cs: seq<Entry>)
      requires Apart(ps, ms, cs)
      modifies this
      ensures Valid() && View() == Catalog(old(Recs(ps)), old(Recs(ms)), old(Recs(cs)))
    {
      projects, modules, chips := ps, ms, cs;
    }
  }

  /** Folding, dropping and rewriting on the three entry lists. */
  method ConsolidateEntries(ps: seq<Entry>, ms: seq<Entry>, cs: seq<Entry>, al: Aliases)
    returns (missing: Option<string>, report: Report, ps': seq<Entry>, ms': seq<Entry>, cs': seq<Entry>)
    requires Apart(ps, ms, cs)
    modifies ps, ms, cs
    ensures Apart(ps', ms', cs')
    ensures missing.Some? ==> ps' == ps && ms' == ms && cs' == cs
    ensures Consolidates(Catalog(old(Recs(ps)), old(Recs(ms)), old(Recs(cs))), al, missing,
                         Catalog(Recs(ps'), Recs(ms'), Recs(cs')), report)
  {
    ps', ms', cs' := ps, ms, cs;
    ghost var before := Catalog(Recs(ps), Recs(ms), Recs(cs));
    missing, report := FoldEach(ps, ms, cs, al);
    ghost var folded := Catalog(Recs(ps), Recs(ms), Recs(cs));
    OutcomeIsConsolidate(before, folded, al, missing, report);
    if missing.None? {
      ps', ms', cs' := DropEach(ps, ms, cs, al);
      RewriteBoth(ps', ms', cs', al);
    }
  }

  lemma OutcomeIsConsolidate(before: Catalog, folded: Catalog, al: Aliases, missing: Option<string>, report: Report)
    requires FoldOutcome(FoldCollection(before.projects, al.projects), FoldCollection(before.modules, al.modules),
                         FoldCollection(before.chips, al.chips), missing, folded, report)
    ensures Consolidate(before, al) ==
            if missing.Some? then Failed(missing.value)
            else Done(Catalog(RemapAllModules(Drop(folded.projects, al.projects), al.modules),
                              RemapAllChips(Drop(folded.modules, al.modules), al.chips),
                              Drop(folded.chips, al.chips)), report)
  {
  }

  method DropEach(ps: seq<Entry>, ms: seq<Entry>, cs: seq<Entry>, al: Aliases)
    returns (ps': seq<Entry>, ms': seq<Entry>, cs': seq<Entry>)
    requires Apart(ps, ms, cs)
    ensures Apart(ps', ms', cs')
    ensures Recs(ps') == Drop(Recs(ps), al.projects) && forall i :: 0 <= i < |ps'| ==> ps'[i] in ps
    ensures Recs(ms') == Drop(Recs(ms), al.modules) && forall i :: 0 <= i < |ms'| ==> ms'[i] in ms
    ensures Recs(cs') == Drop(Recs(cs), al.chips)
  {
    ps' := DropAliased(ps, al.projects);
    ms' := DropAliased(ms, al.modules);
    cs' := DropAliased(cs, al.chips);
    SubApart(ps, ms, cs, ps', ms', cs');
  }

  lemma SubApart(ps: seq<Entry>, ms: seq<Entry>, cs: seq<Entry>, ps': seq<Entry>, ms': seq<Entry>, cs': seq<Entry>)
    requires Apart(ps, ms, cs) && Distinct(ps') && Distinct(ms') && Distinct(cs')
    requires forall i :: 0 <= i < |ps'| ==> ps'[i] in ps
    requires forall i :: 0 <= i < |ms'| ==> ms'[i] in ms
    requires forall i :: 0 <= i < |cs'| ==> cs'[i] in cs
    ensures Apart(ps', ms', cs')
  {
    SubForeign(ps, ms, ps', ms');
    SubForeign(ps, cs, ps', cs');
    SubForeign(ms, ps, ms', ps');
    SubForeign(ms, cs, ms', cs');
    SubForeign(cs, ps, cs', ps');
    SubForeign(cs, ms, cs', ms');
  }

  lemma SubForeign(a: seq<Entry>, b: seq<Entry>, a': seq<Entry>, b': seq<Entry>)
    requires Foreign(a, b)
    requires forall i :: 0 <= i < |a'| ==> a'[i] in a
    requires forall i :: 0 <= i < |b'| ==> b'[i] in b
    ensures Foreign(a', b')
  {
    forall i | 0 <= i < |a'|
      ensures a'[i] !in b'
    {
      var j :| 0 <= j < |a| && a[j] == a'[i];
      assert a[j] !in b;
    }
  }

  ghost predicate Foreign(es: seq<Entry>, others: seq<Entry>) {
    forall i :: 0 <= i < |es| ==> es[i] !in others
  }

  ghost predicate Apart(ps: seq<Entry>, ms: seq<Entry>, cs: seq<Entry>) {
    && Distinct(ps) && Distinct(ms) && Distinct(cs)
    && Foreign(ps, ms) && Foreign(ps, cs) && Foreign(ms, ps) && Foreign(ms, cs) && Foreign(cs, ps) && Foreign(cs, ms)
  }

  /** Folding one collection leaves two others alone. */
  method FoldApart(es: seq<Entry>, alias: Alias, ghost a: seq<Entry>, ghost b: seq<Entry>)
    returns (missing: Option<string>, merged: seq<Fold>)
    requires Distinct(es) && Foreign(a, es) && Foreign(b, es)
    modifies es
    ensures FoldCollection(old(Recs(es)), alias) ==
            if missing.Some? then Missing(missing.value) else Folded(Recs(es), merged)
    ensures Recs(a) == old(Recs(a)) && Recs(b) == old(Recs(b))
  {
    missing, merged := FoldSorted(es, alias);
  }

  /** The outcome of the three folding loops, in order. */
  ghost predicate FoldOutcome(p: Folded, m: Folded, c: Folded, missing: Option<string>, after: Catalog, report: Report) {
    if missing.Some?
    then p == Missing(missing.value) || (p.Folded? && m == Missing(missing.value))
         || (p.Folded? && m.Folded? && c == Missing(missing.value))
    else p == Folded(after.projects, report.projects) && m == Folded(after.modules, report.modules)
         && c == Folded(after.chips, report.chips)
  }

  /** The three folding loops. */
  method FoldEach(ps: seq<Entry>, ms: seq<Entry>, cs: seq<Entry>, al: Aliases) returns (missing: Option<string>, report: Report)
    requires Apart(ps, ms, cs)
    modifies ps, ms, cs
    ensures FoldOutcome(FoldCollection(old(Recs(ps)), al.projects), FoldCollection(old(Recs(ms)), al.modules),
                        FoldCollection(old(Recs(cs)), al.chips), missing, Catalog(Recs(ps), Recs(ms), Recs(cs)), report)
  {
    report := Report([], [], []);
    var folded;
    missing, folded := FoldApart(ps, al.projects, ms, cs);
    report := report.(projects := folded);
    if missing.Some? {
      return;
    }
    missing, folded := FoldApart(ms, al.modules, ps, cs);
    report := report.(modules := folded);
    if missing.Some? {
      return;
    }
    missing, folded := FoldApart(cs, al.chips, ps, ms);
    report := report.(chips := folded);
  }

  /** The two rewriting loops. */
  method RewriteBoth(ps: seq<Entry>, ms: seq<Entry>, cs: seq<Entry>, al: Aliases)
    requires Apart(ps, ms, cs)
    modifies ps, ms
    ensures Recs(ps) == RemapAllModules(old(Recs(ps)), al.modules)
    ensures Recs(ms) == RemapAllChips(old(Recs(ms)), al.chips)
    ensures Recs(cs) == old(Recs(cs))
  {
    ghost var m0, c0 := Recs(ms), Recs(cs);
    RewriteModules(ps, al.modules);
    assert Recs(ms) == m0 && Recs(cs) == c0;
    ghost var p1 := Recs(ps);
    RewriteChips(ms, al.chips);
    assert Recs(ps) == p1 && Recs(cs) == c0;
  }

  method FoldSorted(es: seq<Entry>, alias: Alias) returns (missing: Option<string>, merged: seq<Fold>)
    requires Distinct(es)
    modifies es
    ensures FoldCollection(old(Recs(es)), alias) ==
            if missing.Some? then Missing(missing.value) else Folded(Recs(es), merged)
  {
    var order := SortKeys(alias.Keys);
    missing, merged := FoldInPlace(es, alias, order);
  }

  method RewriteModules(es: seq<Entry>, alias: Alias)
    requires Distinct(es)
    modifies es
    ensures Recs(es) == RemapAllModules(old(Recs(es)), alias)
  {
    for i := 0 to |es|
      invariant forall j :: 0 <= j < i ==> es[j].rec == RemapModules(old(es[j].rec), alias)
      invariant forall j :: i <= j < |es| ==> es[j].rec == old(es[j].rec)
    {
      if es[i].rec.modules.Some? {
        var ids := RemapIds(es[i].rec.modules.value, alias);
        es[i].rec := es[i].rec.(modules := Some(ids));
      }
    }
  }

  method RewriteChips(es: seq<Entry>, alias: Alias)
    requires Distinct(es)
    modifies es
    ensures Recs(es) == RemapAllChips(old(Recs(es)), alias)
  {
    for i := 0 to |es|
      invariant forall j :: 0 <= j < i ==> es[j].rec == RemapChips(old(es[j].rec), alias)
      invariant forall j :: i <= j < |es| ==> es[j].rec == old(es[j].rec)
    {
      if Chips in es[i].rec.lists {
        var ids := RemapIds(es[i].rec.lists[Chips], alias);
        es[i].rec := es[i].rec.(lists := es[i].rec.lists[Chips := ids]);
      }
    }
  }

  // ---------------------------------------------------------------------------------------------
  // Validation
  // ---------------------------------------------------------------------------------------------

  datatype Part = ProjectPart | ModulePart | ChipPart

  datatype Problem =
    | DuplicateId(part: Part, id: string)
    | MissingModule(project: string, ref: string)
    | MissingChip(owner: string, ref: string)

  /** Some id occurs twice. */
  ghost predicate Repeats(es: seq<Record>, id: string) {
    exists i, j :: 0 <= i < j < |es| && es[i].id == id && es[j].id == id
  }

  /** What `validate` is to name: ids that occur twice in a collection, and references that do not resolve. */
  ghost predicate IsProblem(cat: Catalog, e: Problem) {
    match e
    case DuplicateId(ProjectPart, id) => Repeats(cat.projects, id)
    case DuplicateId(ModulePart, id) => Repeats(cat.modules, id)
    case DuplicateId(ChipPart, id) => Repeats(cat.chips, id)
    case MissingModule(project, ref) =>
      exists p :: p in cat.projects && p.id == project && ref in ModuleRefs(p) && ref !in Ids(cat.modules)
    case MissingChip(owner, ref) =>
      exists m :: m in cat.modules && m.id == owner && ref in ListOf(m, Chips) && ref !in Ids(cat.chips)
  }

  lemma RepeatsSnoc(es: seq<Record>, e: Record, id: string)
    ensures Repeats(es + [e], id) <==> Repeats(es, id) || (id == e.id && exists j :: 0 <= j < |es| && es[j].id == id)
  {
    var all := es + [e];
    if Repeats(all, id) {
      var i, j :| 0 <= i < j < |all| && all[i].id == id && all[j].id == id;
      assert all[i] == es[i];
    }
    if Repeats(es, id) {
      var i, j :| 0 <= i < j < |es| && es[i].id == id && es[j].id == id;
      assert all[i].id == id && all[j].id == id;
    }
    if id == e.id && exists j :: 0 <= j < |es| && es[j].id == id {
      var j :| 0 <= j < |es| && es[j].id == id;
      assert all[j].id == id && all[|es|].id == id;
    }
  }

  method CheckUnique(es: seq<Record>, part: Part) returns (errs: seq<Problem>)
    ensures forall e :: e in errs <==> e.DuplicateId? && e.part == part && Repeats(es, e.id)
  {
    errs := [];
    var seen: set<string> := {};
    for i := 0 to |es|
      invariant forall x :: x in seen <==> exists j :: 0 <= j < i && es[j].id == x
      invariant forall e :: e in errs <==> e.DuplicateId? && e.part == part && Repeats(es[..i], e.id)
    {
      assert es[..i + 1] == es[..i] + [es[i]];
      ghost var errs0, seen0 := errs, seen;
      if es[i].id in seen {
        errs := errs + [DuplicateId(part, es[i].id)];
      }
      forall e: Problem | e.DuplicateId?
        ensures Repeats(es[..i + 1], e.id) <==> Repeats(es[..i], e.id) || (e.id == es[i].id && es[i].id in seen0)
      {
        RepeatsSnoc(es[..i], es[i], e.id);
        SeenBefore(es, i, seen0, e.id);
      }
      seen := seen + {es[i].id};
    }
    assert es[..|es|] == es;
  }

  lemma SeenBefore(es: seq<Record>, i: nat, seen: set<string>, id: string)
    requires i <= |es| && forall x :: x in seen <==> exists j :: 0 <= j < i && es[j].id == x
    ensures id in seen <==> exists j :: 0 <= j < |es[..i]| && es[..i][j].id == id
  {
    if id in seen {
      var j :| 0 <= j < i && es[j].id == id;
      assert es[..i][j].id == id;
    }
  }

  /** Every reference of one list that does not resolve, in order. */
  function Unresolved(refs: seq<string>, ids: set<string>): seq<string> {
    if refs == [] then [] else (if refs[0] in ids then [] else [refs[0]]) + Unresolved(refs[1..], ids)
  }

  lemma {:induction false} UnresolvedMember(refs: seq<string>, ids: set<string>, r: string)
    ensures r in Unresolved(refs, ids) <==> r in refs && r !in ids
  {
    if refs != [] {
      UnresolvedMember(refs[1..], ids, r);
      assert refs == [refs[0]] + refs[1..];
    }
  }

  method CheckRefs(refs: seq<string>, ids: set<string>) returns (bad: seq<string>)
    ensures bad == Unresolved(refs, ids)
  {
    bad := [];
    for i := 0 to |refs|
      invariant bad + Unresolved(refs[i..], ids) == Unresolved(refs, ids)
    {
      assert refs[i..][1..] == refs[i + 1..];
      if refs[i] !in ids {
        bad := bad + [refs[i]];
      }
    }
  }

  method CheckModuleRefs(ps: seq<Record>, ids: set<string>) returns (errs: seq<Problem>)
    ensures forall e :: e in errs <==> e.MissingModule? &&
                                       exists p :: p in ps && p.id == e.project && e.ref in ModuleRefs(p) && e.ref !in ids
  {
    errs := [];
    for i := 0 to |ps|
      invariant forall e :: e in errs <==> e.MissingModule? &&
                                           exists p :: p in ps[..i] && p.id == e.project && e.ref in ModuleRefs(p) && e.ref !in ids
    {
      assert forall p :: p in ps[..i + 1] <==> p in ps[..i] || p == ps[i];
      var bad := CheckRefs(ModuleRefs(ps[i]), ids);
      var more := seq(|bad|, j requires 0 <= j < |bad| => MissingModule(ps[i].id, bad[j]));
      forall e: Problem
        ensures e in more <==> e.MissingModule? && e.project == ps[i].id && e.ref in ModuleRefs(ps[i]) && e.ref !in ids
      {
        if e.MissingModule? {
          UnresolvedMember(ModuleRefs(ps[i]), ids, e.ref);
          if e.project == ps[i].id && e.ref in bad {
            var j :| 0 <= j < |bad| && bad[j] == e.ref;
            assert more[j] == e;
          }
        }
      }
      errs := errs + more;
    }
    assert ps[..|ps|] == ps;
  }

  method CheckChipRefs(ms: seq<Record>, ids: set<string>) returns (errs: seq<Problem>)
    ensures forall e :: e in errs <==> e.MissingChip? &&
                                       exists m :: m in ms && m.id == e.owner && e.ref in ListOf(m, Chips) && e.ref !in ids
  {
    errs := [];
    for i := 0 to |ms|
      invariant forall e :: e in errs <==> e.MissingChip? &&
                                           exists m :: m in ms[..i] && m.id == e.owner && e.ref in ListOf(m, Chips) && e.ref !in ids
    {
      assert forall m :: m in ms[..i + 1] <==> m in ms[..i] || m == ms[i];
      var bad := CheckRefs(ListOf(ms[i], Chips), ids);
      var more := seq(|bad|, j requires 0 <= j < |bad| => MissingChip(ms[i].id, bad[j]));
      forall e: Problem
        ensures e in more <==> e.MissingChip? && e.owner == ms[i].id && e.ref in ListOf(ms[i], Chips) && e.ref !in ids
      {
        if e.MissingChip? {
          UnresolvedMember(ListOf(ms[i], Chips), ids, e.ref);
          if e.owner == ms[i].id && e.ref in bad {
            var j :| 0 <= j < |bad| && bad[j] == e.ref;
            assert more[j] == e;
          }
        }
      }
      errs := errs + more;
    }
    assert ms[..|ms|] == ms;
  }

  /** A catalog is valid exactly when there is nothing to name. */
  lemma ValidMeansNoProblem(cat: Catalog)
    ensures ValidCatalog(cat) <==> forall e :: !IsProblem(cat, e)
  {
    if !ValidCatalog(cat) {
      var e := SomeProblem(cat);
    }
    if ValidCatalog(cat) {
      forall e
        ensures !IsProblem(cat, e)
      {
      }
    }
  }

  lemma NotUnique(es: seq<Record>) returns (id: string)
    requires !UniqueIds(es)
    ensures Repeats(es, id)
  {
    var i, j :| 0 <= i < j < |es| && es[i].id == es[j].id;
    id := es[i].id;
  }

  lemma SomeProblem(cat: Catalog) returns (e: Problem)
    requires !ValidCatalog(cat)
    ensures IsProblem(cat, e)
  {
    if !UniqueIds(cat.projects) {
      var id := NotUnique(cat.projects);
      e := DuplicateId(ProjectPart, id);
    } else if !UniqueIds(cat.modules) {
      var id := NotUnique(cat.modules);
      e := DuplicateId(ModulePart, id);
    } else if !UniqueIds(cat.chips) {
      var id := NotUnique(cat.chips);
      e := DuplicateId(ChipPart, id);
    } else if !ModulesResolve(cat.projects, Ids(cat.modules)) {
      var p, r :| p in cat.projects && r in ModuleRefs(p) && r !in Ids(cat.modules);
      e := MissingModule(p.id, r);
    } else {
      var m, r :| m in cat.modules && r in ListOf(m, Chips) && r !in Ids(cat.chips);
      e := MissingChip(m.id, r);
    }
  }

  /** `validate` names every repeated id and every unresolved reference, and nothing else; it reports nothing
      exactly on valid catalogs. */
  method Validate(cat: Catalog) returns (errs: seq<Problem>)
    ensures forall e :: e in errs <==> IsProblem(cat, e)
    ensures errs == [] <==> ValidCatalog(cat)
  {
    var a := CheckUnique(cat.projects, ProjectPart);
    var b := CheckUnique(cat.modules, ModulePart);
    var c := CheckUnique(cat.chips, ChipPart);
    var d := CheckModuleRefs(cat.projects, Ids(cat.modules));
    var e := CheckChipRefs(cat.modules, Ids(cat.chips));
    errs := a + b + c + d + e;
    ValidMeansNoProblem(cat);
    assert errs != [] ==> errs[0] in errs;
  }
}
