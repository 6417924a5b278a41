/** Folding one catalog entry into another, and what a whole sequence of folds amounts to. */
module CatalogMerge {
  import opened Basics

  /** JSON values by how they count as empty. */
  datatype Value = Null | Text(s: string) | EmptyList | EmptyObject | Other(json: string)

  datatype ScalarField = Name | Vendor | Manufacturer | Kind | Role | Summary | Datasheet | MouserQuery | Photo

  datatype ListField = GoodFor | NotFor | Notes | SeenIn | Pins | Tags | Chips | Cogs

  /** An offer: the two fields that identify it and the rest. */
  datatype Offer = Offer(vendor: Option<string>, url: Option<string>, rest: string)

  type OfferKey = (Option<string>, Option<string>)

  /** A catalog entry. Fields that may be missing are maps or options; `modules` is a project's list of
      module references, a module's chip references are its `Chips` list, and `rest` is everything a
      merge does not look at. */
  datatype Record = Record(
    id: string,
    scalars: map<ScalarField, Value>,
    spec: Option<map<string, Value>>,
    buy: Option<seq<Offer>>,
    lists: map<ListField, seq<string>>,
    modules: Option<seq<string>>,
    rest: string)

  predicate IsEmpty(v: Value) {
    v == Null || v == Text("") || v == EmptyList || v == EmptyObject
  }

  /** `canon.get(f)`. */
  function Scalar(r: Record, f: ScalarField): Value {
    if f in r.scalars then r.scalars[f] else Null
  }

  function ListOf(r: Record, f: ListField): seq<string> {
    if f in r.lists then r.lists[f] else []
  }

  function Offers(r: Record): seq<Offer> {
    if r.buy.Some? then r.buy.value else []
  }

  function SpecOf(r: Record): map<string, Value> {
    if r.spec.Some? then r.spec.value else map[]
  }

  function OfferKeyOf(b: Offer): OfferKey {
    (b.vendor, b.url)
  }

  // ---------------------------------------------------------------------------------------------
  // Unions
  // ---------------------------------------------------------------------------------------------

  /** Appends, one by one, the elements whose key is not there yet. */
  function UnionBy<T, K(==)>(key: T -> K, canon: seq<T>, other: seq<T>): seq<T>
    decreases |other|
  {
    if other == [] then canon
    else UnionBy(key, if HasKey(key, canon, key(other[0])) then canon else canon + [other[0]], other[1..])
  }

  predicate HasKey<T, K(==)>(key: T -> K, s: seq<T>, k: K) {
    exists i :: 0 <= i < |s| && key(s[i]) == k
  }

  /** The reference: the elements of `other` whose key neither `canon` nor an earlier element has. */
  function NewBy<T, K(==)>(key: T -> K, canon: seq<T>, other: seq<T>): seq<T>
    decreases |other|
  {
    if other == [] then []
    else
      var n := |other| - 1;
      NewBy(key, canon, other[..n])
      + if HasKey(key, canon, key(other[n])) || HasKey(key, other[..n], key(other[n])) then [] else [other[n]]
  }

  lemma {:induction false} UnionConcat<T, K>(key: T -> K, canon: seq<T>, a: seq<T>, b: seq<T>)
    ensures UnionBy(key, UnionBy(key, canon, a), b) == UnionBy(key, canon, a + b)
    decreases |a|
  {
    if a == [] {
      assert a + b == b;
    } else {
      assert (a + b)[1..] == a[1..] + b;
      UnionConcat(key, if HasKey(key, canon, key(a[0])) then canon else canon + [a[0]], a[1..], b);
    }
  }

  lemma UnionOne<T, K>(key: T -> K, canon: seq<T>, x: T)
    ensures UnionBy(key, canon, [x]) == if HasKey(key, canon, key(x)) then canon else canon + [x]
  {
  }

  lemma HasKeyConcat<T, K>(key: T -> K, a: seq<T>, b: seq<T>, k: K)
    ensures HasKey(key, a + b, k) <==> HasKey(key, a, k) || HasKey(key, b, k)
  {
    var s := a + b;
    if HasKey(key, a, k) {
      var i :| 0 <= i < |a| && key(a[i]) == k;
      assert key(s[i]) == k;
    }
    if HasKey(key, b, k) {
      var i :| 0 <= i < |b| && key(b[i]) == k;
      assert key(s[|a| + i]) == k;
    }
    if HasKey(key, s, k) {
      var i :| 0 <= i < |s| && key(s[i]) == k;
      assert if i < |a| then key(a[i]) == k else key(b[i - |a|]) == k;
    }
  }

  lemma HasKeyOne<T, K>(key: T -> K, x: T, k: K)
    ensures HasKey(key, [x], k) <==> key(x) == k
  {
    assert key([x][0]) == key(x);
  }

  /** An order-preserving union: the canonical list unchanged, then each new key's first element in
      order; no key of either side is lost. */
  lemma {:induction false} UnionIsOrdered<T, K>(key: T -> K, canon: seq<T>, other: seq<T>)
    ensures UnionBy(key, canon, other) == canon + NewBy(key, canon, other)
    ensures forall k :: HasKey(key, UnionBy(key, canon, other), k) <==> HasKey(key, canon, k) || HasKey(key, other, k)
    decreases |other|
  {
    if other == [] {
      assert canon + NewBy(key, canon, other) == canon;
    } else {
      var n := |other| - 1;
      var most, x := other[..n], other[n];
      var before := UnionBy(key, canon, most);
      UnionIsOrdered(key, canon, most);
      assert other == most + [x];
      UnionConcat(key, canon, most, [x]);
      UnionOne(key, before, x);
      assert HasKey(key, before, key(x)) <==> HasKey(key, canon, key(x)) || HasKey(key, most, key(x));
      assert canon + NewBy(key, canon, most) + [x] == canon + (NewBy(key, canon, most) + [x]);
      forall k
        ensures HasKey(key, UnionBy(key, canon, other), k) <==> HasKey(key, canon, k) || HasKey(key, other, k)
      {
        HasKeyConcat(key, most, [x], k);
        HasKeyConcat(key, before, [x], k);
        HasKeyOne(key, x, k);
      }
    }
  }

  /** The first place where a key occurs, or the length when it does not. */
  function FirstAt<T, K(==)>(key: T -> K, s: seq<T>, k: K): (i: nat)
    ensures i <= |s| && (i < |s| ==> key(s[i]) == k)
    ensures forall j :: 0 <= j < i ==> key(s[j]) != k
  {
    if s == [] then 0
    else
      var n := |s| - 1;
      var i := FirstAt(key, s[..n], k);
      if i < n then i else if key(s[n]) == k then n else n + 1
  }

  /** `r` is `canon` and then elements of `other`, each the first with its key, none with a key that stands
      before it, in the order in which their keys first occur. */
  ghost predicate AppendsFirsts<T(!new), K(!new)>(key: T -> K, canon: seq<T>, other: seq<T>, r: seq<T>) {
    && canon <= r
    && (forall p :: |canon| <= p < |r| ==> !HasKey(key, r[..p], key(r[p])))
    && (forall p :: |canon| <= p < |r| ==> FirstAt(key, other, key(r[p])) < |other| && r[p] == other[FirstAt(key, other, key(r[p]))])
    && (forall p, q :: |canon| <= p < q < |r| ==> FirstAt(key, other, key(r[p])) < FirstAt(key, other, key(r[q])))
  }

  lemma FirstAtPrefix<T, K>(key: T -> K, most: seq<T>, x: T, k: K)
    ensures FirstAt(key, most + [x], k) ==
            if HasKey(key, most, k) then FirstAt(key, most, k) else if key(x) == k then |most| else |most| + 1
  {
    assert (most + [x])[..|most|] == most;
    if HasKey(key, most, k) {
      var i :| 0 <= i < |most| && key(most[i]) == k;
    }
  }

  /** A union repeats no key, takes the first element of each new key, and keeps the order of their first
      occurrence. */
  lemma {:induction false} UnionAppendsFirsts<T(!new), K(!new)>(key: T -> K, canon: seq<T>, other: seq<T>)
    ensures AppendsFirsts(key, canon, other, UnionBy(key, canon, other))
    decreases |other|
  {
    if other != [] {
      var n := |other| - 1;
      var most, x := other[..n], other[n];
      var before := UnionBy(key, canon, most);
      assert other == most + [x];
      UnionAppendsFirsts(key, canon, most);
      UnionConcat(key, canon, most, [x]);
      UnionOne(key, before, x);
      UnionIsOrdered(key, canon, most);
      StillFirsts(key, canon, most, x, before);
      if !HasKey(key, before, key(x)) {
        OneMoreFirst(key, canon, most, x, before);
      }
    }
  }

  lemma StillFirsts<T(!new), K(!new)>(key: T -> K, canon: seq<T>, most: seq<T>, x: T, r: seq<T>)
    requires AppendsFirsts(key, canon, most, r)
    ensures AppendsFirsts(key, canon, most + [x], r)
  {
    forall p | |canon| <= p < |r|
      ensures FirstAt(key, most + [x], key(r[p])) == FirstAt(key, most, key(r[p]))
    {
      assert key(most[FirstAt(key, most, key(r[p]))]) == key(r[p]);
      FirstAtPrefix(key, most, x, key(r[p]));
    }
  }

  lemma OneMoreFirst<T(!new), K(!new)>(key: T -> K, canon: seq<T>, most: seq<T>, x: T, r: seq<T>)
    requires AppendsFirsts(key, canon, most, r) && AppendsFirsts(key, canon, most + [x], r)
    requires !HasKey(key, r, key(x)) && !HasKey(key, most, key(x))
    ensures AppendsFirsts(key, canon, most + [x], r + [x])
  {
    var s, other := r + [x], most + [x];
    FirstAtPrefix(key, most, x, key(x));
    forall p | |canon| <= p < |s|
      ensures !HasKey(key, s[..p], key(s[p]))
      ensures FirstAt(key, other, key(s[p])) < |other| && s[p] == other[FirstAt(key, other, key(s[p]))]
      ensures p < |r| ==> FirstAt(key, other, key(s[p])) < |most|
    {
      assert s[..p] == r[..p];
      if p < |r| {
        assert s[p] == r[p];
        assert key(most[FirstAt(key, most, key(r[p]))]) == key(r[p]);
        FirstAtPrefix(key, most, x, key(r[p]));
      } else {
        assert r[..p] == r;
      }
    }
    forall p, q | |canon| <= p < q < |s|
      ensures FirstAt(key, other, key(s[p])) < FirstAt(key, other, key(s[q]))
    {
      if q < |r| {
        assert s[p] == r[p] && s[q] == r[q];
      }
    }
  }

  // ---------------------------------------------------------------------------------------------
  // Merging one entry
  // ---------------------------------------------------------------------------------------------

  function Self(x: string): string {
    x
  }

  /** The canonical entry takes the other's value where its own is missing or empty. */
  predicate Adopts(c: Record, o: Record, f: ScalarField) {
    f in o.scalars && !IsEmpty(o.scalars[f]) && IsEmpty(Scalar(c, f))
  }

  function AdoptedScalars(c: Record, o: Record): map<ScalarField, Value> {
    map f | f in o.scalars && Adopts(c, o, f) :: o.scalars[f]
  }

  function UnitedLists(c: Record, o: Record): map<ListField, seq<string>> {
    map f | f in o.lists :: UnionBy(Self, ListOf(c, f), o.lists[f])
  }

  /** Keys of both; the canonical entry wins. */
  function MergedSpec(c: Record, o: Record): Option<map<string, Value>> {
    if o.spec.Some? then Some(o.spec.value + SpecOf(c)) else c.spec
  }

  function MergedOffers(c: Record, o: Record): Option<seq<Offer>> {
    if o.buy.Some? then Some(UnionBy(OfferKeyOf, Offers(c), o.buy.value)) else c.buy
  }

  /** `merge_into`: what the canonical entry becomes. */
  function Merge(c: Record, o: Record): Record {
    c.(scalars := c.scalars + AdoptedScalars(c, o), spec := MergedSpec(c, o), buy := MergedOffers(c, o),
       lists := c.lists + UnitedLists(c, o))
  }

  /** Folding several duplicates in, one after the other. */
  function MergeAll(c: Record, ds: seq<Record>): Record
    decreases |ds|
  {
    if ds == [] then c else MergeAll(Merge(c, ds[0]), ds[1..])
  }

  // ---------------------------------------------------------------------------------------------
  // Merging merged entries
  // ---------------------------------------------------------------------------------------------

  /** What a union leaves out of its second list would not be taken from it either. */
  lemma {:induction false} UnionSkips<T, K>(key: T -> K, a: seq<T>, b: seq<T>, c: seq<T>)
    ensures UnionBy(key, a, b + NewBy(key, b, c)) == UnionBy(key, a, b + c)
    decreases |c|
  {
    if c == [] {
      assert b + NewBy(key, b, c) == b + c;
    } else {
      var n := |c| - 1;
      var most, x := c[..n], c[n];
      UnionSkips(key, a, b, most);
      assert c == most + [x];
      Regroup(b, most, [x]);
      Regroup(b, NewBy(key, b, most), [x]);
      UnionConcat(key, a, b + most, [x]);
      UnionConcat(key, a, b + NewBy(key, b, most), [x]);
      UnionOne(key, UnionBy(key, a, b + most), x);
      UnionIsOrdered(key, a, b + most);
      HasKeyConcat(key, b, most, key(x));
      var kept, all := NewBy(key, b, most), UnionBy(key, a, b + most);
      if HasKey(key, b, key(x)) || HasKey(key, most, key(x)) {
        assert NewBy(key, b, c) == kept + [] == kept;
        assert UnionBy(key, all, [x]) == all;
      } else {
        assert NewBy(key, b, c) == kept + [x];
      }
    }
  }

  lemma UnionAssociative<T, K>(key: T -> K, a: seq<T>, b: seq<T>, c: seq<T>)
    ensures UnionBy(key, a, UnionBy(key, b, c)) == UnionBy(key, UnionBy(key, a, b), c)
  {
    UnionIsOrdered(key, b, c);
    UnionSkips(key, a, b, c);
    UnionConcat(key, a, b, c);
  }

  lemma ScalarsAssociative(a: Record, b: Record, c: Record)
    ensures Merge(a, Merge(b, c)).scalars == Merge(Merge(a, b), c).scalars
  {
    var l, r := Merge(a, Merge(b, c)), Merge(Merge(a, b), c);
    forall f: ScalarField
      ensures f in l.scalars <==> f in r.scalars
      ensures Scalar(l, f) == Scalar(r, f)
    {
      ScalarAssociative(a, b, c, f);
    }
    SameScalars(l, r);
  }

  lemma ScalarAssociative(a: Record, b: Record, c: Record, f: ScalarField)
    ensures var l, r := Merge(a, Merge(b, c)), Merge(Merge(a, b), c);
            (f in l.scalars <==> f in r.scalars) && Scalar(l, f) == Scalar(r, f)
  {
    ScalarStep(b, c, f);
    ScalarStep(a, b, f);
    ScalarStep(a, Merge(b, c), f);
    ScalarStep(Merge(a, b), c, f);
  }

  lemma SameScalars(l: Record, r: Record)
    requires forall f: ScalarField :: (f in l.scalars <==> f in r.scalars) && Scalar(l, f) == Scalar(r, f)
    ensures l.scalars == r.scalars
  {
    assert forall f: ScalarField :: f in l.scalars ==> l.scalars[f] == Scalar(l, f) && r.scalars[f] == Scalar(r, f);
  }

  lemma ListsAssociative(a: Record, b: Record, c: Record)
    ensures Merge(a, Merge(b, c)).lists == Merge(Merge(a, b), c).lists
  {
    var l, r := Merge(a, Merge(b, c)), Merge(Merge(a, b), c);
    forall f: ListField
      ensures f in l.lists <==> f in r.lists
      ensures ListOf(l, f) == ListOf(r, f)
    {
      ListAssociative(a, b, c, f);
    }
    SameLists(l, r);
  }

  lemma ListAssociative(a: Record, b: Record, c: Record, f: ListField)
    ensures var l, r := Merge(a, Merge(b, c)), Merge(Merge(a, b), c);
            (f in l.lists <==> f in r.lists) && ListOf(l, f) == ListOf(r, f)
  {
    ListStep(b, c, f);
    ListStep(a, b, f);
    ListStep(a, Merge(b, c), f);
    ListStep(Merge(a, b), c, f);
    UnionAssociative(Self, ListOf(a, f), ListOf(b, f), ListOf(c, f));
  }

  lemma SameLists(l: Record, r: Record)
    requires forall f: ListField :: (f in l.lists <==> f in r.lists) && ListOf(l, f) == ListOf(r, f)
    ensures l.lists == r.lists
  {
    assert forall f: ListField :: f in l.lists ==> l.lists[f] == ListOf(l, f) && r.lists[f] == ListOf(r, f);
  }

  lemma ListStep(c: Record, d: Record, f: ListField)
    ensures f in Merge(c, d).lists <==> f in c.lists || f in d.lists
    ensures ListOf(Merge(c, d), f) == UnionBy(Self, ListOf(c, f), ListOf(d, f))
  {
  }

  lemma OffersAssociative(a: Record, b: Record, c: Record)
    ensures Merge(a, Merge(b, c)).buy == Merge(Merge(a, b), c).buy
  {
    UnionAssociative(OfferKeyOf, Offers(a), Offers(b), Offers(c));
  }

  /** Folding a merged entry is folding its parts one after the other. */
  lemma MergeAssociative(a: Record, b: Record, c: Record)
    ensures Merge(a, Merge(b, c)) == Merge(Merge(a, b), c)
  {
    ScalarsAssociative(a, b, c);
    ListsAssociative(a, b, c);
    OffersAssociative(a, b, c);
    SpecAssociative(a, b, c);
  }

  lemma OverridesAssociative<K, V>(x: map<K, V>, y: map<K, V>, z: map<K, V>)
    ensures x + y + z == x + (y + z)
  {
  }

  lemma NothingToOverride<K, V>(x: map<K, V>)
    ensures x + map[] == x && map[] + x == x
  {
  }

  lemma SpecAssociative(a: Record, b: Record, c: Record)
    ensures Merge(a, Merge(b, c)).spec == Merge(Merge(a, b), c).spec
  {
    if c.spec.Some? && b.spec.Some? {
      OverridesAssociative(c.spec.value, b.spec.value, SpecOf(a));
    } else if c.spec.Some? {
      NothingToOverride(c.spec.value);
    }
  }

  lemma {:induction false} MergeAllSnoc(c: Record, ds: seq<Record>, d: Record)
    ensures MergeAll(c, ds + [d]) == Merge(MergeAll(c, ds), d)
    decreases |ds|
  {
    if ds == [] {
      assert ds + [d] == [d] && [d][1..] == [];
    } else {
      assert (ds + [d])[1..] == ds[1..] + [d];
      MergeAllSnoc(Merge(c, ds[0]), ds[1..], d);
    }
  }

  /** Folding in an entry that has absorbed others is folding in that entry and then the others. */
  lemma {:induction false} MergeGroup(c: Record, ds: seq<Record>, d: Record, es: seq<Record>)
    ensures MergeAll(c, ds + ([d] + es)) == Merge(MergeAll(c, ds), MergeAll(d, es))
    decreases |es|
  {
    if es == [] {
      assert ds + ([d] + es) == ds + [d];
      MergeAllSnoc(c, ds, d);
    } else {
      var n := |es| - 1;
      var most, e := es[..n], es[n];
      assert es == most + [e];
      assert ds + ([d] + es) == ds + ([d] + most) + [e];
      MergeGroup(c, ds, d, most);
      MergeAllSnoc(c, ds + ([d] + most), e);
      MergeAllSnoc(d, most, e);
      MergeAssociative(MergeAll(c, ds), MergeAll(d, most), e);
    }
  }

  // ---------------------------------------------------------------------------------------------
  // The same in one go
  // ---------------------------------------------------------------------------------------------

  /** The first non-empty value of a field. */
  function FirstFull(ds: seq<Record>, f: ScalarField): Option<Value> {
    if ds == [] then None
    else if !IsEmpty(Scalar(ds[0], f)) then Some(Scalar(ds[0], f))
    else FirstFull(ds[1..], f)
  }

  function SpecValue(r: Record, k: string): Option<Value> {
    if k in SpecOf(r) then Some(SpecOf(r)[k]) else None
  }

  /** The first value of a spec key. */
  function FirstSpec(ds: seq<Record>, k: string): Option<Value> {
    if ds == [] then None
    else if SpecValue(ds[0], k).Some? then SpecValue(ds[0], k)
    else FirstSpec(ds[1..], k)
  }

  function AllOffers(ds: seq<Record>): seq<Offer> {
    if ds == [] then [] else Offers(ds[0]) + AllOffers(ds[1..])
  }

  function AllItems(ds: seq<Record>, f: ListField): seq<string> {
    if ds == [] then [] else ListOf(ds[0], f) + AllItems(ds[1..], f)
  }

  predicate AnySpec(ds: seq<Record>) {
    exists i :: 0 <= i < |ds| && ds[i].spec.Some?
  }

  predicate AnyOffers(ds: seq<Record>) {
    exists i :: 0 <= i < |ds| && ds[i].buy.Some?
  }

  predicate AnyList(ds: seq<Record>, f: ListField) {
    exists i :: 0 <= i < |ds| && f in ds[i].lists
  }

  /** Own scalar where it is not empty, else the first non-empty one of the duplicates. */
  ghost predicate PriorityScalars(c: Record, ds: seq<Record>, r: Record) {
    forall f :: && (f in r.scalars <==> f in c.scalars || FirstFull(ds, f).Some?)
                && Scalar(r, f) == if IsEmpty(Scalar(c, f)) && FirstFull(ds, f).Some?
                                   then FirstFull(ds, f).value else Scalar(c, f)
  }

  /** Per spec key, the first value. */
  ghost predicate PrioritySpec(c: Record, ds: seq<Record>, r: Record) {
    && (r.spec.Some? <==> c.spec.Some? || AnySpec(ds))
    && forall k :: SpecValue(r, k) == FirstSpec([c] + ds, k)
  }

  /** Offers united in order, one per vendor and address. */
  ghost predicate PriorityOffers(c: Record, ds: seq<Record>, r: Record) {
    && (r.buy.Some? <==> c.buy.Some? || AnyOffers(ds))
    && Offers(r) == UnionBy(OfferKeyOf, Offers(c), AllOffers(ds))
  }

  /** List items united in order. */
  ghost predicate PriorityLists(c: Record, ds: seq<Record>, r: Record) {
    forall f :: && (f in r.lists <==> f in c.lists || AnyList(ds, f))
                && ListOf(r, f) == UnionBy(Self, ListOf(c, f), AllItems(ds, f))
  }

  /** `r` is the priority merge of `c` and then `ds`. */
  ghost predicate PriorityMerge(c: Record, ds: seq<Record>, r: Record) {
    && r.id == c.id && r.modules == c.modules && r.rest == c.rest
    && PriorityScalars(c, ds, r) && PrioritySpec(c, ds, r) && PriorityOffers(c, ds, r) && PriorityLists(c, ds, r)
  }

  lemma ScalarStep(c: Record, d: Record, f: ScalarField)
    ensures f in Merge(c, d).scalars <==> f in c.scalars || !IsEmpty(Scalar(d, f))
    ensures Scalar(Merge(c, d), f) == if IsEmpty(Scalar(c, f)) && !IsEmpty(Scalar(d, f)) then Scalar(d, f) else Scalar(c, f)
  {
  }

  /** Null, the empty text, the empty list and the empty object give way to any other value of the
      duplicate; every other value stays. */
  lemma EmptyGivesWay(c: Record, d: Record, f: ScalarField)
    ensures var own, others := Scalar(c, f), Scalar(d, f);
            var empty := {Null, Text(""), EmptyList, EmptyObject};
            Scalar(Merge(c, d), f) == if own in empty && others !in empty then others else own
  {
    ScalarStep(c, d, f);
  }

  lemma ScalarsStep(c: Record, ds: seq<Record>, r: Record)
    requires ds != [] && PriorityScalars(Merge(c, ds[0]), ds[1..], r)
    ensures PriorityScalars(c, ds, r)
  {
    forall f
      ensures && (f in r.scalars <==> f in c.scalars || FirstFull(ds, f).Some?)
              && Scalar(r, f) == if IsEmpty(Scalar(c, f)) && FirstFull(ds, f).Some?
                                 then FirstFull(ds, f).value else Scalar(c, f)
    {
      ScalarStep(c, ds[0], f);
    }
  }

  lemma SpecFirstOf(c: Record, ds: seq<Record>, k: string)
    ensures FirstSpec([c] + ds, k) == if SpecValue(c, k).Some? then SpecValue(c, k) else FirstSpec(ds, k)
  {
    assert ([c] + ds)[1..] == ds;
  }

  lemma SpecStep(c: Record, ds: seq<Record>, r: Record)
    requires ds != [] && PrioritySpec(Merge(c, ds[0]), ds[1..], r)
    ensures PrioritySpec(c, ds, r)
  {
    var d, m := ds[0], Merge(c, ds[0]);
    assert AnySpec(ds) <==> d.spec.Some? || AnySpec(ds[1..]) by {
      if AnySpec(ds[1..]) {
        var i :| 0 <= i < |ds[1..]| && ds[1..][i].spec.Some?;
        assert ds[i + 1].spec.Some?;
      }
      if AnySpec(ds) && d.spec.None? {
        var i :| 0 <= i < |ds| && ds[i].spec.Some?;
        assert ds[1..][i - 1].spec.Some?;
      }
    }
    forall k
      ensures SpecValue(r, k) == FirstSpec([c] + ds, k)
    {
      SpecFirstOf(m, ds[1..], k);
      SpecFirstOf(c, ds, k);
    }
  }

  lemma OffersStep(c: Record, ds: seq<Record>, r: Record)
    requires ds != [] && PriorityOffers(Merge(c, ds[0]), ds[1..], r)
    ensures PriorityOffers(c, ds, r)
  {
    var d := ds[0];
    assert AnyOffers(ds) <==> d.buy.Some? || AnyOffers(ds[1..]) by {
      if AnyOffers(ds[1..]) {
        var i :| 0 <= i < |ds[1..]| && ds[1..][i].buy.Some?;
        assert ds[i + 1].buy.Some?;
      }
      if AnyOffers(ds) && d.buy.None? {
        var i :| 0 <= i < |ds| && ds[i].buy.Some?;
        assert ds[1..][i - 1].buy.Some?;
      }
    }
    UnionConcat(OfferKeyOf, Offers(c), Offers(d), AllOffers(ds[1..]));
  }

  lemma ListsStep(c: Record, ds: seq<Record>, r: Record)
    requires ds != [] && PriorityLists(Merge(c, ds[0]), ds[1..], r)
    ensures PriorityLists(c, ds, r)
  {
    var d := ds[0];
    forall f
      ensures && (f in r.lists <==> f in c.lists || AnyList(ds, f))
              && ListOf(r, f) == UnionBy(Self, ListOf(c, f), AllItems(ds, f))
    {
      AnyListStep(ds, f);
      UnionConcat(Self, ListOf(c, f), ListOf(d, f), AllItems(ds[1..], f));
      assert ListOf(Merge(c, d), f) == UnionBy(Self, ListOf(c, f), ListOf(d, f));
    }
  }

  lemma AnyListStep(ds: seq<Record>, f: ListField)
    requires ds != []
    ensures AnyList(ds, f) <==> f in ds[0].lists || AnyList(ds[1..], f)
  {
    if AnyList(ds[1..], f) {
      var i :| 0 <= i < |ds[1..]| && f in ds[1..][i].lists;
      assert f in ds[i + 1].lists;
    }
    if AnyList(ds, f) && f !in ds[0].lists {
      var i :| 0 <= i < |ds| && f in ds[i].lists;
      assert f in ds[1..][i - 1].lists;
    }
  }

  /** A sequence of pairwise merges is one priority merge. */
  lemma {:induction false} MergesArePriority(c: Record, ds: seq<Record>)
    ensures PriorityMerge(c, ds, MergeAll(c, ds))
    decreases |ds|
  {
    if ds == [] {
      forall k
        ensures SpecValue(c, k) == FirstSpec([c] + ds, k)
      {
        SpecFirstOf(c, ds, k);
      }
    } else {
      var r := MergeAll(c, ds);
      MergesArePriority(Merge(c, ds[0]), ds[1..]);
      ScalarsStep(c, ds, r);
      SpecStep(c, ds, r);
      OffersStep(c, ds, r);
      ListsStep(c, ds, r);
    }
  }

  /** The priority merge leaves no choice. */
  lemma PriorityIsUnique(c: Record, ds: seq<Record>, r: Record, t: Record)
    requires PriorityMerge(c, ds, r) && PriorityMerge(c, ds, t)
    ensures r == t
  {
    assert r.scalars == t.scalars by {
      forall f
        ensures f in r.scalars <==> f in t.scalars
        ensures f in r.scalars ==> r.scalars[f] == t.scalars[f]
      {
        assert Scalar(r, f) == Scalar(t, f);
      }
    }
    assert SpecOf(r) == SpecOf(t) by {
      forall k
        ensures k in SpecOf(r) <==> k in SpecOf(t)
        ensures k in SpecOf(r) ==> SpecOf(r)[k] == SpecOf(t)[k]
      {
        assert SpecValue(r, k) == SpecValue(t, k);
      }
    }
    assert r.lists == t.lists by {
      forall f
        ensures f in r.lists <==> f in t.lists
        ensures f in r.lists ==> r.lists[f] == t.lists[f]
      {
        assert ListOf(r, f) == ListOf(t, f);
      }
    }
  }

  lemma SelfKey(s: seq<string>, x: string)
    ensures HasKey(Self, s, x) <==> x in s
  {
    if x in s {
      var i :| 0 <= i < |s| && s[i] == x;
      assert Self(s[i]) == x;
    }
  }

  /** List items: the canonical list comes first, unchanged, and no item of a duplicate is lost. */
  lemma NoItemLost(c: Record, ds: seq<Record>, i: nat, f: ListField)
    requires i < |ds|
    ensures ListOf(c, f) <= ListOf(MergeAll(c, ds), f)
    ensures forall x :: x in ListOf(ds[i], f) ==> x in ListOf(MergeAll(c, ds), f)
  {
    MergesArePriority(c, ds);
    var all := UnionBy(Self, ListOf(c, f), AllItems(ds, f));
    assert ListOf(MergeAll(c, ds), f) == all;
    UnionIsOrdered(Self, ListOf(c, f), AllItems(ds, f));
    forall x | x in ListOf(ds[i], f)
      ensures x in all
    {
      ItemThere(ds, i, f, x);
      SelfKey(all, x);
    }
  }

  /** Offers: the canonical ones come first, unchanged, and no offer key of a duplicate is lost. */
  lemma NoOfferLost(c: Record, ds: seq<Record>, i: nat)
    requires i < |ds|
    ensures Offers(c) <= Offers(MergeAll(c, ds))
    ensures forall b :: b in Offers(ds[i]) ==> HasKey(OfferKeyOf, Offers(MergeAll(c, ds)), OfferKeyOf(b))
    ensures forall b :: b in Offers(ds[i]) ==>
                          exists x :: x in Offers(MergeAll(c, ds)) && x.vendor == b.vendor && x.url == b.url
  {
    var all := UnionBy(OfferKeyOf, Offers(c), AllOffers(ds));
    assert Offers(MergeAll(c, ds)) == all by {
      MergesArePriority(c, ds);
    }
    UnionIsOrdered(OfferKeyOf, Offers(c), AllOffers(ds));
    forall b | b in Offers(ds[i])
      ensures HasKey(OfferKeyOf, all, OfferKeyOf(b))
    {
      OfferThere(ds, i, b);
    }
    forall b | b in Offers(ds[i])
      ensures exists x :: x in all && x.vendor == b.vendor && x.url == b.url
    {
      var j :| 0 <= j < |all| && OfferKeyOf(all[j]) == OfferKeyOf(b);
      assert all[j] in all;
    }
  }

  /** No offer that a merge adds has the vendor and address of one before it. */
  lemma OffersAreDistinct(c: Record, ds: seq<Record>, p: nat, q: nat)
    requires |Offers(c)| <= q < |Offers(MergeAll(c, ds))| && p < q
    ensures var all := Offers(MergeAll(c, ds));
            all[p].vendor != all[q].vendor || all[p].url != all[q].url
  {
    var all := UnionBy(OfferKeyOf, Offers(c), AllOffers(ds));
    assert Offers(MergeAll(c, ds)) == all by {
      MergesArePriority(c, ds);
    }
    UnionAppendsFirsts(OfferKeyOf, Offers(c), AllOffers(ds));
    assert !HasKey(OfferKeyOf, all[..q], OfferKeyOf(all[q]));
    assert all[..q][p] == all[p];
  }

  /** Spec: the canonical entry's values stay, and no key of a duplicate is lost. */
  lemma NoSpecLost(c: Record, ds: seq<Record>, i: nat, k: string)
    requires i < |ds|
    ensures SpecValue(c, k).Some? ==> SpecValue(MergeAll(c, ds), k) == SpecValue(c, k)
    ensures SpecValue(ds[i], k).Some? ==> SpecValue(MergeAll(c, ds), k).Some?
  {
    MergesArePriority(c, ds);
    SpecFirstOf(c, ds, k);
    SpecThere(ds, i, k);
  }

  lemma {:induction false} OfferThere(ds: seq<Record>, i: nat, b: Offer)
    requires i < |ds| && b in Offers(ds[i])
    ensures HasKey(OfferKeyOf, AllOffers(ds), OfferKeyOf(b))
    decreases i
  {
    HasKeyConcat(OfferKeyOf, Offers(ds[0]), AllOffers(ds[1..]), OfferKeyOf(b));
    if i > 0 {
      OfferThere(ds[1..], i - 1, b);
    } else {
      var j :| 0 <= j < |Offers(ds[0])| && Offers(ds[0])[j] == b;
      assert OfferKeyOf(Offers(ds[0])[j]) == OfferKeyOf(b);
    }
  }

  lemma {:induction false} ItemThere(ds: seq<Record>, i: nat, f: ListField, x: string)
    requires i < |ds| && x in ListOf(ds[i], f)
    ensures HasKey(Self, AllItems(ds, f), x)
    decreases i
  {
    HasKeyConcat(Self, ListOf(ds[0], f), AllItems(ds[1..], f), x);
    if i > 0 {
      ItemThere(ds[1..], i - 1, f, x);
    } else {
      var j :| 0 <= j < |ListOf(ds[0], f)| && ListOf(ds[0], f)[j] == x;
      assert Self(ListOf(ds[0], f)[j]) == x;
    }
  }

  lemma {:induction false} SpecThere(ds: seq<Record>, i: nat, k: string)
    requires i < |ds|
    ensures SpecValue(ds[i], k).Some? ==> FirstSpec(ds, k).Some?
    decreases i
  {
    if i > 0 {
      SpecThere(ds[1..], i - 1, k);
    }
  }
}
