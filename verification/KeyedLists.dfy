/** Keyed lists: a stable sort by a printed key, and the upsert by a finer key that the sort follows. */
module KeyedLists {
  import opened Basics

  /** Sort keys are tuples of strings, compared component by component. */
  type SortKey = seq<string>

  // ---------------------------------------------------------------------------------------------
  // The order of keys
  // ---------------------------------------------------------------------------------------------

  predicate KeyLess(a: SortKey, b: SortKey) {
    if b == [] then false
    else if a == [] then true
    else if a[0] != b[0] then LexLess(a[0], b[0])
    else KeyLess(a[1..], b[1..])
  }

  lemma {:induction false} KeyTotal(a: SortKey, b: SortKey)
    ensures a == b || KeyLess(a, b) || KeyLess(b, a)
    ensures !(KeyLess(a, b) && KeyLess(b, a)) && !KeyLess(a, a)
  {
    if a != [] && b != [] {
      LexTotal(a[0], b[0]);
      if a[0] == b[0] {
        KeyTotal(a[1..], b[1..]);
        assert a == [a[0]] + a[1..] && b == [b[0]] + b[1..];
      }
    }
    if a != [] {
      KeyIrreflexive(a);
    }
  }

  lemma {:induction false} KeyIrreflexive(a: SortKey)
    ensures !KeyLess(a, a)
  {
    if a != [] {
      KeyIrreflexive(a[1..]);
    }
  }

  lemma {:induction false} KeyTransitive(a: SortKey, b: SortKey, c: SortKey)
    requires KeyLess(a, b) && KeyLess(b, c)
    ensures KeyLess(a, c)
  {
    if a != [] {
      LexTotal(a[0], b[0]);
      LexTotal(b[0], c[0]);
      if a[0] == b[0] == c[0] {
        KeyTransitive(a[1..], b[1..], c[1..]);
      } else if a[0] != b[0] && b[0] != c[0] {
        LexTransitive(a[0], b[0], c[0]);
        LexTotal(a[0], c[0]);
      }
    }
  }

  predicate Leq<T>(key: T -> SortKey, c: T, d: T) {
    !KeyLess(key(d), key(c))
  }

  lemma LeqTransitive<T>(key: T -> SortKey, c: T, d: T, e: T)
    requires Leq(key, c, d) && Leq(key, d, e)
    ensures Leq(key, c, e)
  {
    var x, y, z := key(c), key(d), key(e);
    KeyTotal(x, y);
    KeyTotal(y, z);
    if KeyLess(z, x) && KeyLess(x, y) {
      KeyTransitive(z, x, y);
    }
  }

  // ---------------------------------------------------------------------------------------------
  // Stable sorting
  // ---------------------------------------------------------------------------------------------

  function Insert<T>(key: T -> SortKey, c: T, s: seq<T>): seq<T> {
    if s == [] then [c]
    else if Leq(key, c, s[0]) then [c] + s
    else [s[0]] + Insert(key, c, s[1..])
  }

  /** `s.sort(key=key)`. */
  function Sort<T>(key: T -> SortKey, s: seq<T>): seq<T> {
    if s == [] then [] else Insert(key, s[0], Sort(key, s[1..]))
  }

  ghost predicate Sorted<T>(key: T -> SortKey, s: seq<T>) {
    forall i, j :: 0 <= i < j < |s| ==> Leq(key, s[i], s[j])
  }

  /** The element, if it has the given sort key. */
  function Pick<T>(key: T -> SortKey, c: T, k: SortKey): seq<T> {
    if key(c) == k then [c] else []
  }

  /** The elements with a given sort key, in order. */
  function At<T>(key: T -> SortKey, s: seq<T>, k: SortKey): seq<T> {
    if s == [] then [] else Pick(key, s[0], k) + At(key, s[1..], k)
  }

  /** Two lists agree on the elements under every sort key, in order. */
  ghost predicate SameUnderKeys<T(!new)>(key: T -> SortKey, a: seq<T>, b: seq<T>) {
    forall k :: At(key, a, k) == At(key, b, k)
  }

  lemma AtCons<T>(key: T -> SortKey, c: T, s: seq<T>, k: SortKey)
    ensures At(key, [c] + s, k) == Pick(key, c, k) + At(key, s, k)
  {
    assert ([c] + s)[1..] == s;
  }

  lemma {:induction false} AtConcat<T>(key: T -> SortKey, a: seq<T>, b: seq<T>, k: SortKey)
    ensures At(key, a + b, k) == At(key, a, k) + At(key, b, k)
  {
    if a == [] {
      assert a + b == b;
    } else {
      assert a + b == [a[0]] + (a[1..] + b);
      AtCons(key, a[0], a[1..] + b, k);
      AtConcat(key, a[1..], b, k);
      assert Pick(key, a[0], k) + (At(key, a[1..], k) + At(key, b, k)) == Pick(key, a[0], k) + At(key, a[1..], k) + At(key, b, k);
    }
  }

  lemma {:induction false} AtMember<T>(key: T -> SortKey, s: seq<T>, k: SortKey, c: T)
    ensures c in At(key, s, k) <==> c in s && key(c) == k
  {
    if s != [] {
      AtMember(key, s[1..], k, c);
    }
  }

  lemma {:induction false} InsertAt<T>(key: T -> SortKey, c: T, s: seq<T>, k: SortKey)
    ensures At(key, Insert(key, c, s), k) == Pick(key, c, k) + At(key, s, k)
  {
    if s == [] || Leq(key, c, s[0]) {
      AtCons(key, c, s, k);
      assert s == [] ==> [c] + s == [c];
    } else {
      var x, rest := s[0], s[1..];
      InsertAt(key, c, rest, k);
      AtCons(key, x, Insert(key, c, rest), k);
      PicksDiffer(key, c, x, At(key, rest, k), k);
    }
  }

  lemma PicksDiffer<T>(key: T -> SortKey, c: T, x: T, rest: seq<T>, k: SortKey)
    requires !Leq(key, c, x)
    ensures Pick(key, x, k) + (Pick(key, c, k) + rest) == Pick(key, c, k) + (Pick(key, x, k) + rest)
  {
    KeyIrreflexive(key(c));
  }

  ghost predicate Bounds<T>(key: T -> SortKey, c: T, s: seq<T>) {
    forall y :: y in s ==> Leq(key, c, y)
  }

  lemma SortedCons<T>(key: T -> SortKey, c: T, s: seq<T>)
    ensures Sorted(key, [c] + s) <==> Sorted(key, s) && Bounds(key, c, s)
  {
    var all := [c] + s;
    if Sorted(key, all) {
      forall y | y in s
        ensures Leq(key, c, y)
      {
        var j :| 0 <= j < |s| && s[j] == y;
        assert all[j + 1] == y && all[0] == c;
      }
      forall i, j | 0 <= i < j < |s|
        ensures Leq(key, s[i], s[j])
      {
        assert all[i + 1] == s[i] && all[j + 1] == s[j];
      }
    }
  }

  lemma {:induction false} InsertSorted<T>(key: T -> SortKey, c: T, s: seq<T>)
    requires Sorted(key, s)
    ensures Sorted(key, Insert(key, c, s)) && multiset(Insert(key, c, s)) == multiset{c} + multiset(s)
  {
    if s != [] {
      var x, rest := s[0], s[1..];
      assert s == [x] + rest;
      SortedCons(key, x, rest);
      if Leq(key, c, x) {
        forall y | y in s
          ensures Leq(key, c, y)
        {
          if y != x {
            LeqTransitive(key, c, x, y);
          }
        }
        SortedCons(key, c, s);
      } else {
        InsertSorted(key, c, rest);
        KeyTotal(key(x), key(c));
        var tail := Insert(key, c, rest);
        forall y | y in tail
          ensures Leq(key, x, y)
        {
          assert y in multiset(tail);
        }
        SortedCons(key, x, tail);
      }
    }
  }

  /** The sort is a sort: ordered, a permutation, and stable. */
  lemma {:induction false} SortCorrect<T(!new)>(key: T -> SortKey, s: seq<T>)
    ensures Sorted(key, Sort(key, s)) && multiset(Sort(key, s)) == multiset(s)
    ensures SameUnderKeys(key, Sort(key, s), s)
  {
    if s != [] {
      SortCorrect(key, s[1..]);
      InsertSorted(key, s[0], Sort(key, s[1..]));
      assert s == [s[0]] + s[1..];
      forall k
        ensures At(key, Sort(key, s), k) == At(key, s, k)
      {
        InsertAt(key, s[0], Sort(key, s[1..]), k);
        AtCons(key, s[0], s[1..], k);
        assert At(key, Sort(key, s[1..]), k) == At(key, s[1..], k);
      }
    }
  }

  lemma HeadsAgree<T(!new)>(key: T -> SortKey, a: seq<T>, b: seq<T>)
    requires Sorted(key, a) && a != [] && b != [] && SameUnderKeys(key, a, b)
    ensures Leq(key, a[0], b[0])
  {
    var k := key(b[0]);
    assert At(key, a, k) == At(key, b, k);
    AtMember(key, b, k, b[0]);
    AtMember(key, a, k, b[0]);
    var j :| 0 <= j < |a| && a[j] == b[0];
    KeyIrreflexive(k);
    assert j > 0 ==> Leq(key, a[0], a[j]);
  }

  lemma SameHead<T(!new)>(key: T -> SortKey, a: seq<T>, b: seq<T>)
    requires Sorted(key, a) && Sorted(key, b) && a != [] && b != [] && SameUnderKeys(key, a, b)
    ensures a[0] == b[0] && SameUnderKeys(key, a[1..], b[1..])
  {
    HeadsAgree(key, a, b);
    HeadsAgree(key, b, a);
    KeyTotal(key(a[0]), key(b[0]));
    var k0 := key(a[0]);
    assert [a[0]] + At(key, a[1..], k0) == At(key, a, k0) == At(key, b, k0) == [b[0]] + At(key, b[1..], k0);
    assert a[0] == ([a[0]] + At(key, a[1..], k0))[0] == ([b[0]] + At(key, b[1..], k0))[0];
    forall k
      ensures At(key, a[1..], k) == At(key, b[1..], k)
    {
      var head := Pick(key, a[0], k);
      assert At(key, a, k) == At(key, b, k);
      assert At(key, a[1..], k) == (head + At(key, a[1..], k))[|head|..];
      assert At(key, b[1..], k) == (head + At(key, b[1..], k))[|head|..];
    }
  }

  lemma NoneUnderKeys<T(!new)>(key: T -> SortKey, a: seq<T>, b: seq<T>)
    requires SameUnderKeys(key, a, b) && b == []
    ensures a == []
  {
    if a != [] {
      AtMember(key, a, key(a[0]), a[0]);
    }
  }

  /** Order and stability leave no choice: two sorted lists with the same elements under every sort
      key, in the same order, are the same list. */
  lemma {:induction false} SortedUnique<T(!new)>(key: T -> SortKey, a: seq<T>, b: seq<T>)
    requires Sorted(key, a) && Sorted(key, b) && SameUnderKeys(key, a, b)
    ensures a == b
    decreases |a|
  {
    if b == [] {
      NoneUnderKeys(key, a, b);
    } else if a == [] {
      NoneUnderKeys(key, b, a);
    } else {
      SameHead(key, a, b);
      SortedUnique(key, a[1..], b[1..]);
      assert a == [a[0]] + a[1..] && b == [b[0]] + b[1..];
    }
  }

  // ---------------------------------------------------------------------------------------------
  // Replacing by tag
  // ---------------------------------------------------------------------------------------------

  function Tags<T(==), K>(tag: T -> K, s: seq<T>): set<K> {
    set c | c in s :: tag(c)
  }

  /** The elements whose tag is not among the given ones, in order. */
  function Keep<T, K(==)>(tag: T -> K, s: seq<T>, tags: set<K>): seq<T> {
    if s == [] then [] else (if tag(s[0]) in tags then [] else [s[0]]) + Keep(tag, s[1..], tags)
  }

  /** Elements replaced by newer ones with their tag, the result sorted. */
  function Upsert<T(==), K(==)>(tag: T -> K, key: T -> SortKey, stored: seq<T>, newer: seq<T>): seq<T> {
    Sort(key, Keep(tag, stored, Tags(tag, newer)) + newer)
  }

  lemma {:induction false} KeepConcat<T, K>(tag: T -> K, a: seq<T>, b: seq<T>, tags: set<K>)
    ensures Keep(tag, a + b, tags) == Keep(tag, a, tags) + Keep(tag, b, tags)
  {
    if a == [] {
      assert a + b == b;
    } else {
      assert (a + b)[1..] == a[1..] + b;
      KeepConcat(tag, a[1..], b, tags);
    }
  }

  lemma {:induction false} KeepCount<T, K>(tag: T -> K, s: seq<T>, tags: set<K>, c: T)
    ensures multiset(Keep(tag, s, tags))[c] == if tag(c) in tags then 0 else multiset(s)[c]
  {
    if s != [] {
      KeepCount(tag, s[1..], tags, c);
      assert s == [s[0]] + s[1..];
    }
  }

  /** Dropping tags commutes with picking a sort key. */
  lemma {:induction false} KeepAt<T, K>(tag: T -> K, key: T -> SortKey, s: seq<T>, tags: set<K>, k: SortKey)
    ensures At(key, Keep(tag, s, tags), k) == Keep(tag, At(key, s, k), tags)
  {
    if s != [] {
      KeepAt(tag, key, s[1..], tags, k);
      AtConcat(key, if tag(s[0]) in tags then [] else [s[0]], Keep(tag, s[1..], tags), k);
      KeepConcat(tag, if key(s[0]) == k then [s[0]] else [], At(key, s[1..], k), tags);
    }
  }

  lemma {:induction false} KeepNone<T, K>(tag: T -> K, s: seq<T>, tags: set<K>)
    requires forall c :: c in s ==> tag(c) in tags
    ensures Keep(tag, s, tags) == []
  {
    if s != [] {
      KeepNone(tag, s[1..], tags);
    }
  }

  lemma {:induction false} KeepAll<T, K>(tag: T -> K, s: seq<T>, tags: set<K>)
    requires forall c :: c in s ==> tag(c) !in tags
    ensures Keep(tag, s, tags) == s
  {
    if s != [] {
      KeepAll(tag, s[1..], tags);
    }
  }

  lemma {:induction false} KeepBoth<T, K>(tag: T -> K, s: seq<T>, x: set<K>, y: set<K>)
    ensures Keep(tag, Keep(tag, s, x), y) == Keep(tag, s, x + y)
  {
    if s != [] {
      KeepBoth(tag, s[1..], x, y);
      KeepConcat(tag, if tag(s[0]) in x then [] else [s[0]], Keep(tag, s[1..], x), y);
    }
  }

  /** The result is sorted and holds exactly the stored elements whose tag was not replaced and the
      newer ones, as often as each occurs. */
  lemma UpsertContents<T(!new), K>(tag: T -> K, key: T -> SortKey, stored: seq<T>, newer: seq<T>)
    ensures Sorted(key, Upsert(tag, key, stored, newer))
    ensures forall c :: multiset(Upsert(tag, key, stored, newer))[c] ==
                          (if tag(c) in Tags(tag, newer) then 0 else multiset(stored)[c]) + multiset(newer)[c]
  {
    var kept := Keep(tag, stored, Tags(tag, newer));
    SortCorrect(key, kept + newer);
    forall c
      ensures multiset(kept)[c] == if tag(c) in Tags(tag, newer) then 0 else multiset(stored)[c]
    {
      KeepCount(tag, stored, Tags(tag, newer), c);
    }
  }

  /** What the result holds under a sort key: first what was kept, then what is newer. */
  lemma UpsertAt<T(!new), K>(tag: T -> K, key: T -> SortKey, stored: seq<T>, newer: seq<T>, k: SortKey)
    ensures At(key, Upsert(tag, key, stored, newer), k) ==
            Keep(tag, At(key, stored, k), Tags(tag, newer)) + At(key, newer, k)
  {
    var kept := Keep(tag, stored, Tags(tag, newer));
    SortCorrect(key, kept + newer);
    assert At(key, Upsert(tag, key, stored, newer), k) == At(key, kept + newer, k);
    AtConcat(key, kept, newer, k);
    KeepAt(tag, key, stored, Tags(tag, newer), k);
  }

  lemma KeepAgain<T, K>(tag: T -> K, there: seq<T>, added: seq<T>, tags: set<K>)
    requires forall c :: c in added ==> tag(c) in tags
    ensures Keep(tag, Keep(tag, there, tags) + added, tags) == Keep(tag, there, tags)
  {
    KeepConcat(tag, Keep(tag, there, tags), added, tags);
    KeepBoth(tag, there, tags, tags);
    assert tags + tags == tags;
    KeepNone(tag, added, tags);
  }

  lemma UpsertTwiceAt<T(!new), K>(tag: T -> K, key: T -> SortKey, stored: seq<T>, newer: seq<T>, k: SortKey)
    ensures At(key, Upsert(tag, key, Upsert(tag, key, stored, newer), newer), k) ==
            At(key, Upsert(tag, key, stored, newer), k)
  {
    forall c | c in At(key, newer, k)
      ensures tag(c) in Tags(tag, newer)
    {
      AtMember(key, newer, k, c);
    }
    KeepAgain(tag, At(key, stored, k), At(key, newer, k), Tags(tag, newer));
    UpsertAt(tag, key, stored, newer, k);
    UpsertAt(tag, key, Upsert(tag, key, stored, newer), newer, k);
  }

  /** Doing it again changes nothing, order included. */
  lemma UpsertTwice<T(!new), K>(tag: T -> K, key: T -> SortKey, stored: seq<T>, newer: seq<T>)
    ensures Upsert(tag, key, Upsert(tag, key, stored, newer), newer) == Upsert(tag, key, stored, newer)
  {
    var once := Upsert(tag, key, stored, newer);
    UpsertContents(tag, key, stored, newer);
    UpsertContents(tag, key, once, newer);
    forall k
      ensures At(key, Upsert(tag, key, once, newer), k) == At(key, once, k)
    {
      UpsertTwiceAt(tag, key, stored, newer, k);
    }
    SortedUnique(key, Upsert(tag, key, once, newer), once);
  }

  /** Two upserts with disjoint tags, under a sort key. */
  lemma UpsertBothAt<T(!new), K>(tag: T -> K, key: T -> SortKey, stored: seq<T>, a: seq<T>, b: seq<T>, k: SortKey)
    requires Tags(tag, a) !! Tags(tag, b)
    ensures At(key, Upsert(tag, key, Upsert(tag, key, stored, a), b), k) ==
            Keep(tag, At(key, stored, k), Tags(tag, a) + Tags(tag, b)) + At(key, a, k) + At(key, b, k)
  {
    var x, y := Tags(tag, a), Tags(tag, b);
    UpsertAt(tag, key, stored, a, k);
    UpsertAt(tag, key, Upsert(tag, key, stored, a), b, k);
    KeepConcat(tag, Keep(tag, At(key, stored, k), x), At(key, a, k), y);
    KeepBoth(tag, At(key, stored, k), x, y);
    forall c | c in At(key, a, k)
      ensures tag(c) !in y
    {
      AtMember(key, a, k, c);
      assert tag(c) in x;
    }
    KeepAll(tag, At(key, a, k), y);
  }

  /** Upserts with disjoint tags commute as multisets. */
  lemma UpsertsCommute<T(!new), K>(tag: T -> K, key: T -> SortKey, stored: seq<T>, a: seq<T>, b: seq<T>)
    requires Tags(tag, a) !! Tags(tag, b)
    ensures multiset(Upsert(tag, key, Upsert(tag, key, stored, a), b)) ==
            multiset(Upsert(tag, key, Upsert(tag, key, stored, b), a))
  {
    var ab, ba := Upsert(tag, key, Upsert(tag, key, stored, a), b), Upsert(tag, key, Upsert(tag, key, stored, b), a);
    forall c
      ensures multiset(ab)[c] == multiset(ba)[c]
    {
      UpsertContents(tag, key, stored, a);
      UpsertContents(tag, key, stored, b);
      UpsertContents(tag, key, Upsert(tag, key, stored, a), b);
      UpsertContents(tag, key, Upsert(tag, key, stored, b), a);
      assert tag(c) in Tags(tag, a) ==> c !in b;
      assert tag(c) in Tags(tag, b) ==> c !in a;
    }
  }

  lemma OneSideEmpty<T(!new)>(key: T -> SortKey, a: seq<T>, b: seq<T>, k: SortKey)
    requires KeysApart(key, a, b)
    ensures At(key, a, k) == [] || At(key, b, k) == []
  {
    if At(key, a, k) != [] && At(key, b, k) != [] {
      AtMember(key, a, k, At(key, a, k)[0]);
      AtMember(key, b, k, At(key, b, k)[0]);
    }
  }

  /** No element of the one has the sort key of an element of the other. */
  ghost predicate KeysApart<T(!new)>(key: T -> SortKey, a: seq<T>, b: seq<T>) {
    forall c, d :: c in a && d in b ==> key(c) != key(d)
  }

  /** Upserts with disjoint tags commute as lists exactly when not even their sort keys collide. */
  lemma UpsertsCommuteExactly<T(!new), K>(tag: T -> K, key: T -> SortKey, stored: seq<T>, a: seq<T>, b: seq<T>)
    requires Tags(tag, a) !! Tags(tag, b)
    ensures Upsert(tag, key, Upsert(tag, key, stored, a), b) == Upsert(tag, key, Upsert(tag, key, stored, b), a)
            <==> KeysApart(key, a, b)
  {
    if KeysApart(key, a, b) {
      UpsertsCommuteAsLists(tag, key, stored, a, b);
    } else {
      var c, d :| c in a && d in b && key(c) == key(d);
      SharedKeySeparates(tag, key, stored, a, b, c, d);
    }
  }

  /** Under a shared sort key the upsert made last stands last. */
  lemma SharedKeySeparates<T(!new), K>(tag: T -> K, key: T -> SortKey, stored: seq<T>, a: seq<T>, b: seq<T>, c: T, d: T)
    requires Tags(tag, a) !! Tags(tag, b) && c in a && d in b && key(c) == key(d)
    ensures Upsert(tag, key, Upsert(tag, key, stored, a), b) != Upsert(tag, key, Upsert(tag, key, stored, b), a)
  {
    var k, tags := key(c), Tags(tag, a) + Tags(tag, b);
    var x, y, z := Keep(tag, At(key, stored, k), tags), At(key, a, k), At(key, b, k);
    UpsertBothAt(tag, key, stored, a, b, k);
    UpsertBothAt(tag, key, stored, b, a, k);
    assert Tags(tag, b) + Tags(tag, a) == tags;
    AtMember(key, a, k, c);
    AtMember(key, b, k, d);
    FirstsDiffer(tag, key, a, b, k);
    OrderShows(x, y, z);
  }

  lemma FirstsDiffer<T(!new), K>(tag: T -> K, key: T -> SortKey, a: seq<T>, b: seq<T>, k: SortKey)
    requires Tags(tag, a) !! Tags(tag, b) && At(key, a, k) != [] && At(key, b, k) != []
    ensures At(key, a, k)[0] != At(key, b, k)[0]
  {
    var c, d := At(key, a, k)[0], At(key, b, k)[0];
    AtMember(key, a, k, c);
    AtMember(key, b, k, d);
    assert tag(c) in Tags(tag, a) && tag(d) in Tags(tag, b);
  }

  lemma OrderShows<T>(x: seq<T>, y: seq<T>, z: seq<T>)
    requires y != [] && z != [] && y[0] != z[0]
    ensures x + y + z != x + z + y
  {
    assert (x + y + z)[|x|] == y[0] && (x + z + y)[|x|] == z[0];
  }

  lemma UpsertsCommuteAsLists<T(!new), K>(tag: T -> K, key: T -> SortKey, stored: seq<T>, a: seq<T>, b: seq<T>)
    requires Tags(tag, a) !! Tags(tag, b) && KeysApart(key, a, b)
    ensures Upsert(tag, key, Upsert(tag, key, stored, a), b) == Upsert(tag, key, Upsert(tag, key, stored, b), a)
  {
    var ab, ba := Upsert(tag, key, Upsert(tag, key, stored, a), b), Upsert(tag, key, Upsert(tag, key, stored, b), a);
    forall k
      ensures At(key, ab, k) == At(key, ba, k)
    {
      CommuteAt(tag, key, stored, a, b, k);
    }
    UpsertContents(tag, key, Upsert(tag, key, stored, a), b);
    UpsertContents(tag, key, Upsert(tag, key, stored, b), a);
    SortedUnique(key, ab, ba);
  }

  lemma SwapEmpty<T>(x: seq<T>, a: seq<T>, b: seq<T>)
    requires a == [] || b == []
    ensures x + a + b == x + b + a
  {
  }

  lemma CommuteAt<T(!new), K>(tag: T -> K, key: T -> SortKey, stored: seq<T>, a: seq<T>, b: seq<T>, k: SortKey)
    requires Tags(tag, a) !! Tags(tag, b) && KeysApart(key, a, b)
    ensures At(key, Upsert(tag, key, Upsert(tag, key, stored, a), b), k) ==
            At(key, Upsert(tag, key, Upsert(tag, key, stored, b), a), k)
  {
    UpsertBothAt(tag, key, stored, a, b, k);
    UpsertBothAt(tag, key, stored, b, a, k);
    assert Tags(tag, a) + Tags(tag, b) == Tags(tag, b) + Tags(tag, a);
    OneSideEmpty(key, a, b, k);
    SwapEmpty(Keep(tag, At(key, stored, k), Tags(tag, a) + Tags(tag, b)), At(key, a, k), At(key, b, k));
  }
}
