/** Merging measured performance capabilities into the daemon's file: an upsert by key followed by a
    stable sort on a coarser key. */
module Measured {
  import opened Basics
  import opened KeyedLists

  /** JSON scalars, the values that can stand in a key. */
  datatype Value = Null | Text(s: string) | Number(n: int)

  type Attrs = map<string, Value>

  /** A capability: its id when present, its attributes (absent reads as empty), provenance and the
      rest of the entry. */
  datatype Cap = Cap(id: Option<Value>, attrs: Attrs, provenance: Value, rest: string)

  type MeasuredKey = seq<Value>

  function Decimal(n: nat): string {
    if n < 10 then [Digit(n)] else Decimal(n / 10) + [Digit(n % 10)]
  }

  /** `str(x)`. */
  function Str(v: Value): string {
    match v
    case Null => "None"
    case Text(s) => s
    case Number(n) => if n < 0 then "-" + Decimal(-n) else Decimal(n)
  }

  function DecimalValue(s: string): int {
    if s == "" then 0 else DecimalValue(s[..|s| - 1]) * 10 + (s[|s| - 1] as int - '0' as int)
  }

  lemma {:induction false} DecimalReads(n: nat)
    ensures DecimalValue(Decimal(n)) == n && (forall i :: 0 <= i < |Decimal(n)| ==> '0' <= Decimal(n)[i] <= '9')
    ensures Decimal(n) != "" && (n > 0 ==> Decimal(n)[0] != '0')
  {
    if n >= 10 {
      DecimalReads(n / 10);
      assert Decimal(n)[..|Decimal(n)| - 1] == Decimal(n / 10);
    } else {
      assert DecimalValue([Digit(n)][..0]) == 0;
    }
  }

  /** Printed values: `None`, a text as it is, a number as its decimal digits without leading zeros behind a
      minus sign when it is negative. */
  lemma StrExactly(v: Value)
    ensures v == Null ==> Str(v) == "None"
    ensures v.Text? ==> Str(v) == v.s
    ensures v.Number? && v.n >= 0 ==> DecimalValue(Str(v)) == v.n && Str(v) != "" && (v.n > 0 ==> Str(v)[0] != '0')
    ensures v.Number? && v.n < 0 ==> Str(v)[..1] == "-" && DecimalValue(Str(v)[1..]) == -v.n && Str(v)[1] != '0'
  {
    if v.Number? {
      DecimalReads(if v.n < 0 then -v.n else v.n);
      if v.n < 0 {
        assert Str(v)[1..] == Decimal(-v.n);
      }
    }
  }

  function GetAttr(c: Cap, k: string): Value {
    if k in c.attrs then c.attrs[k] else Null
  }

  /** `_measured_key`. */
  function KeyOf(c: Cap): MeasuredKey {
    [if c.id.Some? then c.id.value else Null, GetAttr(c, "cog_id"), GetAttr(c, "arch"), GetAttr(c, "runtime")]
  }

  function SortKeyOf(c: Cap): SortKey {
    var k := KeyOf(c);
    [Str(k[0]), Str(k[1]), Str(k[2]), Str(k[3])]
  }

  /** Two entries share a key exactly when id, cog, architecture and runtime agree, a missing one counting as
      null; they are sorted by the four as printed. */
  lemma KeysExactly(c: Cap, d: Cap)
    ensures KeyOf(c) == KeyOf(d) <==>
            && (if c.id.Some? then c.id.value else Null) == (if d.id.Some? then d.id.value else Null)
            && GetAttr(c, "cog_id") == GetAttr(d, "cog_id")
            && GetAttr(c, "arch") == GetAttr(d, "arch")
            && GetAttr(c, "runtime") == GetAttr(d, "runtime")
    ensures SortKeyOf(c) == [Str(if c.id.Some? then c.id.value else Null), Str(GetAttr(c, "cog_id")),
                             Str(GetAttr(c, "arch")), Str(GetAttr(c, "runtime"))]
  {
    if KeyOf(c) == KeyOf(d) {
      assert KeyOf(c)[0] == KeyOf(d)[0] && KeyOf(c)[1] == KeyOf(d)[1];
      assert KeyOf(c)[2] == KeyOf(d)[2] && KeyOf(c)[3] == KeyOf(d)[3];
    }
  }

  predicate IsFresh(c: Cap) {
    "perf." <= (if c.id.Some? then Str(c.id.value) else "") && c.provenance == Text("measured")
  }

  function Fresh(caps: seq<Cap>): seq<Cap> {
    if caps == [] then [] else (if IsFresh(caps[0]) then [caps[0]] else []) + Fresh(caps[1..])
  }

  /** `merge_measured`, on the stored list and the list it is given; the count is what it reports. */
  function Merge(stored: seq<Cap>, caps: seq<Cap>): (seq<Cap>, nat) {
    var newer := Fresh(caps);
    (Upsert(KeyOf, SortKeyOf, stored, newer), |newer|)
  }

  lemma {:induction false} FreshMember(caps: seq<Cap>, c: Cap)
    ensures c in Fresh(caps) <==> c in caps && IsFresh(c)
  {
    if caps != [] {
      FreshMember(caps[1..], c);
    }
  }

  /** The selection is a filter on an id that starts with "perf." and the provenance "measured". */
  lemma {:induction false} FreshConcat(a: seq<Cap>, b: seq<Cap>)
    ensures Fresh(a + b) == Fresh(a) + Fresh(b)
    decreases |a|
  {
    if a == [] {
      assert a + b == b;
    } else {
      assert a + b == [a[0]] + (a[1..] + b) && a == [a[0]] + a[1..];
      FreshConcat(a[1..], b);
      FreshCons(a[0], a[1..]);
      FreshCons(a[0], a[1..] + b);
      Regroup(if IsFresh(a[0]) then [a[0]] else [], Fresh(a[1..]), Fresh(b));
    }
  }

  lemma {:induction false} FreshCons(c: Cap, rest: seq<Cap>)
    ensures Fresh([c] + rest) == (if IsFresh(c) then [c] else []) + Fresh(rest)
  {
    assert ([c] + rest)[1..] == rest;
  }

  lemma FreshOne(c: Cap)
    ensures Fresh([c]) == if c.provenance == Text("measured") && c.id.Some? && c.id.value.Text? && "perf." <= c.id.value.s
                          then [c] else []
  {
    if c.id.Some? {
      NoOtherIdIsPerf(c.id.value);
    }
  }

  lemma NoOtherIdIsPerf(v: Value)
    ensures "perf." <= Str(v) ==> v.Text?
  {
    if v.Number? {
      DecimalReads(if v.n < 0 then -v.n else v.n);
      assert Str(v)[0] != 'p';
    }
  }

  /** The merged file is sorted, keeps every stored entry whose key was not measured again, as often
      as it occurs, and holds beside them exactly the measured `perf.` entries of the input. */
  lemma MergeContents(stored: seq<Cap>, caps: seq<Cap>)
    ensures Sorted(SortKeyOf, Merge(stored, caps).0)
    ensures forall c :: multiset(Merge(stored, caps).0)[c] ==
                          (if KeyOf(c) in Tags(KeyOf, Fresh(caps)) then 0 else multiset(stored)[c])
                          + multiset(Fresh(caps))[c]
    ensures forall c :: c in Fresh(caps) <==> c in caps && IsFresh(c)
    ensures Merge(stored, caps).1 == |Fresh(caps)|
  {
    UpsertContents(KeyOf, SortKeyOf, stored, Fresh(caps));
    forall c
      ensures c in Fresh(caps) <==> c in caps && IsFresh(c)
    {
      FreshMember(caps, c);
    }
  }

  /** Merging the same measurements again changes nothing, entry order included. */
  lemma MergeTwice(stored: seq<Cap>, caps: seq<Cap>)
    ensures Merge(Merge(stored, caps).0, caps) == Merge(stored, caps)
  {
    UpsertTwice(KeyOf, SortKeyOf, stored, Fresh(caps));
  }

  /** Merges that measure different keys commute as multisets. */
  lemma MergesCommute(stored: seq<Cap>, a: seq<Cap>, b: seq<Cap>)
    requires Tags(KeyOf, Fresh(a)) !! Tags(KeyOf, Fresh(b))
    ensures multiset(Merge(Merge(stored, a).0, b).0) == multiset(Merge(Merge(stored, b).0, a).0)
  {
    UpsertsCommute(KeyOf, SortKeyOf, stored, Fresh(a), Fresh(b));
  }

  /** They commute as lists exactly when not even the printed forms of their keys collide. */
  lemma MergesCommuteExactly(stored: seq<Cap>, a: seq<Cap>, b: seq<Cap>)
    requires Tags(KeyOf, Fresh(a)) !! Tags(KeyOf, Fresh(b))
    ensures Merge(Merge(stored, a).0, b).0 == Merge(Merge(stored, b).0, a).0 <==> KeysApart(SortKeyOf, Fresh(a), Fresh(b))
  {
    UpsertsCommuteExactly(KeyOf, SortKeyOf, stored, Fresh(a), Fresh(b));
  }
}
