/** Optional values, lists without repetition, decimal digits and the code-point order of strings. */
module Basics {

  datatype Option<+T> = None | Some(value: T)

  predicate Distinct<T(==)>(s: seq<T>) {
    forall i, j :: 0 <= i < j < |s| ==> s[i] != s[j]
  }

  lemma DistinctSnoc<T>(s: seq<T>, x: T)
    requires Distinct(s) && x !in s
    ensures Distinct(s + [x])
  {
    assert forall i :: 0 <= i < |s| ==> s[i] in s;
  }

  lemma Regroup<T>(x: seq<T>, y: seq<T>, z: seq<T>)
    ensures x + (y + z) == x + y + z
  {
  }

  /** What holds at the start and survives each step holds at the end. */
  lemma {:induction false} Persists(holds: nat -> bool, i: nat, j: nat)
    requires i <= j && holds(i) && forall k :: i <= k < j && holds(k) ==> holds(k + 1)
    ensures holds(j)
    decreases j
  {
    if i < j {
      Persists(holds, i, j - 1);
    }
  }

  function Digit(n: nat): char
    requires n < 10
  {
    '0' + n as char
  }

  predicate LexLess(s: string, t: string) {
    if t == "" then false
    else if s == "" then true
    else if s[0] != t[0] then s[0] < t[0]
    else LexLess(s[1..], t[1..])
  }

  lemma {:induction false} LexConcat(a: string, b: string, x: string, y: string)
    requires |a| == |b|
    ensures LexLess(a + x, b + y) <==> LexLess(a, b) || (a == b && LexLess(x, y))
  {
    if a == "" {
      assert a + x == x && b + y == y;
    } else {
      assert (a + x)[1..] == a[1..] + x && (b + y)[1..] == b[1..] + y;
      assert a == [a[0]] + a[1..] && b == [b[0]] + b[1..];
      LexConcat(a[1..], b[1..], x, y);
    }
  }

  lemma LexIrreflexive(s: string)
    ensures !LexLess(s, s)
  {
  }

  lemma {:induction false} LexTotal(s: string, t: string)
    ensures s == t || LexLess(s, t) || LexLess(t, s)
    ensures !(LexLess(s, t) && LexLess(t, s)) && !LexLess(s, s)
  {
    if s != "" && t != "" && s[0] == t[0] {
      LexTotal(s[1..], t[1..]);
      assert s == [s[0]] + s[1..] && t == [t[0]] + t[1..];
    } else if s != "" {
      LexIrreflexive(s);
    }
  }

  lemma {:induction false} LexTransitive(s: string, t: string, u: string)
    requires LexLess(s, t) && LexLess(t, u)
    ensures LexLess(s, u)
  {
    if s != "" && s[0] == t[0] == u[0] {
      LexTransitive(s[1..], t[1..], u[1..]);
    }
  }
}
