/** Redaction of a bearer token from displayed text, and exactly which tokens it hides. */
module Redaction {
  import opened Basics

  const MARK := "[redacted]"

  predicate OccursAt(text: string, t: string, i: nat) {
    i + |t| <= |text| && forall j :: 0 <= j < |t| ==> t[j] == text[i + j]
  }

  predicate Contains(text: string, t: string) {
    exists i: nat :: i <= |text| && OccursAt(text, t, i)
  }

  /** The position of the leftmost occurrence, or the length of the text when there is none. */
  function IndexOf(text: string, t: string): (i: nat)
    requires t != ""
    ensures i <= |text| && (i < |text| ==> OccursAt(text, t, i))
    ensures forall j: nat :: j < i ==> !OccursAt(text, t, j)
  {
    if text == "" || OccursAt(text, t, 0) then 0
    else
      assert forall j: nat :: 0 < j && OccursAt(text, t, j) ==> OccursAt(text[1..], t, j - 1);
      IndexOf(text[1..], t) + 1
  }

  /** `text.split(t)`: the pieces between leftmost non-overlapping occurrences. */
  function Split(text: string, t: string): (parts: seq<string>)
    requires t != ""
    ensures parts != []
    decreases |text|
  {
    var i := IndexOf(text, t);
    if i == |text| then [text] else [text[..i]] + Split(text[i + |t|..], t)
  }

  function Join(parts: seq<string>, sep: string): string
    requires parts != []
  {
    if |parts| == 1 then parts[0] else parts[0] + sep + Join(parts[1..], sep)
  }

  /** Every occurrence of `t` replaced by `mark`. */
  function Replace(text: string, t: string, mark: string): string
    requires t != ""
  {
    Join(Split(text, t), mark)
  }

  function Redact(text: string, token: Option<string>): string {
    if token.None? || token.value == "" then text else Replace(text, token.value, MARK)
  }

  lemma {:induction false} SplitStep(text: string, t: string, i: nat)
    requires t != "" && i == IndexOf(text, t) < |text|
    ensures Split(text, t) == [text[..i]] + Split(text[i + |t|..], t)
  {
  }

  lemma JoinCons(first: string, rest: seq<string>, sep: string)
    requires rest != []
    ensures Join([first] + rest, sep) == first + sep + Join(rest, sep)
  {
    assert ([first] + rest)[1..] == rest;
  }

  lemma {:induction false} ReplaceStep(text: string, t: string, mark: string)
    requires t != "" && IndexOf(text, t) < |text|
    ensures var i := IndexOf(text, t);
            Replace(text, t, mark) == text[..i] + mark + Replace(text[i + |t|..], t, mark)
  {
    var i := IndexOf(text, t);
    SplitStep(text, t, i);
    JoinCons(text[..i], Split(text[i + |t|..], t), mark);
  }

  lemma {:induction false} NothingToReplace(text: string, t: string, mark: string)
    requires t != "" && IndexOf(text, t) == |text|
    ensures Replace(text, t, mark) == text
  {
  }

  lemma Reassemble(text: string, t: string, i: nat)
    requires OccursAt(text, t, i)
    ensures text[..i] + t + text[i + |t|..] == text
  {
    assert text[i..i + |t|] == t;
  }

  /** Without a token, or where the token does not occur, the text stays as it is. */
  lemma NothingToRedact(text: string, token: Option<string>)
    requires token.None? || token.value == "" || forall i: nat :: i <= |text| ==> !OccursAt(text, token.value, i)
    ensures Redact(text, token) == text
  {
    if token.Some? && token.value != "" {
      NothingToReplace(text, token.value, MARK);
    }
  }

  /** Splitting on a token and joining with it again gives back the text, so redaction replaces
      occurrences of the token and nothing else. */
  lemma {:induction false} SplitJoin(text: string, t: string)
    requires t != ""
    ensures Replace(text, t, t) == text
    decreases |text|
  {
    var i := IndexOf(text, t);
    if i == |text| {
      NothingToReplace(text, t, t);
    } else {
      SplitJoin(text[i + |t|..], t);
      ReplaceStep(text, t, t);
      Reassemble(text, t, i);
    }
  }

  // ---------------------------------------------------------------------------------------------
  // Which tokens can reappear
  // ---------------------------------------------------------------------------------------------

  /** `t` starts with the last `k` characters of the mark and goes on. */
  predicate StartsWithEnd(t: string, mark: string, k: nat) {
    0 < k <= |mark| && k < |t| && forall j :: 0 <= j < k ==> t[j] == mark[|mark| - k + j]
  }

  /** From its position `n` on, `t` agrees with the mark. */
  predicate AgreesFrom(t: string, mark: string, n: nat) {
    forall j :: 0 <= j < |mark| && n + j < |t| ==> mark[j] == t[n + j]
  }

  /** `t` runs from its position `n` into a mark put in place of an occurrence of `t` that the first
      `n` characters do not turn into an earlier one. */
  predicate RunsIntoMark(t: string, mark: string, n: nat) {
    0 < n < |t| && AgreesFrom(t, mark, n) && IndexOf(t[..n] + t, t) == n
  }

  predicate Leaky(t: string, mark: string)
    requires t != ""
  {
    || Contains(mark, t)
    || (exists k: nat :: k < |t| && StartsWithEnd(t, mark, k))
    || (exists n: nat :: n < |t| && RunsIntoMark(t, mark, n))
  }

  /** Before the leftmost occurrence, no suffix completes an earlier one. */
  lemma NoEarlier(text: string, t: string, o: nat, i: nat)
    requires t != "" && i == IndexOf(text, t) < |text| && o < i
    ensures IndexOf(text[o..i] + t, t) == i - o
  {
    var y, n := text[o..i] + t, i - o;
    assert forall j :: 0 <= j < |y| ==> y[j] == text[o + j];
    forall j: nat | j < n
      ensures !OccursAt(y, t, j)
    {
      assert !OccursAt(text, t, o + j);
    }
    assert OccursAt(y, t, n);
  }

  lemma NotBefore(text: string, t: string, o: nat)
    requires t != "" && o + |t| <= IndexOf(text, t)
    ensures !OccursAt(text[..IndexOf(text, t)], t, o)
  {
    assert !OccursAt(text, t, o);
  }

  /** A token found from within a mark. */
  lemma InsideOverlap(t: string, mark: string, out: string, i: nat, o: nat)
    requires t != "" && OccursAt(out, mark, i)
    requires i <= o < i + |mark| && OccursAt(out, t, o)
    ensures Leaky(t, mark)
  {
    var r := o - i;
    if |t| <= |mark| - r {
      assert forall j :: 0 <= j < |t| ==> t[j] == mark[r + j];
      assert OccursAt(mark, t, r);
    } else {
      assert StartsWithEnd(t, mark, |mark| - r);
    }
  }

  lemma AgreeAcross(t: string, mark: string, out: string, i: nat, o: nat)
    requires OccursAt(out, mark, i) && o < i < o + |t| && OccursAt(out, t, o)
    ensures AgreesFrom(t, mark, i - o) && t[..i - o] == out[o..i]
  {
    forall j | 0 <= j < |mark| && i - o + j < |t|
      ensures mark[j] == t[i - o + j]
    {
      assert t[i - o + j] == out[o + (i - o + j)];
    }
  }

  /** A token found across the left edge of a mark. */
  lemma LeftOverlap(text: string, t: string, mark: string, out: string, i: nat, o: nat)
    requires t != "" && i == IndexOf(text, t) < |text| && OccursAt(out, mark, i)
    requires text[..i] == out[..i]
    requires o < i < o + |t| && OccursAt(out, t, o)
    ensures Leaky(t, mark)
  {
    NoEarlier(text, t, o, i);
    AgreeAcross(t, mark, out, i, o);
    assert text[o..i] == text[..i][o..] == out[..i][o..] == out[o..i];
    assert RunsIntoMark(t, mark, i - o);
  }

  /** An occurrence in the output makes the token leaky or lies wholly behind the first mark. */
  lemma {:induction false} FirstMark(text: string, t: string, mark: string, rest: string, out: string, i: nat, o: nat)
    requires t != "" && i == IndexOf(text, t) < |text| && out == text[..i] + mark + rest && OccursAt(out, t, o)
    ensures Leaky(t, mark) || (o >= i + |mark| && OccursAt(rest, t, o - i - |mark|))
  {
    Edges(text[..i], mark, rest, out, t, o);
    if o + |t| <= i {
      NotBefore(text, t, o);
    } else if o < i {
      LeftOverlap(text, t, mark, out, i, o);
    } else if o < i + |mark| {
      InsideOverlap(t, mark, out, i, o);
    }
  }

  /** The output is the text itself, or what stands before the first occurrence, a mark and the output for
      the rest; an occurrence in it makes the token leaky or is one in the output for the rest. */
  lemma LeakStep(text: string, t: string, mark: string, out: string, rest: string, o: nat) returns (p: nat)
    requires t != "" && OccursAt(out, t, o)
    requires out == if IndexOf(text, t) == |text| then text else text[..IndexOf(text, t)] + mark + rest
    ensures Leaky(t, mark) || (IndexOf(text, t) < |text| && OccursAt(rest, t, p))
  {
    var i := IndexOf(text, t);
    p := 0;
    if i < |text| {
      FirstMark(text, t, mark, rest, out, i, o);
      if !Leaky(t, mark) {
        p := o - i - |mark|;
      }
    }
  }

  /** How a text is replaced from its first occurrence on. */
  lemma {:induction false} ReplaceSplits(text: string, t: string, mark: string, tail: string)
    requires t != "" && (IndexOf(text, t) < |text| ==> tail == text[IndexOf(text, t) + |t|..])
    ensures Replace(text, t, mark) ==
            if IndexOf(text, t) == |text| then text else text[..IndexOf(text, t)] + mark + Replace(tail, t, mark)
  {
    if IndexOf(text, t) == |text| {
      NothingToReplace(text, t, mark);
    } else {
      ReplaceStep(text, t, mark);
    }
  }

  lemma {:induction false} OnlyLeakyReappears(text: string, t: string, mark: string, o: nat)
    requires t != "" && OccursAt(Replace(text, t, mark), t, o)
    ensures Leaky(t, mark)
    decreases |text|
  {
    var i := IndexOf(text, t);
    var tail := if i < |text| then text[i + |t|..] else "";
    ReplaceSplits(text, t, mark, tail);
    var p := LeakStep(text, t, mark, Replace(text, t, mark), Replace(tail, t, mark), o);
    if !Leaky(t, mark) {
      OnlyLeakyReappears(tail, t, mark, p);
    }
  }

  lemma Edges(a: string, mark: string, c: string, out: string, t: string, o: nat)
    requires out == a + mark + c && OccursAt(out, t, o)
    ensures OccursAt(out, mark, |a|) && out[..|a|] == a
    ensures o + |t| <= |a| ==> OccursAt(a, t, o)
    ensures o >= |a| + |mark| ==> OccursAt(c, t, o - |a| - |mark|)
  {
    assert forall j :: 0 <= j < |a| ==> out[j] == a[j];
    assert forall j :: 0 <= j < |mark| ==> out[|a| + j] == mark[j];
    assert forall j :: 0 <= j < |c| ==> out[|a| + |mark| + j] == c[j];
  }

  lemma ShortIsKept(text: string, t: string, mark: string)
    requires |text| < |t|
    ensures Replace(text, t, mark) == text
  {
    assert IndexOf(text, t) == |text|;
  }

  lemma IndexOfAppend(x: string, t: string, y: string)
    requires t != "" && IndexOf(x + t, t) == |x|
    ensures IndexOf(x + t + y, t) == |x|
  {
    var text := x + t + y;
    assert OccursAt(text, t, |x|);
    assert forall j: nat :: j < |x| && OccursAt(text, t, j) ==> OccursAt(x + t, t, j);
  }

  /** A text in which the leftmost occurrence comes right after `x` and too little follows it for another. */
  lemma ReplaceOnce(x: string, t: string, y: string, mark: string)
    requires t != "" && |y| < |t| && IndexOf(x + t, t) == |x|
    ensures Replace(x + t + y, t, mark) == x + mark + y
  {
    var text := x + t + y;
    IndexOfAppend(x, t, y);
    assert text[..|x|] == x && text[|x| + |t|..] == y;
    ReplaceStep(text, t, mark);
    ShortIsKept(y, t, mark);
  }

  lemma AtStart(t: string)
    requires t != ""
    ensures IndexOf("" + t, t) == 0
  {
    assert "" + t == t && OccursAt(t, t, 0);
  }

  lemma InsideLeaks(t: string, mark: string)
    requires t != "" && Contains(mark, t)
    ensures Contains(Replace("" + t + "", t, mark), t)
  {
    AtStart(t);
    ReplaceOnce("", t, "", mark);
    assert "" + mark + "" == mark;
  }

  lemma EndLeaks(t: string, mark: string, k: nat)
    requires StartsWithEnd(t, mark, k)
    ensures Contains(Replace("" + t + t[k..], t, mark), t)
  {
    AtStart(t);
    ReplaceOnce("", t, t[k..], mark);
    EndRunsOn(t, mark, k);
  }

  lemma EndRunsOn(t: string, mark: string, k: nat)
    requires StartsWithEnd(t, mark, k)
    ensures OccursAt("" + mark + t[k..], t, |mark| - k)
  {
    assert "" + mark + t[k..] == mark + t[k..];
  }

  lemma EdgeLeaks(t: string, mark: string, n: nat, tail: string)
    requires RunsIntoMark(t, mark, n)
    requires tail == if |t| - n > |mark| then t[n + |mark|..] else ""
    ensures Contains(Replace(t[..n] + t + tail, t, mark), t)
  {
    ReplaceOnce(t[..n], t, tail, mark);
    RunsOn(t, mark, n, tail);
  }

  /** Each way to be leaky comes with a text that leaks. */
  lemma LeakyReappears(t: string, mark: string) returns (text: string)
    requires t != "" && Leaky(t, mark)
    ensures Contains(Replace(text, t, mark), t)
  {
    if Contains(mark, t) {
      text := "" + t + "";
      InsideLeaks(t, mark);
    } else if k: nat :| k < |t| && StartsWithEnd(t, mark, k) {
      text := "" + t + t[k..];
      EndLeaks(t, mark, k);
    } else {
      var n: nat :| n < |t| && RunsIntoMark(t, mark, n);
      var tail := if |t| - n > |mark| then t[n + |mark|..] else "";
      text := t[..n] + t + tail;
      EdgeLeaks(t, mark, n, tail);
    }
  }

  lemma RunsOn(t: string, mark: string, n: nat, tail: string)
    requires 0 < n < |t| && AgreesFrom(t, mark, n)
    requires tail == if |t| - n > |mark| then t[n + |mark|..] else ""
    ensures OccursAt(t[..n] + mark + tail, t, 0)
  {
    var out := t[..n] + mark + tail;
    forall j | 0 <= j < |t|
      ensures t[j] == out[0 + j]
    {
      if n <= j < n + |mark| {
        assert mark[j - n] == t[n + (j - n)];
      }
    }
  }

  /** Replacement hides a token in every text exactly when the token is not leaky. */
  lemma ReplaceHidesExactly(t: string, mark: string)
    requires t != ""
    ensures (forall text :: !Contains(Replace(text, t, mark), t)) <==> !Leaky(t, mark)
  {
    if Leaky(t, mark) {
      var text := LeakyReappears(t, mark);
    } else {
      forall text
        ensures !Contains(Replace(text, t, mark), t)
      {
        if Contains(Replace(text, t, mark), t) {
          var o: nat :| o <= |Replace(text, t, mark)| && OccursAt(Replace(text, t, mark), t, o);
          OnlyLeakyReappears(text, t, mark, o);
        }
      }
    }
  }

  /** Redaction hides a token in every text exactly when the token is not leaky for the mark. */
  lemma RedactHidesExactly(t: string)
    requires t != ""
    ensures (forall text :: !Contains(Redact(text, Some(t)), t)) <==> !Leaky(t, MARK)
  {
    ReplaceHidesExactly(t, MARK);
    assert forall text :: Redact(text, Some(t)) == Replace(text, t, MARK);
  }

  /** Tokens that avoid both end characters of the mark are leaky exactly when they lie in its inside. */
  lemma EndFreeLeaks(t: string, word: string, mark: string)
    requires t != "" && mark == "[" + word + "]" && '[' !in t && ']' !in t
    ensures Leaky(t, mark) <==> Contains(word, t)
  {
    forall k: nat | k < |t|
      ensures !StartsWithEnd(t, mark, k) && !RunsIntoMark(t, mark, k)
    {
      assert t[k] in t;
      assert k > 0 ==> t[k - 1] in t;
      assert mark[0] == '[' && mark[|mark| - 1] == ']' && t[k + 0] != mark[0];
    }
    if Contains(mark, t) {
      var i: nat :| i <= |mark| && OccursAt(mark, t, i);
      assert t[0] in t && t[|t| - 1] in t;
      assert OccursAt(word, t, i - 1);
    }
    if Contains(word, t) {
      var i: nat :| i <= |word| && OccursAt(word, t, i);
      assert OccursAt(mark, t, i + 1);
    }
  }

  /** Without square brackets, redaction hides a token in every text exactly when the token is not
      part of the word "redacted". */
  lemma BracketFreeExactly(t: string)
    requires t != "" && '[' !in t && ']' !in t
    ensures (forall text :: !Contains(Redact(text, Some(t)), t)) <==> !Contains("redacted", t)
  {
    assert MARK == "[" + "redacted" + "]";
    EndFreeLeaks(t, "redacted", MARK);
    RedactHidesExactly(t);
  }

  predicate IsHex(c: char) {
    '0' <= c <= '9' || 'a' <= c <= 'f'
  }

  /** Issued tokens are hidden in every text. */
  lemma IssuedTokensAreHidden(hex: string, text: string)
    requires forall i :: 0 <= i < |hex| ==> IsHex(hex[i])
    ensures !Contains(Redact(text, Some("wft_" + hex)), "wft_" + hex)
  {
    var t := "wft_" + hex;
    assert t[0] == 'w' && 'w' !in "redacted";
    BracketFreeExactly(t);
  }

  /** A token with a bracket can come back although it is no part of the mark. */
  lemma BracketTokenLeaks()
    ensures !Contains(MARK, "d]x") && Leaky("d]x", MARK)
    ensures exists text :: Contains(Redact(text, Some("d]x")), "d]x")
  {
    assert "d]x"[2] == 'x' && 'x' !in MARK;
    assert StartsWithEnd("d]x", MARK, 2);
    RedactHidesExactly("d]x");
  }
}
