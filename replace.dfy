/**
 * Literal, global replacement: what `s.replace(/token/g, value)` does in
 * JavaScript when the pattern is a fixed text (app.js uses `{{title}}`,
 * `{{publishedDate}}`, `<` and `>`) and the replacement holds no `$` pattern.
 * The string is scanned from left to right; at each position where the token
 * starts, the token is replaced and the scan resumes after it, so matches
 * never overlap and inserted text is never scanned again.
 */
module Replace {
  import opened Wrappers

  /** `t` occurs in `s` starting at index `i`. */
  predicate OccursAt(s: string, t: string, i: int) {
    0 <= i && i + |t| <= |s| && s[i..i + |t|] == t
  }

  predicate Contains(s: string, t: string) {
    exists i :: 0 <= i <= |s| - |t| && OccursAt(s, t, i)
  }

  predicate StartsWith(s: string, t: string) {
    OccursAt(s, t, 0)
  }

  /** The result of one global replace pass. */
  function ReplaceAll(s: string, token: string, value: string): (r: string)
    requires token != []
    decreases |s|
  {
    if s == [] then []
    else if StartsWith(s, token) then value + ReplaceAll(s[|token|..], token, value)
    else [s[0]] + ReplaceAll(s[1..], token, value)
  }

  /** The number of matches one replace pass finds. */
  function Count(s: string, token: string): (k: nat)
    requires token != []
    ensures k * |token| <= |s|
    decreases |s|
  {
    if s == [] then 0
    else if StartsWith(s, token) then 1 + Count(s[|token|..], token)
    else Count(s[1..], token)
  }

  /** The leftmost occurrence of `t` in `s`, if any. */
  function IndexOf(s: string, t: string): (r: Option<nat>)
    requires t != []
    ensures r.Some? ==> OccursAt(s, t, r.value)
    ensures r.None? ==> !Contains(s, t)
    decreases |s|
  {
    if |s| < |t| then None
    else if StartsWith(s, t) then Some(0)
    else
      ShiftOccurrence(s, t);
      match IndexOf(s[1..], t)
      case None => None
      case Some(i) => Some(i + 1)
  }

  lemma SliceOfSlice(s: string, lo: nat, hi: nat, a: nat, b: nat)
    requires lo <= hi <= |s| && a <= b <= hi - lo
    ensures s[lo..hi][a..b] == s[lo + a..lo + b]
  {
    assert forall k :: 0 <= k < b - a ==> s[lo..hi][a..b][k] == s[lo + a..lo + b][k];
  }

  lemma ConcatAssoc(a: string, b: string, c: string, d: string)
    ensures a + (b + c + d) == (a + b) + c + d
  {
  }

  /** Occurrences in `s[1..]` are those in `s` shifted one place left. */
  lemma ShiftOccurrence(s: string, t: string)
    requires s != []
    ensures forall j :: 1 <= j ==> (OccursAt(s, t, j) <==> OccursAt(s[1..], t, j - 1))
  {
    forall j | 1 <= j ensures OccursAt(s, t, j) <==> OccursAt(s[1..], t, j - 1) {
      if j + |t| <= |s| {
        assert s[1..] == s[1..|s|];
        SliceOfSlice(s, 1, |s|, j - 1, j - 1 + |t|);
      }
    }
  }

  /** The occurrence IndexOf finds is the leftmost one. */
  lemma {:induction false} IndexOfLeftmost(s: string, t: string)
    requires t != []
    ensures IndexOf(s, t).Some? ==> forall j :: 0 <= j < IndexOf(s, t).value ==> !OccursAt(s, t, j)
    decreases |s|
  {
    if |s| >= |t| && !StartsWith(s, t) {
      IndexOfLeftmost(s[1..], t);
      ShiftOccurrence(s, t);
    }
  }

  /** No occurrence of `t` lies wholly inside the text before the leftmost one. */
  lemma PrefixBeforeFirst(s: string, t: string, i: nat)
    requires t != [] && i <= |s|
    requires forall j :: 0 <= j < i ==> !OccursAt(s, t, j)
    ensures !Contains(s[..i], t)
  {
    forall j | OccursAt(s[..i], t, j) ensures false {
      assert s[..i] == s[0..i];
      SliceOfSlice(s, 0, i, j, j + |t|);
      assert OccursAt(s, t, j);
    }
  }

  /** A piece of `s` holds no occurrence of `t` when `s` itself holds none. */
  lemma SliceWithout(s: string, t: string, lo: nat, hi: nat)
    requires lo <= hi <= |s|
    requires !Contains(s, t)
    ensures !Contains(s[lo..hi], t)
  {
    forall j | OccursAt(s[lo..hi], t, j) ensures false {
      SliceOfSlice(s, lo, hi, j, j + |t|);
      assert OccursAt(s, t, lo + j);
    }
  }

  /** A text without the token is left unchanged by a pass. */
  lemma {:induction false} ReplaceAllWithoutToken(s: string, t: string, v: string)
    requires t != []
    requires !Contains(s, t)
    ensures ReplaceAll(s, t, v) == s
    decreases |s|
  {
    if s != [] {
      assert !OccursAt(s, t, 0);
      ShiftOccurrence(s, t);
      forall j | 0 <= j <= |s| - 1 - |t| ensures !OccursAt(s[1..], t, j) {
        assert !OccursAt(s, t, j + 1);
      }
      ReplaceAllWithoutToken(s[1..], t, v);
      assert [s[0]] + s[1..] == s;
    }
  }

  /**
   * One pass keeps the text before the leftmost match, puts `v` where the
   * match was, and goes on with the text after it.
   */
  lemma {:induction false} ReplaceAllAtFirst(s: string, t: string, v: string, i: nat)
    requires t != []
    requires IndexOf(s, t) == Some(i)
    ensures ReplaceAll(s, t, v) == s[..i] + v + ReplaceAll(s[i + |t|..], t, v)
    decreases |s|
  {
    if StartsWith(s, t) {
      assert s[..0] == [];
    } else {
      var tail := s[1..];
      assert IndexOf(tail, t) == Some(i - 1);
      ReplaceAllAtFirst(tail, t, v, i - 1);
      assert tail[i - 1 + |t|..] == s[i + |t|..];
      assert [s[0]] + tail[..i - 1] == s[..i];
      ConcatAssoc([s[0]], tail[..i - 1], v, ReplaceAll(s[i + |t|..], t, v));
    }
  }

  /** Counting follows the same leftmost-match steps. */
  lemma {:induction false} CountAtFirst(s: string, t: string)
    requires t != []
    ensures IndexOf(s, t).None? ==> Count(s, t) == 0
    ensures IndexOf(s, t).Some? ==> Count(s, t) == 1 + Count(s[IndexOf(s, t).value + |t|..], t)
    decreases |s|
  {
    if s == [] {
    } else if StartsWith(s, t) {
    } else {
      var tail := s[1..];
      CountAtFirst(tail, t);
      if |s| < |t| || IndexOf(tail, t).None? {
        assert IndexOf(tail, t).None?;
      } else {
        var i := IndexOf(tail, t).value;
        assert IndexOf(s, t) == Some(i + 1);
        assert tail[i + |t|..] == s[i + 1 + |t|..];
      }
    }
  }

  /** A pass finds at least one match exactly when the token occurs. */
  lemma CountZeroIff(s: string, t: string)
    requires t != []
    ensures Count(s, t) == 0 <==> !Contains(s, t)
  {
    CountAtFirst(s, t);
  }

  lemma MulSucc(k: int, d: int)
    ensures (1 + k) * d == k * d + d
  {
  }

  /** Text without the token's first character passes through unchanged. */
  lemma {:induction false} ReplaceAllPlainPrefix(a: string, b: string, t: string, v: string)
    requires t != []
    requires t[0] !in a
    ensures ReplaceAll(a + b, t, v) == a + ReplaceAll(b, t, v)
    decreases |a|
  {
    if a != [] {
      var w := a + b;
      assert w[0] == a[0] != t[0];
      assert !StartsWith(w, t);
      assert w[1..] == a[1..] + b;
      ReplaceAllPlainPrefix(a[1..], b, t, v);
      assert [a[0]] + a[1..] == a;
    } else {
      assert a + b == b;
    }
  }

  /** A text without the token's first character holds no occurrence of it. */
  lemma PlainPrefixWithout(b: string, x: string, t: string)
    requires t != [] && t[0] !in b
    requires !Contains(x, t)
    ensures !Contains(b + x, t)
  {
    var w := b + x;
    forall i | 0 <= i <= |w| - |t| ensures !OccursAt(w, t, i) {
      if i < |b| {
        assert w[i..i + |t|][0] == w[i] == b[i];
      } else {
        assert w[i..i + |t|] == x[i - |b|..i - |b| + |t|];
        assert !OccursAt(x, t, i - |b|);
      }
    }
  }

  /** When no occurrence starts in `p` and `q` lacks the token's first character, there is none. */
  lemma NoMatchPastHead(p: string, q: string, t: string)
    requires t != [] && t[0] !in q
    requires forall i :: 0 <= i < |p| ==> !OccursAt(p + q, t, i)
    ensures !Contains(p + q, t)
  {
    forall i | |p| <= i <= |p + q| - |t| ensures !OccursAt(p + q, t, i) {
      assert (p + q)[i] == q[i - |p|];
      assert (p + q)[i..i + |t|][0] == (p + q)[i];
    }
  }

  /** A text with exactly one match, preceded by text that cannot start one. */
  lemma ReplaceAllOneMatch(a: string, b: string, t: string, v: string)
    requires t != [] && t[0] !in a
    requires !Contains(b, t)
    ensures ReplaceAll(a + t + b, t, v) == a + v + b
  {
    assert a + t + b == a + (t + b);
    ReplaceAllPlainPrefix(a, t + b, t, v);
    ReplaceAllTokenPrefix(b, t, v);
    ReplaceAllWithoutToken(b, t, v);
    assert a + (v + b) == a + v + b;
  }

  /** A text that starts with the token gets the value in its place. */
  lemma ReplaceAllTokenPrefix(b: string, t: string, v: string)
    requires t != []
    ensures ReplaceAll(t + b, t, v) == v + ReplaceAll(b, t, v)
  {
    assert (t + b)[..|t|] == t;
    assert (t + b)[|t|..] == b;
  }

  /** Each match changes the length by the difference of the two lengths. */
  lemma {:induction false} ReplaceAllLength(s: string, t: string, v: string)
    requires t != []
    ensures |ReplaceAll(s, t, v)| == |s| + Count(s, t) * (|v| - |t|)
    decreases |s|
  {
    if s == [] {
    } else {
      var rest := if StartsWith(s, t) then s[|t|..] else s[1..];
      var k, d := Count(rest, t), |v| - |t|;
      ReplaceAllLength(rest, t, v);
      if StartsWith(s, t) {
        assert |ReplaceAll(s, t, v)| == |v| + |ReplaceAll(rest, t, v)|;
        assert Count(s, t) == 1 + k;
        MulSucc(k, d);
      } else {
        assert |ReplaceAll(s, t, v)| == 1 + |ReplaceAll(rest, t, v)|;
        assert Count(s, t) == k;
      }
    }
  }

  /** Replacing a token by itself is the identity. */
  lemma {:induction false} ReplaceAllSelf(s: string, t: string)
    requires t != []
    ensures ReplaceAll(s, t, t) == s
    decreases |s|
  {
    if s == [] {
    } else if StartsWith(s, t) {
      ReplaceAllSelf(s[|t|..], t);
      assert t + s[|t|..] == s;
    } else {
      ReplaceAllSelf(s[1..], t);
      assert [s[0]] + s[1..] == s;
    }
  }

  // ---------------------------------------------------------------------
  // The pieces between matches.

  /** The texts between consecutive leftmost, non-overlapping matches. */
  function Split(s: string, t: string): (pieces: seq<string>)
    requires t != []
    ensures |pieces| >= 1
    ensures forall k :: 0 <= k < |pieces| ==> !Contains(pieces[k], t)
    decreases |s|
  {
    var r := IndexOf(s, t);
    if r.None? then [s]
    else
      IndexOfLeftmost(s, t);
      PrefixBeforeFirst(s, t, r.value);
      [s[..r.value]] + Split(s[r.value + |t|..], t)
  }

  /** The pieces, with `sep` between each two. */
  function Join(pieces: seq<string>, sep: string): string {
    if |pieces| == 0 then []
    else if |pieces| == 1 then pieces[0]
    else pieces[0] + sep + Join(pieces[1..], sep)
  }

  /** Putting the token back between the pieces gives the original text. */
  lemma {:induction false} JoinSplit(s: string, t: string)
    requires t != []
    ensures Join(Split(s, t), t) == s
    decreases |s|
  {
    if IndexOf(s, t).Some? {
      var i := IndexOf(s, t).value;
      var rest := s[i + |t|..];
      JoinSplit(rest, t);
      assert Split(s, t)[1..] == Split(rest, t);
      assert s[..i] + t + rest == s;
    }
  }

  /** A replace pass puts the value between the very same pieces. */
  lemma {:induction false} ReplaceAllIsJoin(s: string, t: string, v: string)
    requires t != []
    ensures ReplaceAll(s, t, v) == Join(Split(s, t), v)
    decreases |s|
  {
    if IndexOf(s, t).None? {
      ReplaceAllWithoutToken(s, t, v);
    } else {
      var i := IndexOf(s, t).value;
      ReplaceAllAtFirst(s, t, v, i);
      var rest := s[i + |t|..];
      ReplaceAllIsJoin(rest, t, v);
      assert Split(s, t)[1..] == Split(rest, t);
    }
  }

  /** There is one piece more than there are matches. */
  lemma {:induction false} SplitCount(s: string, t: string)
    requires t != []
    ensures |Split(s, t)| == Count(s, t) + 1
    decreases |s|
  {
    CountAtFirst(s, t);
    if IndexOf(s, t).Some? {
      SplitCount(s[IndexOf(s, t).value + |t|..], t);
    }
  }

  // ---------------------------------------------------------------------
  // When no token is left after a pass.

  /**
   * No occurrence of `t` can overlap an inserted copy of `v`: `v` holds a
   * character that `t` lacks (so no occurrence covers all of `v`), and
   * neither the first nor the last character of `t` is in `v` (so no
   * occurrence starts or ends inside `v`).
   */
  predicate Isolates(v: string, t: string)
    requires t != []
  {
    (exists k :: 0 <= k < |v| && v[k] !in t) && t[0] !in v && t[|t| - 1] !in v
  }

  lemma Splice(a: string, v: string, b: string, u: string)
    requires u != []
    requires !Contains(a, u) && !Contains(b, u) && Isolates(v, u)
    ensures !Contains(a + v + b, u)
  {
    var w := a + v + b;
    assert forall j :: 0 <= j < |a| ==> w[j] == a[j];
    assert forall j :: 0 <= j < |v| ==> w[|a| + j] == v[j];
    assert forall j :: 0 <= j < |b| ==> w[|a| + |v| + j] == b[j];
    forall i | 0 <= i && i + |u| <= |w| ensures !OccursAt(w, u, i) {
      var m := w[i..i + |u|];
      if i + |u| <= |a| {
        assert m == a[i..i + |u|];
        assert !OccursAt(a, u, i);
      } else if i >= |a| + |v| {
        var i' := i - |a| - |v|;
        assert m == b[i'..i' + |u|];
        assert !OccursAt(b, u, i');
      } else if i >= |a| {
        assert m[0] == v[i - |a|] != u[0];
      } else if i + |u| <= |a| + |v| {
        assert m[|u| - 1] == v[i + |u| - 1 - |a|] != u[|u| - 1];
      } else {
        var k :| 0 <= k < |v| && v[k] !in u;
        assert m[|a| + k - i] == v[k];
      }
    }
  }

  /** With an isolating value, a pass leaves no occurrence of its token. */
  lemma {:induction false} ReplaceAllRemovesToken(s: string, t: string, v: string)
    requires t != []
    requires Isolates(v, t)
    ensures !Contains(ReplaceAll(s, t, v), t)
    decreases |s|
  {
    if IndexOf(s, t).None? {
      ReplaceAllWithoutToken(s, t, v);
    } else {
      var i := IndexOf(s, t).value;
      ReplaceAllAtFirst(s, t, v, i);
      IndexOfLeftmost(s, t);
      PrefixBeforeFirst(s, t, i);
      ReplaceAllRemovesToken(s[i + |t|..], t, v);
      Splice(s[..i], v, ReplaceAll(s[i + |t|..], t, v), t);
    }
  }

  /** With a value isolating `u`, a pass creates no occurrence of `u`. */
  lemma {:induction false} ReplaceAllKeepsAbsent(s: string, t: string, v: string, u: string)
    requires t != [] && u != []
    requires !Contains(s, u) && Isolates(v, u)
    ensures !Contains(ReplaceAll(s, t, v), u)
    decreases |s|
  {
    if IndexOf(s, t).None? {
      ReplaceAllWithoutToken(s, t, v);
    } else {
      var i := IndexOf(s, t).value;
      ReplaceAllAtFirst(s, t, v, i);
      SliceWithout(s, u, 0, i);
      assert s[0..i] == s[..i];
      SliceWithout(s, u, i + |t|, |s|);
      assert s[i + |t|..|s|] == s[i + |t|..];
      ReplaceAllKeepsAbsent(s[i + |t|..], t, v, u);
      Splice(s[..i], v, ReplaceAll(s[i + |t|..], t, v), u);
    }
  }
}
