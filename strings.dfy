/**
 * The pieces of Python's `str` behaviour that the view relies on:
 * `strip()`, `split(sep)[-1]`, ASCII `lower()` and the substring test
 * `k in s`; and the first and last position of one character, from which
 * the model computes the span `re.search(r'\{.*\}', ...)` returns.
 */
module Strings {
  import opened Wrappers

  /** `c.isspace()` in CPython: the characters `str.strip()` removes when called
      without an argument (tab to carriage return, the four information
      separators, space, NEL, NBSP and the Unicode space separators and line
      and paragraph separators). */
  predicate IsSpace(c: char) {
    || ('\t' <= c <= '\r')
    || ('\U{1C}' <= c <= '\U{1F}')
    || c == ' '
    || c == '\U{85}'
    || c == '\U{A0}'
    || c == '\U{1680}'
    || ('\U{2000}' <= c <= '\U{200A}')
    || c == '\U{2028}'
    || c == '\U{2029}'
    || c == '\U{202F}'
    || c == '\U{205F}'
    || c == '\U{3000}'
  }

  predicate AllSpace(s: string) {
    forall i :: 0 <= i < |s| ==> IsSpace(s[i])
  }

  /** Neither end of `s` is whitespace: what `strip()` leaves behind. */
  predicate Bare(s: string) {
    s == [] || (!IsSpace(s[0]) && !IsSpace(s[|s| - 1]))
  }

  /** The first position at or after `k` that is not whitespace, or `|s|`. */
  function SkipSpace(s: string, k: nat): (r: nat)
    requires k <= |s|
    ensures k <= r <= |s|
    ensures forall i :: k <= i < r ==> IsSpace(s[i])
    ensures r == |s| || !IsSpace(s[r])
    decreases |s| - k
  {
    if k == |s| || !IsSpace(s[k]) then k else SkipSpace(s, k + 1)
  }

  /** Walking back from `k`, no lower than `lo`: the end of the text once the
      whitespace before `k` is dropped. */
  function BackSpace(s: string, lo: nat, k: nat): (r: nat)
    requires lo <= k <= |s|
    ensures lo <= r <= k
    ensures forall i :: r <= i < k ==> IsSpace(s[i])
    ensures r == lo || !IsSpace(s[r - 1])
  {
    if k == lo || !IsSpace(s[k - 1]) then k else BackSpace(s, lo, k - 1)
  }

  /** Where `strip()` makes the text start: after its leading whitespace. */
  function Lead(s: string): (n: nat)
    ensures n <= |s|
  {
    SkipSpace(s, 0)
  }

  /** Where `strip()` makes the text end: before its trailing whitespace. */
  function Tail(s: string): (n: nat)
    ensures Lead(s) <= n <= |s|
  {
    BackSpace(s, Lead(s), |s|)
  }

  /** Only the defining property is needed to find the leading whitespace. */
  lemma LeadIs(s: string, v: nat)
    requires v <= |s| && (forall i :: 0 <= i < v ==> IsSpace(s[i])) && (v == |s| || !IsSpace(s[v]))
    ensures Lead(s) == v
  {
  }

  /** Only the defining property is needed to find the trailing whitespace. */
  lemma TailIs(s: string, v: nat)
    requires Lead(s) <= v <= |s| && (forall i :: v <= i < |s| ==> IsSpace(s[i]))
    requires v == Lead(s) || !IsSpace(s[v - 1])
    ensures Tail(s) == v
  {
  }

  /** `s.strip()`: the result is the piece of `s` after its leading
      whitespace, followed in `s` only by whitespace, and it neither starts
      nor ends with whitespace. */
  function Trim(s: string): (r: string)
    ensures Bare(r)
    ensures Lead(s) + |r| <= |s| && r == s[Lead(s)..Lead(s) + |r|]
    ensures AllSpace(s[..Lead(s)]) && AllSpace(s[Lead(s) + |r|..])
  {
    s[Lead(s)..Tail(s)]
  }

  /** `s` is its leading whitespace, its stripped text and its trailing
      whitespace, in that order. */
  lemma TrimFrame(s: string)
    ensures s == s[..Lead(s)] + Trim(s) + s[Lead(s) + |Trim(s)|..]
  {
  }

  /** `strip()` is the only way to cut `s` into whitespace, a bare middle and
      whitespace: any such middle is `Trim(s)`. */
  lemma TrimUnique(s: string, p: string, r: string, q: string)
    requires s == p + r + q && AllSpace(p) && AllSpace(q) && Bare(r)
    ensures Trim(s) == r
  {
    if r == [] {
      forall i | 0 <= i < |s| ensures IsSpace(s[i]) {
        if i < |p| { assert s[i] == p[i]; } else { assert s[i] == q[i - |p|]; }
      }
      LeadIs(s, |s|);
    } else {
      forall i | 0 <= i < |p| ensures IsSpace(s[i]) {
        assert s[i] == p[i];
      }
      assert s[|p|] == r[0];
      LeadIs(s, |p|);
      forall i | |p| + |r| <= i < |s| ensures IsSpace(s[i]) {
        assert s[i] == q[i - |p| - |r|];
      }
      assert s[|p| + |r| - 1] == r[|r| - 1];
      TailIs(s, |p| + |r|);
      assert s[|p|..|p| + |r|] == r;
    }
  }

  /** Stripping twice is stripping once. */
  lemma TrimIdempotent(s: string)
    ensures Trim(Trim(s)) == Trim(s)
  {
    var r := Trim(s);
    assert r == [] + r + [];
    TrimUnique(r, [], r, []);
  }

  /** The first position at or after `k` that holds `c`, if any. */
  function FindFrom(s: string, c: char, k: nat): (r: Option<nat>)
    requires k <= |s|
    ensures r.None? <==> forall i :: k <= i < |s| ==> s[i] != c
    ensures r.Some? ==> k <= r.value < |s| && s[r.value] == c && forall i :: k <= i < r.value ==> s[i] != c
    decreases |s| - k
  {
    if k == |s| then None
    else if s[k] == c then Some(k)
    else FindFrom(s, c, k + 1)
  }

  /** The last position before `k` that holds `c`, if any. */
  function FindBefore(s: string, c: char, k: nat): (r: Option<nat>)
    requires k <= |s|
    ensures r.None? <==> forall i :: 0 <= i < k ==> s[i] != c
    ensures r.Some? ==> r.value < k && s[r.value] == c && forall i :: r.value < i < k ==> s[i] != c
  {
    if k == 0 then None
    else if s[k - 1] == c then Some(k - 1)
    else FindBefore(s, c, k - 1)
  }

  /** `s.find(c)`: the first position of `c`, if any. */
  function IndexOf(s: string, c: char): (r: Option<nat>)
    ensures r.None? <==> c !in s
    ensures r.Some? ==> r.value < |s| && s[r.value] == c && forall i :: 0 <= i < r.value ==> s[i] != c
  {
    FindFrom(s, c, 0)
  }

  /** `s.rfind(c)`: the last position of `c`, if any. */
  function LastIndexOf(s: string, c: char): (r: Option<nat>)
    ensures r.None? <==> c !in s
    ensures r.Some? ==> r.value < |s| && s[r.value] == c && forall i :: r.value < i < |s| ==> s[i] != c
  {
    FindBefore(s, c, |s|)
  }

  /** The first occurrence is determined by its defining property. */
  lemma IndexOfIs(s: string, c: char, v: nat)
    requires v < |s| && s[v] == c
    requires forall i :: 0 <= i < v ==> s[i] != c
    ensures IndexOf(s, c) == Some(v)
  {
  }

  /** The last occurrence is determined by its defining property. */
  lemma LastIndexOfIs(s: string, c: char, v: nat)
    requires v < |s| && s[v] == c
    requires forall i :: v < i < |s| ==> s[i] != c
    ensures LastIndexOf(s, c) == Some(v)
  {
  }

  /** Shifts a position found in a suffix back to the whole text. */
  function Shift(r: Option<nat>, n: nat): (shifted: Option<nat>)
    ensures shifted.Some? <==> r.Some?
    ensures shifted.Some? ==> shifted.value == n + r.value
  {
    match r
    case None => None
    case Some(k) => Some(n + k)
  }

  /** `c` occurs in a concatenation exactly when it occurs in one of the parts. */
  lemma InConcat(p: string, t: string, c: char)
    ensures c in p + t <==> c in p || c in t
  {
    if c in p + t {
      var i :| 0 <= i < |p + t| && (p + t)[i] == c;
      if i < |p| { assert p[i] == c; } else { assert t[i - |p|] == c; }
    }
  }

  /** A prefix without `c` only moves where `c` is first found. */
  lemma IndexOfAfter(p: string, t: string, c: char)
    requires c !in p
    ensures IndexOf(p + t, c) == Shift(IndexOf(t, c), |p|)
  {
    InConcat(p, t, c);
    if IndexOf(t, c).Some? {
      var v := IndexOf(t, c).value;
      var s := p + t;
      forall i | 0 <= i < |p| + v ensures s[i] != c {
        if i < |p| { assert s[i] == p[i]; } else { assert s[i] == t[i - |p|]; }
      }
      IndexOfIs(s, c, |p| + v);
    }
  }

  /** A suffix without `c` does not change where `c` is first found. */
  lemma IndexOfBefore(t: string, q: string, c: char)
    requires c !in q
    ensures IndexOf(t + q, c) == IndexOf(t, c)
  {
    InConcat(t, q, c);
    if IndexOf(t, c).Some? {
      var v := IndexOf(t, c).value;
      var s := t + q;
      forall i | 0 <= i < v ensures s[i] != c {
        assert s[i] == t[i];
      }
      IndexOfIs(s, c, v);
    }
  }

  /** A suffix without `c` does not change where `c` is last found. */
  lemma LastIndexOfBefore(t: string, q: string, c: char)
    requires c !in q
    ensures LastIndexOf(t + q, c) == LastIndexOf(t, c)
  {
    InConcat(t, q, c);
    if LastIndexOf(t, c).Some? {
      var v := LastIndexOf(t, c).value;
      var s := t + q;
      forall i | v < i < |s| ensures s[i] != c {
        if i < |t| { assert s[i] == t[i]; } else { assert s[i] == q[i - |t|]; }
      }
      LastIndexOfIs(s, c, v);
    }
  }

  /** A prefix without `c` only moves where `c` is last found. */
  lemma LastIndexOfAfter(p: string, t: string, c: char)
    requires c !in p
    ensures LastIndexOf(p + t, c) == Shift(LastIndexOf(t, c), |p|)
  {
    InConcat(p, t, c);
    if LastIndexOf(t, c).Some? {
      var v := LastIndexOf(t, c).value;
      var s := p + t;
      forall i | |p| + v < i < |s| ensures s[i] != c {
        assert s[i] == t[i - |p|];
      }
      LastIndexOfIs(s, c, |p| + v);
    }
  }

  /** The text after the last `sep`, or all of `s` when `sep` does not occur. */
  function LastPiece(s: string, sep: char): (piece: string)
    ensures |piece| <= |s|
  {
    match LastIndexOf(s, sep)
    case None => s
    case Some(k) => s[k + 1..]
  }

  /** `e` is the final piece of `s` cut at every `sep`: a suffix free of `sep`
      that is either the whole of `s` or directly preceded by `sep`. */
  predicate IsFinalPiece(s: string, sep: char, e: string) {
    && |e| <= |s|
    && e == s[|s| - |e|..]
    && sep !in e
    && (|e| == |s| || s[|s| - |e| - 1] == sep)
  }

  /** The pieces of `s[k..]` between the occurrences of `sep`. */
  function SplitFrom(s: string, sep: char, k: nat): (r: seq<string>)
    requires k <= |s|
    ensures |r| >= 1
    decreases |s| - k
  {
    match FindFrom(s, sep, k)
    case None => [s[k..]]
    case Some(i) => [s[k..i]] + SplitFrom(s, sep, i + 1)
  }

  /** `s.split(sep)`: the pieces between the occurrences of `sep`, always at
      least one. */
  function Split(s: string, sep: char): (r: seq<string>)
    ensures |r| >= 1
  {
    SplitFrom(s, sep, 0)
  }

  /** `e` is the final piece of `s[k..]` cut at every `sep`. */
  predicate IsFinalPieceFrom(s: string, sep: char, k: nat, e: string) {
    && k + |e| <= |s|
    && e == s[|s| - |e|..]
    && sep !in e
    && (k + |e| == |s| || s[|s| - |e| - 1] == sep)
  }

  lemma {:induction false} SplitFromLast(s: string, sep: char, k: nat)
    requires k <= |s|
    ensures IsFinalPieceFrom(s, sep, k, SplitFrom(s, sep, k)[|SplitFrom(s, sep, k)| - 1])
    decreases |s| - k
  {
    match FindFrom(s, sep, k)
    case None =>
      forall i | 0 <= i < |s| - k ensures s[k..][i] != sep {
        assert s[k..][i] == s[k + i];
      }
    case Some(i) =>
      var rest := SplitFrom(s, sep, i + 1);
      assert SplitFrom(s, sep, k) == [s[k..i]] + rest;
      SplitFromLast(s, sep, i + 1);
  }

  /** The last piece of `split(sep)` is the final piece of the text. */
  lemma SplitLast(s: string, sep: char)
    ensures IsFinalPiece(s, sep, Split(s, sep)[|Split(s, sep)| - 1])
  {
    SplitFromLast(s, sep, 0);
  }

  lemma FinalPieceUnique(s: string, sep: char, e1: string, e2: string)
    requires IsFinalPiece(s, sep, e1) && IsFinalPiece(s, sep, e2)
    ensures e1 == e2
  {
  }

  /** `s.split(sep)[-1]` is the text after the last `sep`, or the whole of
      `s` when there is no `sep`. */
  lemma LastPieceOfSplit(s: string, sep: char)
    ensures Split(s, sep)[|Split(s, sep)| - 1] == LastPiece(s, sep)
  {
    var parts := Split(s, sep);
    SplitLast(s, sep);
    FinalPieceIsLastPiece(s, sep, parts[|parts| - 1]);
  }

  /** The final piece is the text after the last `sep`. */
  lemma FinalPieceIsLastPiece(s: string, sep: char, e: string)
    requires IsFinalPiece(s, sep, e)
    ensures e == LastPiece(s, sep)
  {
    LastPieceIsFinal(s, sep);
    FinalPieceUnique(s, sep, e, LastPiece(s, sep));
  }

  /** The text after the last `sep` is free of `sep` and is either all of `s`
      (exactly when `sep` does not occur) or preceded by a `sep`. */
  lemma LastPieceIsFinal(s: string, sep: char)
    ensures IsFinalPiece(s, sep, LastPiece(s, sep))
    ensures sep !in s ==> LastPiece(s, sep) == s
  {
    var e := LastPiece(s, sep);
    match LastIndexOf(s, sep)
    case None =>
    case Some(k) =>
      assert |s| - |e| - 1 == k;
      forall i | 0 <= i < |e| ensures e[i] != sep {
        assert e[i] == s[k + 1 + i];
      }
  }

  function LowerChar(c: char): char {
    if 'A' <= c <= 'Z' then (c as int + 32) as char else c
  }

  /** `s.lower()` on the ASCII letters. */
  function Lower(s: string): (r: string)
    ensures |r| == |s|
    ensures forall i :: 0 <= i < |s| ==> r[i] == LowerChar(s[i])
  {
    seq(|s|, i requires 0 <= i < |s| => LowerChar(s[i]))
  }

  /** Lower-casing never introduces a character that is not an ASCII
      capital's image, so a dot-free text stays dot-free. */
  lemma LowerKeepsDotFree(s: string)
    requires '.' !in s
    ensures '.' !in Lower(s)
  {
    var r := Lower(s);
    forall i | 0 <= i < |r| ensures r[i] != '.' {
      assert s[i] != '.';
    }
  }

  /** Python's `k in s` for two strings, tested from the front of `s`. */
  function Contains(s: string, k: string): (found: bool)
    decreases |s|
  {
    if |k| > |s| then false
    else if s[..|k|] == k then true
    else Contains(s[1..], k)
  }

  ghost predicate OccursAt(s: string, k: string, i: int) {
    0 <= i && i + |k| <= |s| && s[i..i + |k|] == k
  }

  /** The substring test holds exactly when `k` occurs at some position. */
  lemma {:induction false} ContainsIff(s: string, k: string)
    ensures Contains(s, k) <==> exists i :: OccursAt(s, k, i)
    decreases |s|
  {
    if |k| > |s| {
    } else if s[..|k|] == k {
      assert OccursAt(s, k, 0);
    } else {
      ContainsIff(s[1..], k);
      if Contains(s[1..], k) {
        var i :| OccursAt(s[1..], k, i);
        assert s[i + 1..i + 1 + |k|] == s[1..][i..i + |k|];
        assert OccursAt(s, k, i + 1);
      } else {
        forall i | OccursAt(s, k, i) ensures false {
          if i == 0 {
          } else {
            assert s[1..][i - 1..i - 1 + |k|] == s[i..i + |k|];
            assert OccursAt(s[1..], k, i - 1);
          }
        }
      }
    }
  }

}
