/**
 Python's `str` operations as the application uses them: the `in` test,
 `find`, `rfind`, `split` with an explicit separator, `join`, `strip()`
 and list indexing (which raises IndexError past the end).
 */
module PyStr {
  import opened Optional

  /** `c.isspace()`: the characters Python's `str.strip()` removes by default. */
  predicate IsSpace(c: char) {
    || ('\t' <= c <= '\r')
    || ('\U{1c}' <= c <= ' ')
    || c == '\U{85}' || c == '\U{a0}' || c == '\U{1680}'
    || ('\U{2000}' <= c <= '\U{200a}')
    || c == '\U{2028}' || c == '\U{2029}' || c == '\U{202f}' || c == '\U{205f}'
    || c == '\U{3000}'
  }

  ghost predicate AllSpace(s: string) {
    forall i :: 0 <= i < |s| ==> IsSpace(s[i])
  }

  /** `sep` sits in `s` starting at index `i`. */
  ghost predicate OccursAt(s: string, sep: string, i: int) {
    0 <= i && i + |sep| <= |s| && s[i..i + |sep|] == sep
  }

  /** `t` sits in `s` starting at index `a`. */
  ghost predicate SubstringAt(t: string, s: string, a: int) {
    0 <= a && a + |t| <= |s| && s[a..a + |t|] == t
  }

  ghost predicate IsSubstring(t: string, s: string) {
    exists a :: SubstringAt(t, s, a)
  }

  /** `s.find(sep, k)`: the first occurrence at or after `k`. */
  function FindFrom(s: string, sep: string, k: nat): (r: Option<nat>)
    requires k <= |s|
    ensures r.Some? ==> k <= r.value && OccursAt(s, sep, r.value)
    ensures r.Some? ==> forall j :: k <= j < r.value ==> !OccursAt(s, sep, j)
    ensures r.None? ==> forall j :: k <= j ==> !OccursAt(s, sep, j)
    decreases |s| - k
  {
    if k + |sep| > |s| then None
    else if s[k..k + |sep|] == sep then Some(k)
    else FindFrom(s, sep, k + 1)
  }

  /** `s.find(sep)`, with None for Python's -1. */
  function Find(s: string, sep: string): (r: Option<nat>)
    ensures r.Some? <==> exists i :: OccursAt(s, sep, i)
    ensures r.Some? ==> OccursAt(s, sep, r.value) && forall j :: 0 <= j < r.value ==> !OccursAt(s, sep, j)
  {
    FindFrom(s, sep, 0)
  }

  /** Python's `sep in s`. */
  function Contains(s: string, sep: string): (b: bool)
    ensures b <==> exists i :: OccursAt(s, sep, i)
  {
    Find(s, sep).Some?
  }

  /** The text before the first `sep`, or all of `s` when there is none. */
  function Before(s: string, sep: string): (r: string)
    requires |sep| > 0
    ensures |r| <= |s| && r == s[..|r|]
    ensures !Contains(r, sep)
    ensures Contains(s, sep) <==> |r| < |s|
  {
    match Find(s, sep)
    case None => s
    case Some(i) =>
      assert forall j :: OccursAt(s[..i], sep, j) ==> OccursAt(s, sep, j) && j < i by {
        forall j | OccursAt(s[..i], sep, j) ensures OccursAt(s, sep, j) && j < i {
          assert s[..i][j..j + |sep|] == s[j..j + |sep|];
        }
      }
      s[..i]
  }

  /** `sep.join(pieces)`. */
  function Join(pieces: seq<string>, sep: string): string
  {
    if |pieces| == 0 then ""
    else if |pieces| == 1 then pieces[0]
    else pieces[0] + sep + Join(pieces[1..], sep)
  }

  /** `s.split(sep)` for a non-empty separator (Python raises ValueError on an empty one). */
  function Split(s: string, sep: string): (r: seq<string>)
    requires |sep| > 0
    ensures |r| >= 1
    ensures |r| >= 2 <==> Contains(s, sep)
    ensures forall k :: 0 <= k < |r| ==> !Contains(r[k], sep)
    ensures Join(r, sep) == s
    decreases |s|
  {
    match Find(s, sep)
    case None => [s]
    case Some(i) =>
      var rest := Split(s[i + |sep|..], sep);
      assert Before(s, sep) == s[..i];
      assert s == s[..i] + sep + s[i + |sep|..];
      [s[..i]] + rest
  }

  /** Python list indexing `xs[k]` for k >= 0: None is the IndexError. */
  function At<T>(xs: seq<T>, k: nat): (r: Option<T>)
    ensures r.Some? <==> k < |xs|
    ensures r.Some? ==> r.value == xs[k]
  {
    if k < |xs| then Some(xs[k]) else None
  }

  /** `s.split(sep)[0]` is the text before the first separator, and `s.split(sep)[1]`
      the text between the first and the second (or the end). */
  lemma SplitPieces(s: string, sep: string)
    requires |sep| > 0
    ensures Split(s, sep)[0] == Before(s, sep)
    ensures Contains(s, sep) ==>
      Split(s, sep)[1] == Before(s[Find(s, sep).value + |sep|..], sep)
  {
    match Find(s, sep)
    case None =>
    case Some(i) =>
      var rest := s[i + |sep|..];
      assert Split(s, sep) == [s[..i]] + Split(rest, sep);
      match Find(rest, sep)
      case None =>
      case Some(j) =>
        assert Split(rest, sep) == [rest[..j]] + Split(rest[j + |sep|..], sep);
  }

  /** A separator that does not straddle the end of `a` is first found right after `a`. */
  lemma {:induction false} FindAfterPrefix(a: string, sep: string, b: string)
    requires |sep| > 0
    requires !Contains(a + sep[..|sep| - 1], sep)
    ensures Find(a + sep + b, sep) == Some(|a|)
  {
    var s := a + sep + b;
    assert OccursAt(s, sep, |a|) by { assert s[|a|..|a| + |sep|] == sep; }
    forall j | 0 <= j < |a| ensures !OccursAt(s, sep, j) {
      if OccursAt(s, sep, j) {
        var t := a + sep[..|sep| - 1];
        assert s[j..j + |sep|] == t[j..j + |sep|];
        assert OccursAt(t, sep, j);
        assert false;
      }
    }
  }

  /** Cutting `a + sep + b` at its first `sep` gives back `a`, when no `sep` straddles the end of `a`. */
  lemma BeforeFirst(a: string, sep: string, b: string)
    requires |sep| > 0
    requires !Contains(a + sep[..|sep| - 1], sep)
    ensures Before(a + sep + b, sep) == a
  {
    FindAfterPrefix(a, sep, b);
    assert (a + sep + b)[..|a|] == a;
  }

  /** For a one-character separator, `in` is plain membership. */
  lemma ContainsChar(s: string, c: char)
    ensures Contains(s, [c]) <==> c in s
  {
    if c in s {
      var i :| 0 <= i < |s| && s[i] == c;
      assert OccursAt(s, [c], i) by { assert s[i..i + 1] == [c]; }
    }
    forall i | OccursAt(s, [c], i) ensures s[i] == c {
      assert s[i..i + 1][0] == s[i];
    }
  }

  /** A piece of a string that contains no `sep` contains no `sep` either. */
  lemma SubstringKeepsAbsence(t: string, s: string, sep: string)
    requires IsSubstring(t, s)
    requires !Contains(s, sep)
    ensures !Contains(t, sep)
  {
    var a :| SubstringAt(t, s, a);
    forall j | OccursAt(t, sep, j) ensures OccursAt(s, sep, a + j) {
      assert t[j..j + |sep|] == s[a..a + |t|][j..j + |sep|];
      var u, v := s[a + j..a + j + |sep|], t[j..j + |sep|];
      forall k | 0 <= k < |sep| ensures u[k] == v[k] {
        assert t[j + k] == s[a + j + k];
      }
    }
  }

  /** `s.lstrip()` */
  function LStrip(s: string): (r: string)
    ensures |r| <= |s| && r == s[|s| - |r|..]
    ensures forall i :: 0 <= i < |s| - |r| ==> IsSpace(s[i])
    ensures r == [] || !IsSpace(r[0])
  {
    if |s| > 0 && IsSpace(s[0]) then
      var r := LStrip(s[1..]);
      assert forall i :: 0 < i < |s| - |r| ==> s[i] == s[1..][i - 1];
      r
    else s
  }

  /** `s.rstrip()` */
  function RStrip(s: string): (r: string)
    ensures |r| <= |s| && r == s[..|r|]
    ensures forall i :: |r| <= i < |s| ==> IsSpace(s[i])
    ensures r == [] || !IsSpace(r[|r| - 1])
  {
    if |s| > 0 && IsSpace(s[|s| - 1]) then
      var r := RStrip(s[..|s| - 1]);
      assert forall i :: |r| <= i < |s| - 1 ==> s[i] == s[..|s| - 1][i];
      r
    else s
  }

  /** `s.strip()`: the text between the leading and the trailing whitespace. */
  function Strip(s: string): (r: string)
    ensures IsSubstring(r, s)
    ensures r == [] || (!IsSpace(r[0]) && !IsSpace(r[|r| - 1]))
    ensures r == [] <==> AllSpace(s)
  {
    var l := LStrip(s);
    var r := RStrip(l);
    CutFacts(s, l, r);
    r
  }

  /** What the two cuts of `strip()` give together: a piece of `s` with no
      whitespace at its ends, empty exactly when `s` is all whitespace. */
  lemma CutFacts(s: string, l: string, r: string)
    requires |l| <= |s| && l == s[|s| - |l|..]
    requires forall i :: 0 <= i < |s| - |l| ==> IsSpace(s[i])
    requires l == [] || !IsSpace(l[0])
    requires |r| <= |l| && r == l[..|r|]
    requires forall i :: |r| <= i < |l| ==> IsSpace(l[i])
    ensures IsSubstring(r, s)
    ensures r == [] || !IsSpace(r[0])
    ensures r == [] <==> AllSpace(s)
  {
    var a := |s| - |l|;
    assert SubstringAt(r, s, a) by { assert l[..|r|] == s[a..a + |r|]; }
    if r == [] {
      SpacesAroundCut(s, a);
    } else {
      assert r[0] == l[0] == s[a];
    }
  }

  /** Whitespace before a cut and after it makes all of `s` whitespace. */
  lemma SpacesAroundCut(s: string, a: nat)
    requires a <= |s|
    requires forall i :: 0 <= i < a ==> IsSpace(s[i])
    requires forall i :: 0 <= i < |s| - a ==> IsSpace(s[a..][i])
    ensures AllSpace(s)
  {
    forall i | a <= i < |s| ensures IsSpace(s[i]) {
      assert s[i] == s[a..][i - a];
    }
  }

  /** Stripping removes exactly the surrounding whitespace and nothing inside. */
  lemma {:induction false} StripPadded(p: string, t: string, q: string)
    requires AllSpace(p) && AllSpace(q)
    requires t == [] || (!IsSpace(t[0]) && !IsSpace(t[|t| - 1]))
    ensures Strip(p + t + q) == t
  {
    if t == [] {
      assert p + t + q == p + q;
      assert AllSpace(p + q) by {
        forall i | 0 <= i < |p + q| ensures IsSpace((p + q)[i]) {
          if i < |p| { assert (p + q)[i] == p[i]; } else { assert (p + q)[i] == q[i - |p|]; }
        }
      }
    } else {
      assert p + t + q == p + (t + q);
      LStripPadded(p, t + q);
      RStripPadded(t, q);
    }
  }

  lemma {:induction false} LStripPadded(p: string, u: string)
    requires AllSpace(p)
    requires u == [] || !IsSpace(u[0])
    ensures LStrip(p + u) == u
  {
    if p != [] {
      assert (p + u)[1..] == p[1..] + u;
      LStripPadded(p[1..], u);
    }
  }

  lemma {:induction false} RStripPadded(t: string, q: string)
    requires AllSpace(q)
    requires t == [] || !IsSpace(t[|t| - 1])
    ensures RStrip(t + q) == t
  {
    if q != [] {
      assert (t + q)[..|t + q| - 1] == t + q[..|q| - 1];
      RStripPadded(t, q[..|q| - 1]);
    } else {
      assert t + q == t;
    }
  }

  /** Stripping twice is stripping once. */
  lemma StripIdempotent(s: string)
    ensures Strip(Strip(s)) == Strip(s)
  {
    var t := Strip(s);
    assert Strip([] + t + []) == t by { StripPadded([], t, []); }
    assert [] + t + [] == t;
  }

  /** `s.rfind(c)` for a single character. */
  function RFindChar(s: string, c: char): (r: Option<nat>)
    ensures r.Some? ==> r.value < |s| && s[r.value] == c
    ensures r.Some? ==> forall j :: r.value < j < |s| ==> s[j] != c
    ensures r.None? ==> c !in s
  {
    if |s| == 0 then None
    else if s[|s| - 1] == c then Some(|s| - 1)
    else RFindChar(s[..|s| - 1], c)
  }
}
