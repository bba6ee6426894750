/** Python string built-ins that the tools rely on, over Dafny's `string` (a `seq<char>`). */
module Strings {

  /** Python's `str.isspace()` for one character; the regex class `\s` of a str pattern matches the same set. */
  predicate IsSpace(c: char)
  {
    || c == ' ' || c == '\t' || c == '\n' || c == '\r' || c == '\U{000B}' || c == '\U{000C}'
    || ('\U{001C}' <= c <= '\U{001F}') || c == '\U{0085}' || c == '\U{00A0}' || c == '\U{1680}'
    || ('\U{2000}' <= c <= '\U{200A}') || c == '\U{2028}' || c == '\U{2029}' || c == '\U{202F}'
    || c == '\U{205F}' || c == '\U{3000}'
  }

  /** `pat` occurs in `s` starting at index `i`. */
  predicate OccursAt(s: string, pat: string, i: nat)
  {
    i + |pat| <= |s| && s[i..i + |pat|] == pat
  }

  /** Python's `pat in s`. */
  predicate Contains(s: string, pat: string)
  {
    exists i :: 0 <= i <= |s| - |pat| && OccursAt(s, pat, i)
  }

  /** Python's `s.find(pat, from)`: the first index at or after `from` where `pat` occurs, or -1. */
  function FindFrom(s: string, pat: string, from: nat): (r: int)
    ensures r == -1 || (from <= r && OccursAt(s, pat, r))
    ensures r == -1 ==> forall i: nat :: from <= i ==> !OccursAt(s, pat, i)
    ensures r != -1 ==> forall i: nat :: from <= i < r ==> !OccursAt(s, pat, i)
    decreases |s| - from
  {
    if from + |pat| > |s| then -1
    else if s[from..from + |pat|] == pat then from
    else FindFrom(s, pat, from + 1)
  }

  /** An occurrence inside the piece `s[k..k + n]` is an occurrence in `s`, shifted by `k`. */
  lemma OccursInInfix(s: string, k: nat, n: nat, pat: string, i: nat)
    requires k + n <= |s| && OccursAt(s[k..k + n], pat, i)
    ensures OccursAt(s, pat, k + i)
  {
    var p := s[k..k + n];
    forall x | 0 <= x < |pat| ensures s[k + i + x] == pat[x] {
      assert p[i..i + |pat|][x] == pat[x];
    }
    assert s[k + i..k + i + |pat|] == pat;
  }

  /** A character that differs from the pattern's rules out an occurrence. */
  lemma MismatchAt(s: string, pat: string, i: nat, x: nat)
    requires x < |pat| && i + x < |s| && s[i + x] != pat[x]
    ensures !OccursAt(s, pat, i)
  {
  }

  /** The end of the run of whitespace that starts at index `i`. */
  function SpaceRunEnd(s: string, i: nat): (r: nat)
    requires i <= |s|
    ensures i <= r <= |s|
    ensures forall k :: i <= k < r ==> IsSpace(s[k])
    ensures r == |s| || !IsSpace(s[r])
    decreases |s| - i
  {
    if i < |s| && IsSpace(s[i]) then SpaceRunEnd(s, i + 1) else i
  }

  /** The start of the run of whitespace that ends at index `j`, going back no further than `lo`. */
  function SpaceRunStart(s: string, lo: nat, j: nat): (r: nat)
    requires lo <= j <= |s|
    ensures lo <= r <= j
    ensures forall k :: r <= k < j ==> IsSpace(s[k])
    ensures r == lo || !IsSpace(s[r - 1])
    decreases j
  {
    if lo < j && IsSpace(s[j - 1]) then SpaceRunStart(s, lo, j - 1) else j
  }

  /** How many whitespace characters `s.lstrip()` drops. */
  function LeadingSpace(s: string): (k: nat)
    ensures k <= |s|
  {
    SpaceRunEnd(s, 0)
  }

  /** Python's `s.lstrip()`. */
  function StripLeft(s: string): (r: string)
    ensures |r| <= |s| && r == s[|s| - |r|..]
    ensures r == [] || !IsSpace(r[0])
    ensures forall i :: 0 <= i < |s| - |r| ==> IsSpace(s[i])
  {
    s[LeadingSpace(s)..]
  }

  /** No whitespace at either end. */
  predicate Trimmed(s: string)
  {
    s == [] || (!IsSpace(s[0]) && !IsSpace(s[|s| - 1]))
  }

  /** Every character is whitespace (so is the empty text). */
  predicate AllSpace(s: string)
  {
    forall i :: 0 <= i < |s| ==> IsSpace(s[i])
  }

  /** Python's `s.strip()`: the longest infix without whitespace at its ends, obtained by dropping only whitespace. */
  function Strip(s: string): (r: string)
    ensures Trimmed(r)
    ensures var k := LeadingSpace(s);
      && k + |r| <= |s| && s[k..k + |r|] == r
      && (forall i :: 0 <= i < k ==> IsSpace(s[i]))
      && (forall i :: k + |r| <= i < |s| ==> IsSpace(s[i]))
    ensures Trimmed(s) ==> r == s
  {
    var k := LeadingSpace(s);
    var e := SpaceRunStart(s, k, |s|);
    assert k < e ==> !IsSpace(s[k]);
    s[k..e]
  }

  /** `SpaceRunEnd` stops at the first non-whitespace character after a run of whitespace. */
  lemma {:induction false} SpaceRunEndAt(s: string, i: nat, p: nat)
    requires i <= p < |s| && !IsSpace(s[p])
    requires forall q :: i <= q < p ==> IsSpace(s[q])
    ensures SpaceRunEnd(s, i) == p
    decreases p - i
  {
    if i < p {
      SpaceRunEndAt(s, i + 1, p);
    }
  }

  /** `SpaceRunStart` stops just after the last non-whitespace character before a run of whitespace. */
  lemma {:induction false} SpaceRunStartAt(s: string, lo: nat, j: nat, p: nat)
    requires lo < p <= j <= |s| && !IsSpace(s[p - 1])
    requires forall q :: p <= q < j ==> IsSpace(s[q])
    ensures SpaceRunStart(s, lo, j) == p
    decreases j
  {
    if p < j {
      SpaceRunStartAt(s, lo, j - 1, p);
    }
  }

  /** Stripping a trimmed text wrapped in whitespace gives the text back. */
  lemma StripAround(a: string, t: string, b: string)
    requires AllSpace(a) && AllSpace(b) && Trimmed(t)
    ensures Strip(a + t + b) == t
  {
    var x := a + t + b;
    if t == [] {
      AllSpaceAround(a, t, b);
      StripEmpty(x);
    } else {
      LeadOfWrapped(a, t, b);
      TrailOfWrapped(a, t, b);
      assert x[|a|..|a| + |t|] == t;
    }
  }

  lemma AllSpaceAround(a: string, t: string, b: string)
    requires AllSpace(a) && AllSpace(b) && t == []
    ensures AllSpace(a + t + b)
  {
    var x := a + t + b;
    forall i | 0 <= i < |x| ensures IsSpace(x[i]) {
      if i < |a| { assert x[i] == a[i]; } else { assert x[i] == b[i - |a|]; }
    }
  }

  /** The whitespace in front of a text that starts with a non-whitespace character is all `lstrip()` drops. */
  lemma LeadOfWrapped(a: string, t: string, b: string)
    requires AllSpace(a) && t != [] && !IsSpace(t[0])
    ensures LeadingSpace(a + t + b) == |a|
  {
    var x := a + t + b;
    forall q | 0 <= q < |a| ensures IsSpace(x[q]) {
      assert x[q] == a[q];
    }
    assert x[|a|] == t[0];
    SpaceRunEndAt(x, 0, |a|);
  }

  /** Stripping the back of a wrapped text stops at the end of that text. */
  lemma TrailOfWrapped(a: string, t: string, b: string)
    requires AllSpace(b) && t != [] && !IsSpace(t[|t| - 1])
    ensures SpaceRunStart(a + t + b, |a|, |a + t + b|) == |a| + |t|
  {
    var x := a + t + b;
    forall q | |a| + |t| <= q < |x| ensures IsSpace(x[q]) {
      assert x[q] == b[q - |a| - |t|];
    }
    assert x[|a| + |t| - 1] == t[|t| - 1];
    SpaceRunStartAt(x, |a|, |x|, |a| + |t|);
  }

  /** No character is whitespace. */
  predicate NoSpace(s: string)
  {
    forall i :: 0 <= i < |s| ==> !IsSpace(s[i])
  }

  /** The end of the run of non-whitespace characters that starts at index `i`. */
  function WordEnd(s: string, i: nat): (r: nat)
    requires i <= |s|
    ensures i <= r <= |s|
    ensures forall k :: i <= k < r ==> !IsSpace(s[k])
    ensures r == |s| || IsSpace(s[r])
    decreases |s| - i
  {
    if i < |s| && !IsSpace(s[i]) then WordEnd(s, i + 1) else i
  }

  /** Python's `s.split()` without arguments: the maximal runs of non-whitespace characters, in order. */
  function Words(s: string): (ws: seq<string>)
    ensures forall m :: 0 <= m < |ws| ==> ws[m] != [] && NoSpace(ws[m])
    decreases |s|
  {
    var t := StripLeft(s);
    if t == [] then []
    else
      var e := WordEnd(t, 0);
      [t[..e]] + Words(t[e..])
  }

  /** A text has no words exactly when it is all whitespace. */
  lemma WordsEmpty(s: string)
    ensures Words(s) == [] <==> AllSpace(s)
  {
    var t := StripLeft(s);
    if t != [] {
      assert t[0] == s[|s| - |t|];
    }
  }

  /** A text that does not start with whitespace is its own `lstrip()`. */
  lemma StripLeftNoLead(s: string)
    requires s == [] || !IsSpace(s[0])
    ensures StripLeft(s) == s
  {
  }

  /** Python's `sep.join(parts)`. */
  function Join(sep: string, parts: seq<string>): string
  {
    if |parts| == 0 then ""
    else if |parts| == 1 then parts[0]
    else parts[0] + sep + Join(sep, parts[1..])
  }

  /** Joining the first `n` parts and the rest, with one separator between, gives the whole join. */
  lemma {:induction false} JoinSplit(sep: string, ps: seq<string>, n: nat)
    requires 1 <= n < |ps|
    ensures Join(sep, ps[..n]) + sep + Join(sep, ps[n..]) == Join(sep, ps)
  {
    if n == 1 {
      assert ps[..1] == [ps[0]];
      assert ps[1..] == ps[n..];
    } else {
      JoinSplit(sep, ps[1..], n - 1);
      assert ps[..n][1..] == ps[1..][..n - 1];
      assert ps[1..][n - 1..] == ps[n..];
    }
  }

  /** Joining a part in front of a non-empty list puts one separator after it. */
  lemma JoinCons(sep: string, w: string, ws: seq<string>)
    requires ws != []
    ensures Join(sep, [w] + ws) == w + sep + Join(sep, ws)
  {
    assert ([w] + ws)[1..] == ws;
  }

  /** Joining non-empty words without whitespace with spaces gives a non-empty trimmed text. */
  lemma {:induction false} JoinWordsTrimmed(ws: seq<string>)
    requires forall m :: 0 <= m < |ws| ==> ws[m] != [] && NoSpace(ws[m])
    ensures Trimmed(Join(" ", ws))
    ensures ws != [] ==> Join(" ", ws) != [] && Join(" ", ws)[0] == ws[0][0]
  {
    if |ws| == 1 {
    } else if |ws| > 1 {
      JoinWordsTrimmed(ws[1..]);
      var rest := Join(" ", ws[1..]);
      var j := ws[0] + " " + rest;
      assert j[|j| - 1] == rest[|rest| - 1];
      assert j[0] == ws[0][0];
    }
  }

  /** Python's `s.replace(from, to)` for single characters `from` and `to`. */
  function ReplaceChar(s: string, from: char, to: char): (r: string)
    ensures |r| == |s|
    ensures forall i :: 0 <= i < |s| ==> r[i] == if s[i] == from then to else s[i]
  {
    if s == [] then [] else [if s[0] == from then to else s[0]] + ReplaceChar(s[1..], from, to)
  }

  /** Python's slice `s[:n]`, where a negative `n` counts from the end. */
  function PyPrefix<T>(s: seq<T>, n: int): (r: seq<T>)
    ensures |r| <= |s| && r == s[..|r|]
    ensures 0 <= n ==> |r| == if n <= |s| then n else |s|
    ensures n < 0 ==> |r| == if -n <= |s| then |s| + n else 0
  {
    if 0 <= n then (if n <= |s| then s[..n] else s)
    else if -n <= |s| then s[..|s| + n]
    else []
  }

  /** Stripping leaves nothing exactly when the text is all whitespace. */
  lemma StripEmpty(s: string)
    ensures Strip(s) == [] <==> AllSpace(s)
  {
    var r := Strip(s);
    if r != [] {
      assert r[0] == s[LeadingSpace(s)];
    }
  }

  /** The characters of `s` that are not whitespace, in order. */
  function NonSpace(s: string): string
  {
    if s == [] then [] else (if IsSpace(s[0]) then [] else [s[0]]) + NonSpace(s[1..])
  }

  lemma {:induction false} NonSpaceAppend(a: string, b: string)
    ensures NonSpace(a + b) == NonSpace(a) + NonSpace(b)
  {
    if a != [] {
      assert (a + b)[0] == a[0];
      assert (a + b)[1..] == a[1..] + b;
      NonSpaceAppend(a[1..], b);
    } else {
      assert a + b == b;
    }
  }

  lemma {:induction false} NonSpaceAllSpace(s: string)
    requires AllSpace(s)
    ensures NonSpace(s) == []
  {
    if s != [] {
      NonSpaceAllSpace(s[1..]);
    }
  }

  /** Stripping only drops whitespace. */
  lemma StripKeepsNonSpace(s: string)
    ensures NonSpace(Strip(s)) == NonSpace(s)
  {
    var r := Strip(s);
    var k := LeadingSpace(s);
    assert s == s[..k] + r + s[k + |r|..];
    NonSpaceAppend(s[..k] + r, s[k + |r|..]);
    NonSpaceAppend(s[..k], r);
    NonSpaceAllSpace(s[..k]);
    NonSpaceAllSpace(s[k + |r|..]);
  }

  /** Concatenation re-associates; proofs about scans that build their result piece by piece use this step. */
  lemma ConcatAssoc(a: string, b: string, c: string)
    ensures a + (b + c) == a + b + c
  {
  }
}
