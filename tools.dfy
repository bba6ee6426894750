/** The three tools of main/tools.py: `final_answer`, `multiplyer`, and the text handling of
    `search_web`, which turns the paragraphs of the first search hit's page into a short summary. */
module Tools {
  import opened Strings
  import opened PyValues

  /** `final_answer(answer)`: the answer is handed back untouched. */
  function FinalAnswer(answer: string): (r: string)
    ensures r == answer
  {
    answer
  }

  /** `multiplyer(a, b)`: the product of two (unbounded, as in Python) integers. */
  function Multiplyer(a: int, b: int): (r: int)
    ensures r == a * b
  {
    a * b
  }

  // ---------------------------------------------------------------------------------------------
  // Article text: join the non-empty paragraphs, collapse whitespace runs, strip

  /** Every whitespace character is a plain space and stands alone. */
  predicate Collapsed(s: string)
  {
    && (forall i :: 0 <= i < |s| && IsSpace(s[i]) ==> s[i] == ' ')
    && (forall i, j :: 0 <= i < |s| && 0 <= j < |s| && j == i + 1 ==> !(IsSpace(s[i]) && IsSpace(s[j])))
  }

  /** `re.sub(r'\s+', ' ', s)`. */
  function Collapse(s: string): (r: string)
    ensures s != [] ==> r != [] && r[0] == if IsSpace(s[0]) then ' ' else s[0]
    decreases |s|
  {
    if s == [] then []
    else if IsSpace(s[0]) then " " + Collapse(StripLeft(s))
    else [s[0]] + Collapse(s[1..])
  }

  /** Collapsing only shortens whitespace runs: the other characters stay, in order. */
  lemma {:induction false} CollapseKeepsNonSpace(s: string)
    ensures NonSpace(Collapse(s)) == NonSpace(s)
    decreases |s|
  {
    if s != [] {
      if IsSpace(s[0]) {
        var l := StripLeft(s);
        CollapseKeepsNonSpace(l);
        NonSpaceAppend(" ", Collapse(l));
        assert s == s[..|s| - |l|] + l;
        NonSpaceAppend(s[..|s| - |l|], l);
        NonSpaceAllSpace(s[..|s| - |l|]);
        NonSpaceAllSpace(" ");
      } else {
        CollapseKeepsNonSpace(s[1..]);
        NonSpaceAppend([s[0]], Collapse(s[1..]));
        assert s == [s[0]] + s[1..];
        NonSpaceAppend([s[0]], s[1..]);
      }
    }
  }

  /** A run of non-whitespace characters passes through collapsing unchanged. */
  lemma {:induction false} CollapseWord(w: string, u: string)
    requires NoSpace(w)
    ensures Collapse(w + u) == w + Collapse(u)
  {
    if w != [] {
      assert (w + u)[0] == w[0];
      assert (w + u)[1..] == w[1..] + u;
      CollapseWord(w[1..], u);
    } else {
      assert w + u == u;
    }
  }

  /** The single space that collapsing leaves in front: one when `s` starts with whitespace. */
  function LeadSpace(s: string): (r: string)
    ensures AllSpace(r)
  {
    if s != [] && IsSpace(s[0]) then " " else ""
  }

  /** The single space that collapsing leaves behind: one when `s` ends with whitespace after a word. */
  function TrailSpace(s: string): (r: string)
    ensures AllSpace(r)
  {
    if Words(s) != [] && IsSpace(s[|s| - 1]) then " " else ""
  }

  /** Leading whitespace contributes no word. */
  lemma WordsSkipSpace(s: string)
    requires s != [] && IsSpace(s[0])
    ensures |StripLeft(s)| < |s| && Words(s) == Words(StripLeft(s))
  {
    StripLeftNoLead(StripLeft(s));
  }

  /** A text that starts with a word has that word first. */
  lemma WordsFirst(s: string)
    requires s != [] && !IsSpace(s[0])
    ensures Words(s) == [s[..WordEnd(s, 0)]] + Words(s[WordEnd(s, 0)..])
  {
    StripLeftNoLead(s);
  }

  /** The full shape of `re.sub(r'\s+', ' ', s)`: the words of `s` separated by single spaces, with one
      space in front when `s` starts with whitespace and one behind when it ends with whitespace after a
      word. */
  lemma {:induction false} CollapseShape(s: string)
    ensures Collapse(s) == LeadSpace(s) + Join(" ", Words(s)) + TrailSpace(s)
    decreases |s|, 1
  {
    if s != [] && IsSpace(s[0]) {
      var t := StripLeft(s);
      WordsSkipSpace(s);
      CollapseShapeWord(t);
      SpaceThenRest(s, t);
    } else {
      CollapseShapeWord(s);
      assert LeadSpace(s) + Join(" ", Words(s)) == Join(" ", Words(s));
    }
  }

  /** The shape of collapsing, for a text that does not start with whitespace. */
  lemma {:induction false} CollapseShapeWord(s: string)
    requires s == [] || !IsSpace(s[0])
    ensures Collapse(s) == Join(" ", Words(s)) + TrailSpace(s)
    decreases |s|, 0
  {
    if s != [] {
      var e := WordEnd(s, 0);
      var u := s[e..];
      if u == [] {
        LastWord(s);
      } else {
        CollapseShape(u);
        WordsEmpty(u);
        if Words(u) == [] {
          WordThenSpace(s);
        } else {
          WordThenWords(s);
        }
      }
    }
  }

  /** What collapsing and splitting into words do with the first word `s[..e]` of `s`. */
  lemma FirstWordFacts(s: string, e: nat)
    requires s != [] && !IsSpace(s[0]) && e == WordEnd(s, 0)
    ensures Collapse(s) == s[..e] + Collapse(s[e..])
    ensures Words(s) == [s[..e]] + Words(s[e..])
    ensures e < |s| ==> IsSpace(s[e]) && s[|s| - 1] == s[e..][|s| - e - 1]
  {
    CollapseSplit(s, e);
    WordsFirst(s);
  }

  /** Collapsing passes a prefix without whitespace through unchanged. */
  lemma CollapseSplit(s: string, e: nat)
    requires e <= |s| && NoSpace(s[..e])
    ensures Collapse(s) == s[..e] + Collapse(s[e..])
  {
    var w, u := s[..e], s[e..];
    CollapseWord(w, u);
    assert w + u == s;
  }

  /** A text that is one word collapses to itself. */
  lemma LastWord(s: string)
    requires s != [] && !IsSpace(s[0]) && WordEnd(s, 0) == |s|
    ensures Collapse(s) == Join(" ", Words(s)) + TrailSpace(s)
  {
    var e := WordEnd(s, 0);
    FirstWordFacts(s, e);
    assert s[e..] == [];
    assert Words(s) == [s[..e]];
    assert s[|s| - 1] == s[..e][e - 1];
    assert Collapse(s) == s[..e] + "";
  }

  /** A word followed only by whitespace collapses to the word and one space. */
  lemma WordThenSpace(s: string)
    requires s != [] && !IsSpace(s[0]) && WordEnd(s, 0) < |s|
    requires var u := s[WordEnd(s, 0)..];
      Words(u) == [] && AllSpace(u) && Collapse(u) == LeadSpace(u) + Join(" ", Words(u)) + TrailSpace(u)
    ensures Collapse(s) == Join(" ", Words(s)) + TrailSpace(s)
  {
    var e := WordEnd(s, 0);
    var u := s[e..];
    FirstWordFacts(s, e);
    assert LeadSpace(u) == " " && TrailSpace(u) == "";
    assert Collapse(u) == " ";
    assert Words(s) == [s[..e]];
    assert IsSpace(u[|u| - 1]);
    assert TrailSpace(s) == " ";
  }

  /** A word followed by further words: one space between it and the collapse of the rest. */
  lemma WordThenWords(s: string)
    requires s != [] && !IsSpace(s[0]) && WordEnd(s, 0) < |s|
    requires var u := s[WordEnd(s, 0)..];
      Words(u) != [] && Collapse(u) == LeadSpace(u) + Join(" ", Words(u)) + TrailSpace(u)
    ensures Collapse(s) == Join(" ", Words(s)) + TrailSpace(s)
  {
    var e := WordEnd(s, 0);
    var w, u := s[..e], s[e..];
    FirstWordFacts(s, e);
    var j := Join(" ", Words(u));
    var t := TrailSpace(u);
    assert LeadSpace(u) == " ";
    TrailSpaceAfterWord(s, e);
    JoinCons(" ", w, Words(u));
    calc {
      Collapse(s);
      w + Collapse(u);
      w + (" " + j + t);
      { ConcatAssoc(w, " " + j, t); ConcatAssoc(w, " ", j); }
      w + " " + j + t;
      Join(" ", Words(s)) + TrailSpace(s);
    }
  }

  /** Leading whitespace collapses to one space in front of the collapse of the rest. */
  lemma SpaceThenRest(s: string, t: string)
    requires s != [] && IsSpace(s[0]) && t == StripLeft(s) && Words(s) == Words(t)
    requires Collapse(t) == Join(" ", Words(t)) + TrailSpace(t)
    ensures Collapse(s) == LeadSpace(s) + Join(" ", Words(s)) + TrailSpace(s)
  {
    TrailSpaceSkip(s, t);
    assert Collapse(s) == " " + Collapse(t);
    ConcatAssoc(" ", Join(" ", Words(t)), TrailSpace(t));
  }

  lemma TrailSpaceAfterWord(s: string, e: nat)
    requires e < |s| && Words(s) == [s[..e]] + Words(s[e..]) && Words(s[e..]) != []
    ensures TrailSpace(s) == TrailSpace(s[e..])
  {
    LastOfSuffix(s, e);
  }

  lemma TrailSpaceSkip(s: string, t: string)
    requires s != [] && t == StripLeft(s) && Words(s) == Words(t)
    ensures TrailSpace(s) == TrailSpace(t)
  {
    if t != [] {
      LastOfSuffix(s, |s| - |t|);
    }
  }

  /** The last character of a non-empty suffix is the last character of the text. */
  lemma LastOfSuffix(s: string, k: nat)
    requires k < |s|
    ensures s[k..][|s| - k - 1] == s[|s| - 1]
  {
  }

  /** Collapsing and then stripping leaves the words of the text separated by single spaces: a space
      stands between two words exactly where whitespace did. */
  lemma CollapseStrip(s: string)
    ensures Strip(Collapse(s)) == Join(" ", Words(s))
  {
    CollapseShape(s);
    JoinWordsTrimmed(Words(s));
    StripAround(LeadSpace(s), Join(" ", Words(s)), TrailSpace(s));
  }

  /** Two single-spaced texts put together stay single-spaced unless whitespace meets whitespace. */
  lemma AppendCollapsed(a: string, b: string)
    requires Collapsed(a) && Collapsed(b)
    requires a == [] || b == [] || !IsSpace(a[|a| - 1]) || !IsSpace(b[0])
    ensures Collapsed(a + b)
  {
    var c := a + b;
    forall i | 0 <= i < |c| && IsSpace(c[i]) ensures c[i] == ' ' {
      if i < |a| { assert c[i] == a[i]; } else { assert c[i] == b[i - |a|]; }
    }
    forall i, j | 0 <= i < |c| && 0 <= j < |c| && j == i + 1 ensures !(IsSpace(c[i]) && IsSpace(c[j])) {
      if j < |a| {
        assert c[i] == a[i] && c[j] == a[j];
      } else if i >= |a| {
        assert c[i] == b[i - |a|] && c[j] == b[j - |a|];
      } else {
        assert c[i] == a[|a| - 1] && c[j] == b[0];
      }
    }
  }

  /** Collapsing leaves every whitespace character a lone plain space. */
  lemma {:induction false} CollapseIsCollapsed(s: string)
    ensures Collapsed(Collapse(s))
    decreases |s|
  {
    if s != [] {
      if IsSpace(s[0]) {
        var t := StripLeft(s);
        assert |t| < |s|;
        CollapseIsCollapsed(t);
        AppendCollapsed(" ", Collapse(t));
      } else {
        CollapseIsCollapsed(s[1..]);
        AppendCollapsed([s[0]], Collapse(s[1..]));
      }
    }
  }

  /** Words joined by single spaces are single-spaced. */
  lemma {:induction false} JoinWordsCollapsed(ws: seq<string>)
    requires forall m :: 0 <= m < |ws| ==> ws[m] != [] && NoSpace(ws[m])
    ensures Collapsed(Join(" ", ws))
  {
    if |ws| == 1 {
      assert Collapsed(ws[0]);
    } else if |ws| > 1 {
      JoinWordsCollapsed(ws[1..]);
      JoinWordsTrimmed(ws[1..]);
      assert Collapsed(ws[0]);
      AppendCollapsed(ws[0], " ");
      AppendCollapsed(ws[0] + " ", Join(" ", ws[1..]));
    }
  }

  lemma CollapsedInfix(s: string, k: nat, n: nat)
    requires k + n <= |s| && Collapsed(s)
    ensures Collapsed(s[k..k + n])
  {
    var p := s[k..k + n];
    forall i | 0 <= i < |p| && IsSpace(p[i]) ensures p[i] == ' ' {
      assert p[i] == s[k + i];
    }
    forall i, j | 0 <= i < |p| && 0 <= j < |p| && j == i + 1 ensures !(IsSpace(p[i]) && IsSpace(p[j])) {
      assert p[i] == s[k + i] && p[j] == s[k + j];
    }
  }

  /** All the paragraphs run together. */
  function Concat(ps: seq<string>): string
  {
    if ps == [] then "" else ps[0] + Concat(ps[1..])
  }

  /** The paragraphs whose text is not empty, in order. */
  function NonEmpty(ps: seq<string>): (r: seq<string>)
    ensures forall m :: 0 <= m < |r| ==> r[m] != ""
    ensures |ps| == 1 ==> r == if ps[0] != "" then ps else []
  {
    if ps == [] then [] else (if ps[0] != "" then [ps[0]] else []) + NonEmpty(ps[1..])
  }

  /** The filter works item by item, so the kept texts stay in their original order. */
  lemma {:induction false} NonEmptyAppend(a: seq<string>, b: seq<string>)
    ensures NonEmpty(a + b) == NonEmpty(a) + NonEmpty(b)
  {
    if a == [] {
      assert a + b == b;
    } else {
      assert (a + b)[0] == a[0] && (a + b)[1..] == a[1..] + b;
      NonEmptyAppend(a[1..], b);
    }
  }

  lemma {:induction false} ConcatNonEmpty(ps: seq<string>)
    ensures Concat(NonEmpty(ps)) == Concat(ps)
  {
    if ps != [] {
      ConcatNonEmpty(ps[1..]);
      var rest := NonEmpty(ps[1..]);
      if ps[0] != "" {
        assert NonEmpty(ps) == [ps[0]] + rest;
        assert ([ps[0]] + rest)[1..] == rest;
      } else {
        assert NonEmpty(ps) == rest;
      }
    }
  }

  lemma {:induction false} JoinKeepsNonSpace(ps: seq<string>)
    ensures NonSpace(Join(" ", ps)) == NonSpace(Concat(ps))
  {
    if |ps| == 1 {
      assert ps[1..] == [];
      assert Concat(ps[1..]) == "";
      assert ps[0] + "" == ps[0];
    } else if |ps| > 1 {
      JoinKeepsNonSpace(ps[1..]);
      NonSpaceAppend(ps[0] + " ", Join(" ", ps[1..]));
      NonSpaceAppend(ps[0], " ");
      NonSpaceAllSpace(" ");
      NonSpaceAppend(ps[0], Concat(ps[1..]));
    }
  }

  /** `article_text` of `search_web`, from the texts of the page's paragraphs: the words of the
      non-empty paragraphs, joined by spaces, separated by single spaces. */
  function ArticleText(ps: seq<string>): (r: string)
    ensures r == Join(" ", Words(Join(" ", NonEmpty(ps))))
  {
    CollapseStrip(Join(" ", NonEmpty(ps)));
    Strip(Collapse(Join(" ", NonEmpty(ps))))
  }

  /** The article text is single-spaced with no whitespace at its ends, and holds exactly the
      non-whitespace characters of the paragraphs, in order. */
  lemma ArticleTextShape(ps: seq<string>)
    ensures Collapsed(ArticleText(ps)) && Trimmed(ArticleText(ps))
    ensures NonSpace(ArticleText(ps)) == NonSpace(Concat(ps))
  {
    var c := Collapse(Join(" ", NonEmpty(ps)));
    JoinWordsCollapsed(Words(Join(" ", NonEmpty(ps))));
    JoinWordsTrimmed(Words(Join(" ", NonEmpty(ps))));
    StripKeepsNonSpace(c);
    CollapseKeepsNonSpace(Join(" ", NonEmpty(ps)));
    JoinKeepsNonSpace(NonEmpty(ps));
    ConcatNonEmpty(ps);
  }

  // ---------------------------------------------------------------------------------------------
  // Summary: re.split(r'(?<=[.!?]) +', text), then the first five pieces joined by spaces

  predicate Terminator(c: char)
  {
    c == '.' || c == '!' || c == '?'
  }

  /** The split pattern matches at `k`: a space right after a sentence terminator. */
  predicate BreakAt(s: string, k: nat)
  {
    1 <= k < |s| && Terminator(s[k - 1]) && s[k] == ' '
  }

  /** The first index at or after `from` where the split pattern matches, or -1. */
  function FirstBreak(s: string, from: nat): (r: int)
    ensures r == -1 || (from <= r && BreakAt(s, r))
    ensures r == -1 ==> forall k: nat :: from <= k ==> !BreakAt(s, k)
    ensures r != -1 ==> forall k: nat :: from <= k < r ==> !BreakAt(s, k)
    decreases |s| - from
  {
    if from >= |s| then -1
    else if BreakAt(s, from) then from
    else FirstBreak(s, from + 1)
  }

  /** The end of the run of spaces that starts at `j`. */
  function SpacesEnd(s: string, j: nat): (e: nat)
    requires j <= |s|
    ensures j <= e <= |s|
    ensures forall x :: j <= x < e ==> s[x] == ' '
    ensures e == |s| || s[e] != ' '
    decreases |s| - j
  {
    if j < |s| && s[j] == ' ' then SpacesEnd(s, j + 1) else j
  }

  /** A prefix that ends before the first break holds no break. */
  lemma NoBreakBefore(s: string, k: nat)
    requires k <= |s|
    requires forall j: nat :: 1 <= j < k ==> !BreakAt(s, j)
    ensures forall j: nat :: !BreakAt(s[..k], j)
  {
    forall j: nat | BreakAt(s[..k], j) ensures BreakAt(s, j) {
      assert s[..k][j - 1] == s[j - 1] && s[..k][j] == s[j];
    }
  }

  /** The pieces `re.split` produces. Every piece but the last ends with a sentence terminator, and no
      piece holds a place where the pattern matches, so the text is split at every break. */
  function Sentences(s: string): (r: seq<string>)
    ensures |r| >= 1
    ensures forall m :: 0 <= m < |r| - 1 ==> r[m] != "" && Terminator(r[m][|r[m]| - 1])
    ensures forall m, j: nat :: 0 <= m < |r| ==> !BreakAt(r[m], j)
    decreases |s|
  {
    var k := FirstBreak(s, 1);
    if k < 0 then
      NoBreakBefore(s, |s|);
      assert s[..|s|] == s;
      [s]
    else
      NoBreakBefore(s, k);
      [s[..k]] + Sentences(s[SpacesEnd(s, k)..])
  }

  /** On single-spaced text, splitting drops exactly one space per break, so joining restores it. */
  lemma {:induction false} JoinSentences(s: string)
    requires Collapsed(s)
    ensures Join(" ", Sentences(s)) == s
    decreases |s|
  {
    var k := FirstBreak(s, 1);
    if k >= 0 {
      assert IsSpace(s[k]);
      assert k + 1 < |s| ==> !IsSpace(s[k + 1]);
      assert SpacesEnd(s, k) == SpacesEnd(s, k + 1);
      var e := SpacesEnd(s, k);
      assert e == k + 1;
      var rest := s[e..];
      CollapsedInfix(s, e, |s| - e);
      assert s[e..e + (|s| - e)] == rest;
      JoinSentences(rest);
      var r := Sentences(s);
      assert r == [s[..k]] + Sentences(rest);
      assert r[1..] == Sentences(rest);
      assert s == s[..k] + " " + rest;
    }
  }

  /** Joining the first `n` parts gives a prefix of joining them all. */
  lemma {:induction false} JoinPrefix(sep: string, ps: seq<string>, n: nat)
    requires n <= |ps|
    ensures Join(sep, ps[..n]) <= Join(sep, ps)
  {
    if n >= 2 {
      JoinPrefix(sep, ps[1..], n - 1);
      assert ps[..n][1..] == ps[1..][..n - 1];
    } else if n == 1 && |ps| > 1 {
      assert Join(sep, ps[..1]) == ps[0];
    }
  }

  /** `summary`: the first five pieces of the split, joined by spaces. */
  function Summary(text: string): string
  {
    Join(" ", PyPrefix(Sentences(text), 5))
  }

  /** On single-spaced text the summary is a prefix of the text made of at most five sentences, and
      it is the whole text when there are no more than five. */
  lemma SummaryIsPrefix(text: string)
    requires Collapsed(text)
    ensures Summary(text) <= text
    ensures |PyPrefix(Sentences(text), 5)| <= 5
    ensures |Sentences(text)| <= 5 ==> Summary(text) == text
    ensures |Sentences(text)| > 5 ==>
      Summary(text) == Join(" ", Sentences(text)[..5])
      && Summary(text) + " " + Join(" ", Sentences(text)[5..]) == text
  {
    var ss := Sentences(text);
    var kept := PyPrefix(ss, 5);
    assert kept == ss[..|kept|];
    JoinSentences(text);
    JoinPrefix(" ", ss, |kept|);
    if |ss| <= 5 {
      assert kept == ss;
    } else {
      JoinSplit(" ", ss, 5);
    }
  }

  /** The summary of an article is a single-spaced prefix of it. */
  lemma ArticleSummary(ps: seq<string>)
    ensures Summary(ArticleText(ps)) <= ArticleText(ps)
    ensures Collapsed(Summary(ArticleText(ps)))
  {
    var text := ArticleText(ps);
    JoinWordsCollapsed(Words(Join(" ", NonEmpty(ps))));
    SummaryIsPrefix(text);
    CollapsedInfix(text, 0, |Summary(text)|);
    assert text[0..|Summary(text)|] == Summary(text);
  }

  // ---------------------------------------------------------------------------------------------
  // search_web after its requests

  const SearchFailed: string := "Search or scraping failed: "
  const NoValidLink: string := "No valid link found in search results."
  /** The text of the IndexError that `[0]` raises on an empty list. */
  const IndexOutOfRange: string := "list index out of range"

  /** `search_web` given the outcome of the SerpAPI request (the `link` of each organic result, None
      when it has none) and the outcome of fetching the first link (the texts of its paragraphs).
      Every failure comes back as a text starting with the failure prefix, never as an exception; a
      successful fetch gives the summary of the article text, a prefix of it. */
  function SearchWeb(search: Fetch<seq<Option<string>>>, page: Fetch<seq<string>>): (r: string)
    ensures search.Failed? ==> r == SearchFailed + search.reason
    ensures search == Fetched([]) ==> r == SearchFailed + IndexOutOfRange
    ensures search.Fetched? && search.value != [] ==>
      var link := search.value[0];
      if link == None || link == Some("") then r == NoValidLink
      else if page.Failed? then r == SearchFailed + page.reason
      else r == Summary(ArticleText(page.value)) && r <= ArticleText(page.value) && Collapsed(r)
  {
    match search
    case Failed(e) => SearchFailed + e
    case Fetched(links) =>
      if links == [] then SearchFailed + IndexOutOfRange
      else if links[0] == None || links[0] == Some("") then NoValidLink
      else
        match page
        case Failed(e) => SearchFailed + e
        case Fetched(ps) =>
          ArticleSummary(ps);
          Summary(ArticleText(ps))
  }

  /** The "no valid link" text cannot be mistaken for a failure report. */
  lemma NoValidLinkIsNotFailure()
    ensures !(SearchFailed <= NoValidLink)
  {
    assert NoValidLink[0] == 'N' && SearchFailed[0] == 'S';
  }
}
