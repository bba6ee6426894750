/** The text routines of the console assistant in src/app.py: removing `<think>…</think>` spans from a
    model reply (`clean_response`), and assembling one answer text from the organic results of a
    SerpAPI search that has already been fetched (the part of `web_search` after the request). */
module ChatApp {
  import opened Strings
  import opened PyValues

  const Open: string := "<think>"
  const Close: string := "</think>"

  // ---------------------------------------------------------------------------------------------
  // clean_response, as written

  /** The source loop's condition: both tags occur somewhere in the text. */
  predicate BothTags(t: string)
  {
    Contains(t, Open) && Contains(t, Close)
  }

  /** One iteration of the source loop as written: cut from the first `<think>` up to the end of the
      first `</think>`, wherever that closing tag is. The text gets strictly shorter when the opening
      tag comes first. */
  function SourceStep(t: string): (r: string)
    requires BothTags(t)
    ensures FindFrom(t, Open, 0) < FindFrom(t, Close, 0) ==> |r| < |t|
  {
    var start := FindFrom(t, Open, 0);
    var end := FindFrom(t, Close, 0) + |Close|;
    assert start + |Open| <= |t| && end <= |t|;
    t[..start] + t[end..]
  }

  /** On "</think><think>" both tags are present and one iteration gives back the same text, so the
      source loop never ends. */
  lemma SourceLoopStuck()
    ensures BothTags(Close + Open)
    ensures SourceStep(Close + Open) == Close + Open
  {
    var t := Close + Open;
    assert OccursAt(t, Close, 0);
    assert OccursAt(t, Open, 8);
    MismatchAt(t, Open, 0, 1);
    MismatchAt(t, Open, 1, 0);
    MismatchAt(t, Open, 2, 0);
    MismatchAt(t, Open, 3, 0);
    MismatchAt(t, Open, 4, 0);
    MismatchAt(t, Open, 5, 0);
    MismatchAt(t, Open, 6, 0);
    MismatchAt(t, Open, 7, 0);
    assert FindFrom(t, Open, 0) == 8;
    assert FindFrom(t, Close, 0) == 0;
    assert t[..8] + t[8..] == t;
  }

  /** Every iteration the source loop performs on `t` finds the opening tag before the closing one.
      These are the inputs on which the loop as written terminates. */
  ghost predicate OpensBeforeCloses(t: string)
    decreases |t|
  {
    BothTags(t) ==> FindFrom(t, Open, 0) < FindFrom(t, Close, 0) && OpensBeforeCloses(SourceStep(t))
  }

  /** The text the source loop leaves behind, on the inputs where it terminates. */
  ghost function SourceLoop(t: string): (r: string)
    requires OpensBeforeCloses(t)
    ensures !BothTags(r)
    decreases |t|
  {
    if BothTags(t) then SourceLoop(SourceStep(t)) else t
  }

  // ---------------------------------------------------------------------------------------------
  // clean_response, corrected: the closing tag is looked for after the first opening tag

  /** Some `</think>` occurs at or after the first `<think>`. */
  predicate HasThinkSpan(t: string)
  {
    var start := FindFrom(t, Open, 0);
    start >= 0 && FindFrom(t, Close, start) >= 0
  }

  /** No `<think>` is followed, anywhere later, by a `</think>`. */
  ghost predicate NoSpan(t: string)
  {
    forall i: nat, j: nat :: OccursAt(t, Open, i) && OccursAt(t, Close, j) ==> j < i
  }

  lemma NoSpanIff(t: string)
    ensures !HasThinkSpan(t) <==> NoSpan(t)
  {
    if HasThinkSpan(t) {
      var start := FindFrom(t, Open, 0);
      var j := FindFrom(t, Close, start);
      assert OccursAt(t, Open, start) && OccursAt(t, Close, j) && start <= j;
    }
  }

  /** A piece of a text without spans has no spans. */
  lemma NoSpanInfix(s: string, k: nat, n: nat)
    requires k + n <= |s| && NoSpan(s)
    ensures NoSpan(s[k..k + n])
  {
    var p := s[k..k + n];
    forall i: nat, j: nat | OccursAt(p, Open, i) && OccursAt(p, Close, j) ensures j < i {
      OccursInInfix(s, k, n, Open, i);
      OccursInInfix(s, k, n, Close, j);
    }
  }

  /** One iteration of the corrected loop: cut from the first `<think>` to the end of the first
      `</think>` after it. It always shortens the text, which is what makes the loop terminate. */
  function Step(t: string): (r: string)
    requires HasThinkSpan(t)
    ensures |r| < |t|
  {
    var start := FindFrom(t, Open, 0);
    var end := FindFrom(t, Close, start) + |Close|;
    t[..start] + t[end..]
  }

  /** The text once every span has been cut out. */
  function Clean(t: string): (r: string)
    ensures !HasThinkSpan(r)
    ensures !Contains(t, Open) ==> r == t
    decreases |t|
  {
    if HasThinkSpan(t) then Clean(Step(t)) else t
  }

  /** Wherever the source loop terminates, it leaves the same text as the corrected loop. */
  lemma {:induction false} CleanMatchesSource(t: string)
    requires OpensBeforeCloses(t)
    ensures Clean(t) == SourceLoop(t)
    decreases |t|
  {
    if BothTags(t) {
      var start := FindFrom(t, Open, 0);
      var close := FindFrom(t, Close, 0);
      assert close >= 0 && start >= 0;
      assert FindFrom(t, Close, start) == close;
      assert HasThinkSpan(t);
      assert Step(t) == SourceStep(t);
      CleanMatchesSource(SourceStep(t));
    } else {
      assert !HasThinkSpan(t);
    }
  }

  lemma ContainsInfix(s: string, k: nat, n: nat, pat: string)
    requires k + n <= |s| && Contains(s[k..k + n], pat)
    ensures Contains(s, pat)
  {
    var p := s[k..k + n];
    var i :| 0 <= i <= |p| - |pat| && OccursAt(p, pat, i);
    OccursInInfix(s, k, n, pat, i);
  }

  /** `clean_response` with the closing tag searched for after the opening one. The result has no
      whitespace at its ends and no `<think>` followed by a `</think>`; text without `<think>` only gets
      stripped; and wherever the source's own loop terminates the result is the one it returns. */
  method CleanResponse(text: string) returns (r: string)
    ensures r == Strip(Clean(text))
    ensures Trimmed(r)
    ensures NoSpan(r)
    ensures !Contains(text, Open) ==> r == Strip(text)
  {
    var t := text;
    while HasThinkSpan(t)
      invariant Clean(t) == Clean(text)
      decreases |t|
    {
      var start := FindFrom(t, Open, 0);
      var end := FindFrom(t, Close, start) + |Close|;
      t := t[..start] + t[end..];
    }
    r := Strip(t);
    NoSpanIff(t);
    NoSpanInfix(t, LeadingSpace(t), |r|);
  }

  /** On every input where the source loop terminates, the stripped result does not contain both tags,
      and it is what the source returns. */
  lemma SourceResultHasNoTagPair(text: string)
    requires OpensBeforeCloses(text)
    ensures Strip(Clean(text)) == Strip(SourceLoop(text))
    ensures !BothTags(Strip(Clean(text)))
  {
    CleanMatchesSource(text);
    var t := SourceLoop(text);
    var r := Strip(t);
    if BothTags(r) {
      ContainsInfix(t, LeadingSpace(t), |r|, Open);
      ContainsInfix(t, LeadingSpace(t), |r|, Close);
    }
  }

  // ---------------------------------------------------------------------------------------------
  // web_search: building the answer from organic_results

  /** One entry of `organic_results`, reduced to what `web_search` reads. A missing title, snippet or
      rich snippet is "" (the code reads each with a default of '' or only tests it for truth); each
      section of `about_this_result` is its `description`, or None when it has none. */
  datatype OrganicResult = OrganicResult(
    title: string, snippet: string, richSnippet: string, sections: seq<Option<string>>)

  const NoResults: string := "No results found."

  /** The follow-up loop stops once the joined snippets are this long. */
  const Threshold: nat := 500

  /** The descriptions of the sections that have one, in order. */
  function Descriptions(sections: seq<Option<string>>): seq<string>
  {
    if sections == [] then []
    else
      var last := sections[|sections| - 1];
      Descriptions(sections[..|sections| - 1]) + (if last.Some? then [last.value] else [])
  }

  /** The parts gathered from the first result, before the follow-up loop. */
  function LeadParts(first: OrganicResult): seq<string>
  {
    var parts := if first.snippet != "" then [first.snippet] else [];
    var parts := if first.richSnippet != "" && first.richSnippet !in parts then parts + [first.richSnippet] else parts;
    parts + Descriptions(first.sections)
  }

  /** The follow-up loop from index `i` on: while the joined text is shorter than the threshold and
      results remain, add the next snippet unless it is empty or already a part. */
  function FollowUp(results: seq<OrganicResult>, parts: seq<string>, i: nat): seq<string>
    decreases |results| - i
  {
    if |Join(" ", parts)| < Threshold && i < |results| then
      var next := results[i].snippet;
      FollowUp(results, if next != "" && next !in parts then parts + [next] else parts, i + 1)
    else parts
  }

  /** What `web_search` returns for the given organic results. */
  function Answer(results: seq<OrganicResult>): seq<string>
  {
    if |results| == 0 then [NoResults]
    else [results[0].title + "\n" + Strip(Join(" ", FollowUp(results, LeadParts(results[0]), 1)))]
  }

  /** The body of `web_search` after the request, over the fetched `organic_results`. The answer is
      always one text, and it is the fixed "no results" text exactly when there are no results. */
  method WebSearchAnswer(results: seq<OrganicResult>) returns (answer: seq<string>)
    ensures answer == Answer(results)
    ensures |answer| == 1
    ensures answer == [NoResults] <==> |results| == 0
  {
    if |results| == 0 {
      return [NoResults];
    }
    var first := results[0];
    var title := first.title;
    var parts: seq<string> := [];
    if first.snippet != "" {
      parts := parts + [first.snippet];
    }
    if first.richSnippet != "" && first.richSnippet !in parts {
      parts := parts + [first.richSnippet];
    }
    ghost var head := parts;
    for k := 0 to |first.sections|
      invariant parts == head + Descriptions(first.sections[..k])
    {
      assert first.sections[..k + 1][..k] == first.sections[..k];
      if first.sections[k].Some? {
        parts := parts + [first.sections[k].value];
      }
    }
    assert first.sections[..|first.sections|] == first.sections;
    assert parts == LeadParts(first);
    var i := 1;
    while |Join(" ", parts)| < Threshold && i < |results|
      invariant 1 <= i <= |results|
      invariant FollowUp(results, parts, i) == FollowUp(results, LeadParts(first), 1)
      decreases |results| - i
    {
      var next := results[i].snippet;
      if next != "" && next !in parts {
        parts := parts + [next];
      }
      i := i + 1;
    }
    answer := [title + "\n" + Strip(Join(" ", parts))];
    AnswerShape(results);
  }

  lemma AnswerShape(results: seq<OrganicResult>)
    ensures |Answer(results)| == 1
    ensures Answer(results) == [NoResults] <==> |results| == 0
  {
    if |results| > 0 {
      var a := Answer(results)[0];
      assert a[|results[0].title|] == '\n';
      assert '\n' !in NoResults;
    }
  }

  /** The rich snippet becomes a part of its own exactly when it is non-empty and differs from the
      snippet; the parts taken from the first result before its sections are non-empty and distinct. */
  lemma RichSnippetRule(first: OrganicResult)
    ensures var head := (if first.snippet != "" then [first.snippet] else [])
                        + (if first.richSnippet != "" && first.richSnippet != first.snippet then [first.richSnippet] else []);
      && LeadParts(first) == head + Descriptions(first.sections)
      && (forall m :: 0 <= m < |head| ==> head[m] != "")
      && (|head| == 2 ==> head[0] != head[1])
  {
  }

  /** The follow-up loop keeps the parts it starts with and adds, in order, only non-empty snippets of
      results at index `i` or later that are not already parts. */
  lemma {:induction false} FollowUpAdds(results: seq<OrganicResult>, parts: seq<string>, i: nat)
    ensures var r := FollowUp(results, parts, i);
      && |parts| <= |r| && r[..|parts|] == parts
      && forall m :: |parts| <= m < |r| ==>
           && r[m] != "" && r[m] !in r[..m]
           && exists k :: i <= k < |results| && results[k].snippet == r[m]
    decreases |results| - i
  {
    if |Join(" ", parts)| < Threshold && i < |results| {
      var next := results[i].snippet;
      var parts' := if next != "" && next !in parts then parts + [next] else parts;
      FollowUpAdds(results, parts', i + 1);
      var r := FollowUp(results, parts, i);
      assert r == FollowUp(results, parts', i + 1);
      assert r[..|parts'|][..|parts|] == r[..|parts|];
      forall m | |parts| <= m < |r|
        ensures r[m] != "" && r[m] !in r[..m]
        ensures exists k :: i <= k < |results| && results[k].snippet == r[m]
      {
        if m < |parts'| {
          assert r[m] == next && r[..m] == parts;
        }
      }
    }
  }

  /** The follow-up loop stops as soon as the joined text reaches the threshold: whatever it adds is
      added while the text is still shorter, so only the last snippet can carry it past. */
  lemma {:induction false} FollowUpStopsAtThreshold(results: seq<OrganicResult>, parts: seq<string>, i: nat)
    ensures var r := FollowUp(results, parts, i);
      |r| > |parts| ==> |Join(" ", r[..|r| - 1])| < Threshold
    decreases |results| - i
  {
    if |Join(" ", parts)| < Threshold && i < |results| {
      var next := results[i].snippet;
      var parts' := if next != "" && next !in parts then parts + [next] else parts;
      FollowUpAdds(results, parts', i + 1);
      FollowUpStopsAtThreshold(results, parts', i + 1);
      var r := FollowUp(results, parts, i);
      if |r| == |parts'| && |parts'| > |parts| {
        assert r == parts';
        assert r[..|r| - 1] == parts;
      }
    }
  }

  /** The follow-up loop only stops short of the threshold when it has looked at every remaining
      result: then every non-empty snippet from index `i` on is among the parts. */
  lemma {:induction false} FollowUpExhausts(results: seq<OrganicResult>, parts: seq<string>, i: nat)
    ensures var r := FollowUp(results, parts, i);
      |Join(" ", r)| < Threshold ==>
        forall k :: i <= k < |results| && results[k].snippet != "" ==> results[k].snippet in r
    decreases |results| - i
  {
    if |Join(" ", parts)| < Threshold && i < |results| {
      var next := results[i].snippet;
      var parts' := if next != "" && next !in parts then parts + [next] else parts;
      FollowUpExhausts(results, parts', i + 1);
      FollowUpAdds(results, parts', i + 1);
      var r := FollowUp(results, parts, i);
      assert r == FollowUp(results, parts', i + 1);
      if next != "" {
        assert next in parts';
        assert next in r[..|parts'|];
      }
    }
  }
}
