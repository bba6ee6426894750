/** `WikipediaSearchTool.forward` (main/tools/wikipedia_search.py) after its requests: the first search
    hit names the article, its URL is built from the title, and the article's paragraphs are joined,
    stripped, put on one line and cut to 5000 characters. Every failure is a text of its own. */
module WikipediaSearch {
  import opened Strings
  import opened PyValues

  const ArticlePrefix: string := "https://en.wikipedia.org/wiki/"
  const MaxChars: nat := 5000
  const Ellipsis: string := "..."

  const SearchFailed: string := "Search failed: "
  const FetchFailed: string := "Failed to fetch article: "
  const ProcessFailed: string := "Could not process the Wikipedia page content: "
  const NoContent: string := "Could not extract readable content from: "

  function NotFound(query: string): string
  {
    "No Wikipedia page found for '" + query + "'."
  }

  /** `page_url`: the prefix, then the title with every space turned into `_`. */
  function PageUrl(title: string): (r: string)
    ensures ArticlePrefix <= r && |r| == |ArticlePrefix| + |title|
    ensures forall i :: 0 <= i < |title| ==>
      r[|ArticlePrefix| + i] == (if title[i] == ' ' then '_' else title[i])
  {
    ArticlePrefix + ReplaceChar(title, ' ', '_')
  }

  /** The part after the prefix holds no space, and two titles give the same URL exactly when they
      agree everywhere up to spaces and underscores. */
  lemma PageUrlShape(title: string, other: string)
    ensures forall i :: |ArticlePrefix| <= i < |PageUrl(title)| ==> PageUrl(title)[i] != ' '
    ensures PageUrl(title) == PageUrl(other) <==>
      |title| == |other| && forall i :: 0 <= i < |title| ==>
        (title[i] == other[i] || (title[i] in {' ', '_'} && other[i] in {' ', '_'}))
  {
    var u, v := PageUrl(title), PageUrl(other);
    forall i | |ArticlePrefix| <= i < |u| ensures u[i] != ' ' {
      assert u[i] == u[|ArticlePrefix| + (i - |ArticlePrefix|)];
    }
    if |title| == |other| && forall i :: 0 <= i < |title| ==>
        (title[i] == other[i] || (title[i] in {' ', '_'} && other[i] in {' ', '_'})) {
      forall i | 0 <= i < |u| ensures u[i] == v[i] {
        if i >= |ArticlePrefix| {
          assert u[|ArticlePrefix| + (i - |ArticlePrefix|)] == v[|ArticlePrefix| + (i - |ArticlePrefix|)];
        }
      }
    }
    if u == v {
      forall i | 0 <= i < |title|
        ensures title[i] == other[i] || (title[i] in {' ', '_'} && other[i] in {' ', '_'})
      {
        assert u[|ArticlePrefix| + i] == v[|ArticlePrefix| + i];
      }
    }
  }

  /** `trimmed_text`: the paragraph texts joined by spaces, stripped, with newlines turned into spaces,
      and cut to `MaxChars` characters. */
  function Trimmed5000(paragraphs: seq<string>): (r: string)
    ensures |r| <= MaxChars
    ensures forall i :: 0 <= i < |r| ==> r[i] != '\n'
    ensures r != [] ==> !IsSpace(r[0])
    ensures r == [] <==> AllSpace(Join(" ", paragraphs))
  {
    var text := Join(" ", paragraphs);
    TrimFacts(text);
    PyPrefix(ReplaceChar(Strip(text), '\n', ' '), MaxChars)
  }

  /** The trimming of any text: short, on one line, not starting with whitespace, and empty exactly
      when the text is all whitespace. */
  lemma TrimFacts(text: string)
    ensures var r := PyPrefix(ReplaceChar(Strip(text), '\n', ' '), MaxChars);
      && |r| <= MaxChars
      && (forall i :: 0 <= i < |r| ==> r[i] != '\n')
      && (r != [] ==> !IsSpace(r[0]))
      && (r == [] <==> AllSpace(text))
  {
    var stripped := Strip(text);
    assert stripped != [] ==> stripped[0] == text[LeadingSpace(text)];
    StripEmpty(text);
    var line := ReplaceChar(stripped, '\n', ' ');
    var r := PyPrefix(line, MaxChars);
    assert |r| == if |line| <= MaxChars then |line| else MaxChars;
    assert r == [] <==> stripped == [];
  }

  /** Below the limit nothing is cut: the text is the stripped join with its newlines replaced; above
      it exactly the first `MaxChars` characters are kept. */
  lemma TrimmedKeepsPrefix(paragraphs: seq<string>)
    ensures var line := ReplaceChar(Strip(Join(" ", paragraphs)), '\n', ' ');
      && Trimmed5000(paragraphs) <= line
      && (|line| <= MaxChars ==> Trimmed5000(paragraphs) == line)
      && (|line| > MaxChars ==> |Trimmed5000(paragraphs)| == MaxChars)
  {
  }

  /** What happened to the article page: the fetch failed, parsing failed, or the texts of its `<p>`
      elements came back. */
  datatype Page = FetchError(reason: string) | ParseError(message: string) | Paragraphs(texts: seq<string>)

  /** `forward(query)`, given the outcome of the search request (the titles of the hits) and of the
      page request. */
  function Forward(query: string, search: Fetch<seq<string>>, page: Page): (r: string)
    ensures search.Failed? ==> r == SearchFailed + search.reason
    ensures search == Fetched([]) ==> r == NotFound(query)
    ensures search.Fetched? && search.value != [] ==>
      var url := PageUrl(search.value[0]);
      match page
      case FetchError(e) => r == FetchFailed + url + "\n" + e
      case ParseError(e) => r == ProcessFailed + e
      case Paragraphs(ps) =>
        if Trimmed5000(ps) == [] then r == NoContent + url
        else |r| <= MaxChars + |Ellipsis| && r == Trimmed5000(ps) + Ellipsis
  {
    match search
    case Failed(e) => SearchFailed + e
    case Fetched(titles) =>
      if titles == [] then NotFound(query)
      else
        var url := PageUrl(titles[0]);
        match page
        case FetchError(e) => FetchFailed + url + "\n" + e
        case ParseError(e) => ProcessFailed + e
        case Paragraphs(ps) =>
          var trimmed := Trimmed5000(ps);
          if trimmed == [] then NoContent + url else trimmed + Ellipsis
  }

  /** An article whose paragraphs hold only whitespace is reported as unreadable; any other ends with
      the ellipsis, stays within 5003 characters and carries no newline before the ellipsis. */
  lemma ArticleReply(query: string, title: string, ps: seq<string>)
    ensures AllSpace(Join(" ", ps)) ==>
      Forward(query, Fetched([title]), Paragraphs(ps)) == NoContent + PageUrl(title)
    ensures !AllSpace(Join(" ", ps)) ==>
      var r := Forward(query, Fetched([title]), Paragraphs(ps));
      && |r| <= MaxChars + 3 && r[|r| - 3..] == Ellipsis
      && forall i :: 0 <= i < |r| - 3 ==> r[i] != '\n'
  {
    var r := Forward(query, Fetched([title]), Paragraphs(ps));
    var t := Trimmed5000(ps);
    if t != [] {
      assert r == t + Ellipsis;
      assert forall i :: 0 <= i < |r| - 3 ==> r[i] == t[i];
    }
  }
}
