/** The result formatter of `SerpAPISearchTool` (main/tools/search_web.py): the organic results of a
    Google search become a Markdown list of at most `max_results` entries. */
module SerpSearch {
  import opened Strings
  import opened PyValues

  /** One organic result, with the three fields the formatter reads; None when the record lacks one. */
  datatype SerpItem = SerpItem(title: Option<string>, link: Option<string>, snippet: Option<string>)

  /** The default of the constructor's `max_results`. */
  const DefaultMaxResults: int := 2

  const Header: string := "## Search Results\n\n"
  const Separator: string := "\n\n"
  const NoResultsFound: string := "No results found!"

  /** What `forward` does: return a text, or raise an exception carrying a message. */
  datatype Outcome = Returned(text: string) | Raised(message: string)

  /** One entry: `[title](link)` on a line, then the snippet; a missing title reads "No Title", a
      missing link or snippet is empty. */
  function FormatItem(item: SerpItem): string
  {
    "[" + item.title.GetOr("No Title") + "](" + item.link.GetOr("") + ")\n" + item.snippet.GetOr("")
  }

  /** The shown title can be read back: it is what stands between the opening `[` and the first `]`,
      as long as the title holds no `]` itself; and the entry ends with the snippet. */
  lemma FormatItemReadsBack(item: SerpItem)
    requires forall i :: 0 <= i < |item.title.GetOr("No Title")| ==> item.title.GetOr("No Title")[i] != ']'
    ensures var t := item.title.GetOr("No Title");
      && FormatItem(item)[0] == '['
      && FindFrom(FormatItem(item), "]", 1) == 1 + |t|
      && FormatItem(item)[1..1 + |t|] == t
    ensures var s := item.snippet.GetOr(""); s <= FormatItem(item)[|FormatItem(item)| - |s|..]
  {
    var t := item.title.GetOr("No Title");
    var r := FormatItem(item);
    assert r == "[" + t + ("](" + item.link.GetOr("") + ")\n" + item.snippet.GetOr(""));
    forall i: nat | 1 <= i < 1 + |t| ensures !OccursAt(r, "]", i) {
      assert r[i] == t[i - 1];
      MismatchAt(r, "]", i, 0);
    }
    assert OccursAt(r, "]", 1 + |t|);
  }

  /** A record with none of the fields still gives an entry. */
  lemma EmptyItem()
    ensures FormatItem(SerpItem(None, None, None)) == "[No Title]()\n"
  {
  }

  /** The formatted entries, one per record, in order. */
  function Entries(items: seq<SerpItem>): (r: seq<string>)
    ensures |r| == |items|
    ensures forall k :: 0 <= k < |items| ==> r[k] == FormatItem(items[k])
  {
    if items == [] then [] else [FormatItem(items[0])] + Entries(items[1..])
  }

  /** `forward(query)` after the request: `organic` is the "organic_results" field of the response,
      None when it is absent. */
  function Forward(organic: Option<seq<SerpItem>>, maxResults: int): (r: Outcome)
    ensures r.Raised? <==> organic.GetOr([]) == []
    ensures r.Raised? ==> r.message == NoResultsFound
    ensures r.Returned? ==> Header <= r.text
  {
    var results := organic.GetOr([]);
    if results == [] then Raised(NoResultsFound)
    else Returned(Header + Join(Separator, Entries(PyPrefix(results, maxResults))))
  }

  /** For a limit `n >= 0` the entries shown are those of the first `n` results (all of them when there
      are fewer), each formatted from the record at the same place. */
  lemma ShownFromTheFront(items: seq<SerpItem>, maxResults: int)
    requires items != [] && maxResults >= 0
    ensures var shown := Entries(PyPrefix(items, maxResults));
      && |shown| == (if maxResults <= |items| then maxResults else |items|)
      && (forall k :: 0 <= k < |shown| ==> shown[k] == FormatItem(items[k]))
      && Forward(Some(items), maxResults) == Returned(Header + Join(Separator, shown))
  {
  }

  /** With the default limit, one result gives one entry and two or more give exactly the first two,
      separated by a blank line. */
  lemma DefaultShowsTwo(items: seq<SerpItem>)
    requires items != []
    ensures |items| == 1 ==> Forward(Some(items), DefaultMaxResults) == Returned(Header + FormatItem(items[0]))
    ensures |items| >= 2 ==>
      Forward(Some(items), DefaultMaxResults) == Returned(Header + FormatItem(items[0]) + Separator + FormatItem(items[1]))
  {
    var shown := Entries(PyPrefix(items, DefaultMaxResults));
    if |items| >= 2 {
      assert shown == [FormatItem(items[0]), FormatItem(items[1])];
      assert shown[1..] == [FormatItem(items[1])];
      assert Join(Separator, shown) == FormatItem(items[0]) + Separator + FormatItem(items[1]);
    } else {
      assert shown == [FormatItem(items[0])];
    }
  }

  /** A limit of zero shows the header alone, and a negative limit drops results from the end, as a
      Python slice does. */
  lemma UnusualLimits(items: seq<SerpItem>)
    requires items != []
    ensures Forward(Some(items), 0) == Returned(Header)
    ensures Forward(Some(items), -1) == Returned(Header + Join(Separator, Entries(items[..|items| - 1])))
  {
    assert Header + "" == Header;
  }
}
