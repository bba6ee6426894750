# A verified model of the assistant's text and dispatch routines

The repository is a small voice/console assistant built on a local language model. Around the network
and model calls it has a handful of self-contained routines, and this project models them in Dafny
and proves what they promise:

- **src/app.py**
  - `clean_response` cuts `<think>…</think>` spans out of a model reply and strips the reply (module `ChatApp`).
  - The body of `web_search` after the HTTP request builds one answer text from the organic results of a SerpAPI search (module `ChatApp`, method `WebSearchAnswer`, with the loops of the original).
- **main/agent.py**: the guard of `SafeToolCallingAgent.call_tool` refuses malformed calls, then calls to unknown tools, and only then delegates (module `Agent`).
- **main/tools.py**
  - `final_answer` and `multiplyer` (module `Tools`).
  - `search_web` after its requests (module `Tools`): the non-empty paragraph texts are joined, whitespace runs collapse to one space, the text is stripped, split into sentences, and the first five are kept.
- **main/tools/calculator.py**: `CalculatorTool.forward` up to the evaluation (module `Calculator`).
  - The expression is lower-cased.
  - Number words are replaced by operators, whole words only and longest key first, in a loop over the sorted keys.
  - Every character outside the arithmetic alphabet is dropped.
  - An evaluation error comes back as an `"Error: "` text.
- **main/tools/search_web.py**: the Markdown formatter of `SerpAPISearchTool.forward` (module `SerpSearch`).
- **main/tools/wikipedia_search.py**: URL building, text trimming and the error texts of `WikipediaSearchTool.forward` (module `WikipediaSearch`).
- **main/tools/outlook_email.py**: `is_valid_email` and the argument defaulting of `forward` (module `OutlookEmail`).
  - The pattern in `is_valid_email` is the raw string `[^@]+@[^@]+\\.[^@]+`, so after the `@` part it demands a literal backslash.
  - The model keeps this behaviour and proves its consequence: an address without a backslash, such as "a@b.com", is rejected and replaced by the default address.

Two shared modules support them:
- `Strings` holds Python's `str.find`, `strip`, `lstrip`, `split` and `join`, single-character `replace`, the slice `s[:n]` and the `isspace` character set.
- `PyValues` holds the dynamically typed Python values the tools receive, `Option`, and `Fetch` (the outcome of a call into the outside world: data, or the text of the exception).

Every network request, the SMTP exchange, HTML parsing and `eval` become parameters that carry their
outcome: the data they produced or the text of the exception they raised.

## Model

| member | source | states |
|---|---|---|
| `Strings.FindFrom` | src/app.py:72-73 | `str.find`: -1 exactly when the pattern does not occur at or after the start index, otherwise the first index where it occurs |
| `Strings.Strip` | src/app.py:75 | `str.strip`: the result has no whitespace at either end, is the infix left after dropping only whitespace on both sides, and a text already trimmed is returned as is |
| `Strings.StripEmpty` | main/tools/wikipedia_search.py:45-48 | stripping leaves nothing exactly when every character is whitespace |
| `Strings.StripKeepsNonSpace` | main/tools.py:79 | stripping keeps every non-whitespace character, in order |
| `Strings.ReplaceChar` | main/tools/wikipedia_search.py:33 | `replace` of one character: same length, the old character replaced at every position and nothing else changed |
| `Strings.StripLeft` | main/tools.py:79 | `lstrip()`: the result is a suffix that does not start with whitespace, and everything dropped in front of it is whitespace; it is the run one `\s+` match consumes |
| `Strings.StripAround` | main/tools.py:79 | stripping a trimmed text with only whitespace around it gives exactly that text |
| `Strings.Join` | main/tools.py:78 | `sep.join(parts)`, defined by cases on the list; no contract of its own, its properties are `Strings.JoinSplit` and `Tools.JoinPrefix` |
| `Strings.JoinSplit` | main/tools.py:82 | for `0 < n <` the number of parts, the join of the first `n` parts, a separator, and the join of the rest is the join of all parts |
| `Strings.Words` | main/tools.py:78-79 | the maximal runs of non-whitespace characters, each non-empty and free of whitespace |
| `Strings.WordsEmpty` | main/tools.py:79 | a text has no words exactly when it is all whitespace |
| `Strings.PyPrefix` | main/tools.py:82 | the slice `s[:n]` is a prefix with `min(n, len)` elements for `n >= 0`, and for negative `n` drops `-n` elements from the end (all of them if there are fewer) |
| `ChatApp.SourceStep` | src/app.py:72-74 | one iteration of the loop as written (closing tag searched from the start): it shortens the text when the first `<think>` comes before the first `</think>` |
| `ChatApp.SourceLoopStuck` | src/app.py:71-74 | on "</think><think>" the loop condition holds and an iteration returns the same text, so the loop as written never ends |
| `ChatApp.SourceLoop` | src/app.py:71-74 | on the inputs where every iteration sees the opening tag first, the loop as written ends with a text that lacks one of the two tags |
| `ChatApp.NoSpanIff` | src/app.py:71-74 | "no `</think>` at or after the first `<think>`" is the same as "no `<think>` followed anywhere later by a `</think>`" |
| `ChatApp.Step` | src/app.py:72-74 | one iteration of the corrected loop strictly shortens the text, which is its termination measure |
| `ChatApp.Clean` | src/app.py:71-74 | after the corrected loop no `<think>…</think>` span is left, and a text without `<think>` is unchanged |
| `ChatApp.CleanMatchesSource` | src/app.py:71-74 | on every input where the loop as written terminates, the corrected loop leaves the same text |
| `ChatApp.CleanResponse` | src/app.py:70-75 | the corrected `clean_response` loop: the result is trimmed, holds no `<think>` followed by a `</think>`, is the stripped input when the input has no `<think>`, and is the stripped result of the full clean-up |
| `ChatApp.SourceResultHasNoTagPair` | src/app.py:71-75 | wherever the loop as written terminates, its stripped result equals the corrected one and does not contain both tags |
| `ChatApp.LeadParts` | src/app.py:26-39 | the parts from the first result: its snippet if non-empty, its rich snippet if non-empty and not yet a part, then every section description; no contract of its own, stated by `ChatApp.RichSnippetRule` |
| `ChatApp.FollowUp` | src/app.py:41-46 | the follow-up loop as a recursive reference; no contract of its own, stated by `ChatApp.FollowUpAdds`, `ChatApp.FollowUpStopsAtThreshold` and `ChatApp.FollowUpExhausts` |
| `ChatApp.Answer` | src/app.py:21-49 | the reference answer of `web_search`; no contract of its own, stated by `ChatApp.AnswerShape` and met by `ChatApp.WebSearchAnswer` |
| `ChatApp.WebSearchAnswer` | src/app.py:21-49 | the loops of `web_search` compute the reference answer; the answer is always one text, and it is "No results found." exactly when there are no results |
| `ChatApp.AnswerShape` | src/app.py:21-49 | the reference answer has one element, and it is the fixed no-results text exactly for an empty result list (otherwise it holds the newline after the title) |
| `ChatApp.RichSnippetRule` | src/app.py:29-39 | the first result contributes its snippet if non-empty, then its rich snippet only if non-empty and different from the snippet, then every section description; the two lead parts are non-empty and distinct |
| `ChatApp.FollowUpAdds` | src/app.py:41-46 | the follow-up loop keeps the earlier parts and adds only non-empty snippets, not already present, of results at index `i` or later (so it never reads past the end) |
| `ChatApp.FollowUpStopsAtThreshold` | src/app.py:42 | every snippet the loop adds is added while the joined text is still shorter than 500 characters |
| `ChatApp.FollowUpExhausts` | src/app.py:42-46 | if the final joined text is shorter than 500 characters, every non-empty snippet of the remaining results is among the parts |
| `Agent.CallTool` | main/agent.py:21-31 | a call is delegated exactly when the name is a string, the input a dict and the name registered, with name and arguments unchanged; otherwise the reply is the exact malformed-call text or the exact unknown-tool text |
| `Agent.RefusalsDiffer` | main/agent.py:24-28 | the unknown-tool text never equals the malformed-call text |
| `Agent.MalformedBeforeUnknown` | main/agent.py:22-28 | the malformed check comes first: an unregistered name with a non-dict input gets the malformed-call text, not the unknown-tool text |
| `Agent.AgentDispatch` | main/agent.py:36-40 | with the agent's registry exactly `multiplyer`, `search_web` and `final_answer` are delegated; "calculator" gets "Tool 'calculator' does not exist." |
| `Tools.FinalAnswer` | main/tools.py:9-20 | the answer is returned unchanged |
| `Tools.Multiplyer` | main/tools.py:23-34 | the result is the product of the two (unbounded) integers |
| `Tools.Collapse` | main/tools.py:79 | `re.sub(r'\s+', ' ', s)`, scanning left to right; its own contract states that the first character is kept, or made a space when it was whitespace |
| `Tools.CollapseShape` | main/tools.py:79 | collapsing gives the words of the text joined by single spaces, with one space in front exactly when the text starts with whitespace and one behind exactly when it ends with whitespace after a word |
| `Tools.CollapseIsCollapsed` | main/tools.py:79 | after collapsing, every whitespace character is a plain space with no whitespace next to it |
| `Tools.CollapseStrip` | main/tools.py:79 | collapsing and then stripping gives the words joined by single spaces, so a space stands between two words exactly where whitespace did |
| `Tools.CollapseKeepsNonSpace` | main/tools.py:79 | collapsing keeps every non-whitespace character, in order |
| `Tools.NonEmpty` | main/tools.py:78 | the filter keeps only non-empty paragraph texts, and on one text keeps it exactly when it is not empty |
| `Tools.NonEmptyAppend` | main/tools.py:78 | the filter works text by text over a concatenation, so it keeps the non-empty texts in their order and nothing else |
| `Tools.ConcatNonEmpty` | main/tools.py:78 | dropping the empty texts loses no character |
| `Tools.JoinKeepsNonSpace` | main/tools.py:78 | joining with spaces adds only whitespace |
| `Tools.ArticleText` | main/tools.py:78-79 | the article text is the words of the non-empty paragraph texts, joined by spaces, separated by single spaces |
| `Tools.ArticleTextShape` | main/tools.py:78-79 | the article text is single-spaced, has no whitespace at its ends, and holds exactly the non-whitespace characters of the paragraphs, in order |
| `Tools.FirstBreak` | main/tools.py:81 | the first place at or after an index where one or more spaces follow `.`, `!` or `?`, or -1 when there is none |
| `Tools.SpacesEnd` | main/tools.py:81 | the end of a run of spaces: everything up to it is a space and the character there is not |
| `Tools.Sentences` | main/tools.py:81 | `re.split(r'(?<=[.!?]) +', s)` gives at least one piece, every piece but the last is non-empty and ends with a terminator, and no piece holds a place where the pattern matches |
| `Tools.JoinSentences` | main/tools.py:81 | on single-spaced text, joining the pieces with spaces gives the text back |
| `Tools.JoinPrefix` | main/tools.py:82 | joining the first `n` pieces gives a prefix of joining them all |
| `Tools.Summary` | main/tools.py:81-82 | the first five pieces of the split joined by spaces; no contract of its own, its properties are `Tools.SummaryIsPrefix` |
| `Tools.SummaryIsPrefix` | main/tools.py:81-82 | on single-spaced text the summary is a prefix made of at most five pieces; it is the whole text when there are no more than five, and otherwise exactly the first five pieces, followed in the text by one space and the join of the rest |
| `Tools.ArticleSummary` | main/tools.py:78-82 | the summary of an article is a single-spaced prefix of the article text |
| `Tools.SearchWeb` | main/tools.py:61-87 | every failure, including an empty result list, is a text starting "Search or scraping failed: "; a first result without a link gives "No valid link found in search results."; otherwise the result is the summary of the article text, a single-spaced prefix of it |
| `Tools.NoValidLinkIsNotFailure` | main/tools.py:68-69 | the no-link text does not start with the failure prefix |
| `Calculator.Lower` | main/tools/calculator.py:29 | `lower()`: same length, each character lower-cased |
| `Calculator.SubWithoutMatch` | main/tools/calculator.py:33 | where the key never occurs as a whole word the substitution changes nothing |
| `Calculator.SubFrom` | main/tools/calculator.py:33 | the left-to-right scan of `re.sub` from an index; no contract of its own, its properties are `Calculator.SubWithoutMatch` and `Calculator.SubAtFirstMatch` |
| `Calculator.Sub` | main/tools/calculator.py:33 | `re.sub(rf'\b{word}\b', op, expr)` as the scan from index 0; no contract of its own |
| `Calculator.SubAtFirstMatch` | main/tools/calculator.py:33 | the text up to the first whole-word occurrence is copied, the occurrence becomes the operator, and the scan resumes right after it |
| `Calculator.WholeWordsOnly` | main/tools/calculator.py:33 | `x` inside "2x3" and "max" stays; "2 x 3" becomes "2 * 3" |
| `Calculator.ByDecreasingLength` | main/tools/calculator.py:31 | `sorted(replacements, key=lambda x: -len(x))` as insertion from the end; no contract of its own, its properties are `Calculator.SortPermutes`, `Calculator.SortedByLength` and `Calculator.InsertAt` |
| `Calculator.InsertPermutes` | main/tools/calculator.py:31 | inserting into the sorted list adds exactly the one entry |
| `Calculator.SortPermutes` | main/tools/calculator.py:31 | the sort is a permutation of the table |
| `Calculator.InsertKeepsOrder` | main/tools/calculator.py:31 | inserting keeps the keys in decreasing length |
| `Calculator.SortedByLength` | main/tools/calculator.py:31 | the sorted keys have decreasing length |
| `Calculator.InsertAt` | main/tools/calculator.py:31 | an entry is placed after every key at least as long as its own, which makes the sort stable |
| `Calculator.TableOrder` | main/tools/calculator.py:31 | for any table with the key lengths of the dictionary, the sort gives the positions 7, 4, 8, 5, 6, 1, 3, 0, 2, 9 |
| `Calculator.ReplacementOrder` | main/tools/calculator.py:17-31 | the loop visits "multiplied by", "divided by", "multiplied", "divide by", "divide", "times", "minus", "into", "plus", "x": longer keys first, ties in dictionary order |
| `Calculator.ApplyKeys` | main/tools/calculator.py:31-33 | the loop applies the substitution of every key, one after the other, in the given order |
| `Calculator.Rewrite` | main/tools/calculator.py:29-33 | the rewritten expression is the lower-cased input with every key substituted in the sorted order |
| `Calculator.SafeExpr` | main/tools/calculator.py:35-36 | the filtered text holds only digits, `.`, `+`, `-`, `*`, `/`, parentheses and spaces, and each of these as often as the input |
| `Calculator.SafeExprAppend` | main/tools/calculator.py:35-36 | the filter works piece by piece, so the kept characters stay in their original order |
| `Calculator.SafeExprKeepsSafe` | main/tools/calculator.py:35-36 | a text of allowed characters passes unchanged, so the filter is idempotent |
| `Calculator.Forward` | main/tools/calculator.py:16-40 | evaluation sees only allowed characters; its value is returned, and its failure comes back as "Error: " followed by the message |
| `SerpSearch.FormatItem` | main/tools/search_web.py:36 | the f-string of one entry; no contract of its own, its properties are `SerpSearch.FormatItemReadsBack` and `SerpSearch.EmptyItem` |
| `SerpSearch.FormatItemReadsBack` | main/tools/search_web.py:36 | for a title without `]`, an entry starts with `[`, the title (or "No Title") stands between it and the first `]`, and the entry ends with the snippet |
| `SerpSearch.EmptyItem` | main/tools/search_web.py:36 | a record without fields gives "[No Title]()\n" |
| `SerpSearch.Entries` | main/tools/search_web.py:35-38 | one formatted entry per record, at the same place |
| `SerpSearch.Forward` | main/tools/search_web.py:31-39 | it raises "No results found!" exactly when the result list is empty or missing, and a returned text starts with "## Search Results\n\n" |
| `SerpSearch.ShownFromTheFront` | main/tools/search_web.py:35-39 | for a limit `n >= 0` the text is the header and `min(n, len)` entries, separated by blank lines, taken from the front in order |
| `SerpSearch.DefaultShowsTwo` | main/tools/search_web.py:35-39 | with the default limit of 2, one result gives one entry and two or more give exactly the first two |
| `SerpSearch.UnusualLimits` | main/tools/search_web.py:37 | a limit of 0 gives the header alone, and -1 drops the last result, as the Python slice does |
| `WikipediaSearch.PageUrl` | main/tools/wikipedia_search.py:32-33 | the URL is the article prefix followed by the title with every space turned into `_` |
| `WikipediaSearch.PageUrlShape` | main/tools/wikipedia_search.py:33 | the part after the prefix holds no space, and two titles give the same URL exactly when they agree up to spaces and underscores |
| `WikipediaSearch.Trimmed5000` | main/tools/wikipedia_search.py:44-45 | the trimmed text has at most 5000 characters, no newline, does not start with whitespace, and is empty exactly when the joined paragraphs are all whitespace |
| `WikipediaSearch.TrimmedKeepsPrefix` | main/tools/wikipedia_search.py:45 | the trimmed text is a prefix of the stripped, one-line text: all of it when it fits, exactly 5000 characters otherwise |
| `WikipediaSearch.Forward` | main/tools/wikipedia_search.py:14-52 | a failed search gives "Search failed: …", no hit gives "No Wikipedia page found for '<query>'.", a failed fetch names the URL, a parse failure gives its text, empty content names the URL, otherwise the trimmed text plus "..." (at most 5003 characters) |
| `WikipediaSearch.ArticleReply` | main/tools/wikipedia_search.py:44-50 | all-whitespace paragraphs give the "Could not extract readable content" text; otherwise the reply ends with "...", has at most 5003 characters and no newline before the ellipsis |
| `OutlookEmail.IsValidEmail` | main/tools/outlook_email.py:20-21 | a value is valid exactly when it is a string on which `re.match` of the pattern succeeds |
| `OutlookEmail.Matches` | main/tools/outlook_email.py:21 | the executable matcher: the first `@`, then the scan for the backslash; no contract of its own, `OutlookEmail.MatchesIff` proves it decides the pattern |
| `OutlookEmail.BackslashFromIff` | main/tools/outlook_email.py:21 | the matcher's scan for the backslash succeeds exactly when some split completes the pattern from that point on |
| `OutlookEmail.MatchesIff` | main/tools/outlook_email.py:21 | the executable matcher accepts exactly the strings on which `re.match` of the pattern succeeds |
| `OutlookEmail.NoBackslashRejected` | main/tools/outlook_email.py:21 | a string without a backslash is never valid |
| `OutlookEmail.NonStringRejected` | main/tools/outlook_email.py:21 | a value that is not a string is never valid |
| `OutlookEmail.PlainAddressRejected` | main/tools/outlook_email.py:21 | "a@b.com" is rejected |
| `OutlookEmail.BackslashAddressAccepted` | main/tools/outlook_email.py:21 | "a@b\\.com", with a backslash before the dot, is accepted |
| `OutlookEmail.DefaultAddressRejected` | main/tools/outlook_email.py:20-21 | the default address itself would fail the check |
| `OutlookEmail.Defaulted` | main/tools/outlook_email.py:32-35 | a valid address is kept, and any other value is replaced by the default address |
| `OutlookEmail.NoneToEmpty` | main/tools/outlook_email.py:36-41 | `None` becomes "", and any other value is kept |
| `OutlookEmail.OrdinaryAddressReplaced` | main/tools/outlook_email.py:32-35 | any address without a backslash is replaced by the default |
| `OutlookEmail.Forward` | main/tools/outlook_email.py:23-56 | both addresses are validated or defaulted, and subject, body and password are defaulted; the reply names the recipient after defaulting, or carries the SMTP error text |

## Left out

- All network traffic is outside the model: the HTTP requests to SerpAPI, Wikipedia and the linked pages, and the SMTP exchange. Each becomes a parameter that carries either the data returned or the text of the exception raised.
- Configuration and prompt files read with YAML, and the API keys they hold, are outside the model.
- HTML parsing with BeautifulSoup is outside the model. Its output is taken as the list of paragraph texts.
- The headline that `search_web` computes in main/tools.py is never used, so it is not modelled.
- `eval` is outside the model. Python expression evaluation with `math` is an opaque parameter of `Calculator.Forward`; only its value-or-error shape is modelled.
- Calls to the language models (`ollama.chat`, `LiteLLMModel`) are outside the model.
- The console and speech-input loops are outside the model, as is main/tools/print_instruction.py.
- The tool-calling loop of the `smolagents` base classes is not part of this model. So is what `super().call_tool` does after delegation: `Agent.CallTool` ends in a `Delegated` value.
- Debug `print` calls in `call_tool` are not modelled.
- JSON fields are modelled as strings. In src/app.py these are the title, the snippet, the rich snippet and the section descriptions; in main/tools/search_web.py they are the title, the link and the snippet. A field holding a number or another type is not modelled. An f-string or `in` would treat such a value differently, and a section description that is not a string makes the joins at src/app.py:42 and src/app.py:48 raise `TypeError`.
- A hit without a title in main/tools/wikipedia_search.py raises `KeyError` outside the `try` blocks. That case is not modelled: titles are given as strings.
- Calculator.Lower: lower-casing covers ASCII letters only, because Unicode case mapping is not modelled.
- Calculator.SafeExpr: `\d` is taken as the ASCII digits only, because Python's Unicode digit class is not modelled.
- Calculator.Sub: `\w` and `\b` use ASCII word characters only, because Python's Unicode word class is not modelled. In "éx" Python sees no word boundary before `x` and leaves it, while the model sees one and replaces `x` by `*`.
- Tools.Collapse: its own contract states only what happens to the first character. The full shape of the result is stated by `Tools.CollapseShape` and its single spacing by `Tools.CollapseIsCollapsed`. Single spacing is a quantified fact, so it is kept in a lemma that proofs call only when they need it.
- ChatApp.SourceStep: states only that the text shrinks when the opening tag comes first. That the text does not shrink when the closing tag comes first is shown for the concrete input of `ChatApp.SourceLoopStuck`, not for all inputs.
- SerpSearch.Forward: its own contract states the raise condition and the header. The entries themselves are stated in `SerpSearch.ShownFromTheFront` and `SerpSearch.DefaultShowsTwo`.

## Findings

| source | as written | input that shows it | evidently intended | confidence | as-written member | corrected member |
|---|---|---|---|---|---|---|
| src/app.py:71-74 | `end` is found by searching for `</think>` from the start of the text, so a closing tag before the first opening tag gives `end <= start` and the slice does not shorten the text | "</think><think>": both tags occur, `start` is 8 and `end` is 8, the iteration returns the same text and the loop never ends | look for `</think>` from the first `<think>` on, so every iteration removes a span and the loop ends | not executed | `ChatApp.SourceLoopStuck` | `ChatApp.CleanResponse` |
