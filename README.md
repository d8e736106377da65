# extract_json_values, modelled in Dafny

The academic processor sends a picture of a student's answer to a language model. It
asks for a JSON object and reads the reply back with `extract_json_values`
(`src/academic_processor.py`). That function does not parse JSON. It proceeds in five
steps:

1. It trims the reply and cuts off a Markdown ```` ```json ```` opening fence and a
   ```` ``` ```` closing fence.
2. It looks up `student_response` and `teacher_score` with `re.search`.
3. It scans the whole text with `re.finditer` for `"name": true|false` pairs. It keeps
   those whose name is one of six rubric criteria; a later pair overwrites an earlier one.
4. It reads `points_earned` and `misconceptions` as the quoted runs between the key's `[`
   and the next `]`.
5. It fills a fixed five-field record. A piece that was not found becomes `""`, `{}` or
   `[]`.

The model is organised as follows:

- `chars.dfy` (modules `Wrappers`, `Chars`): Python's whitespace class and the
  `str.strip()` methods. Whitespace is the set for which `str.isspace()` holds. That same
  set is what `\s` matches in a `str` pattern.
- `scan.dfy` (module `Scan`): Python's leftmost matching, independent of any pattern.
  - `Search` is `re.search`.
  - `FindAll` is `re.finditer` / `re.findall`: take the leftmost match, then resume at
    its end.
  - Both work over an anchored matcher, a function saying whether a pattern matches at
    one position.
- `patterns.dfy` (module `Patterns`): each regular expression of the function written as
  an anchored scanner. Next to each scanner is a predicate saying declaratively when the
  regex matches, and each scanner is proved both sound and complete against its
  predicate. Greedy `\s*`, `[^"]+` and the lazy `.*?` before `\]` all stop at a position
  fixed by the text, so no backtracking is needed.
- `fences.dfy` (module `Fences`): the `re.sub` that removes the fences.
- `extractor.dfy` (module `Extractor`): the field lookups, the lists, and the rubric loop.
  The loop is a method whose loop invariant ties it to a left fold. The module also holds
  the whole record, `Extraction`, and the method `ExtractJsonValues`.
- `replies.dfy` (module `Replies`): what comes back for replies laid out as the prompt
  asks: fields, lists of quoted items, and a rubric object of `"name": true|false`
  pairs, whose pairs are found exactly and in order. It also covers what happens to a
  list that holds an empty string.

Two points where the code is followed rather than a looser reading of it:

- A field is taken from the first position where the WHOLE pattern
  `"<key>":\s*"([^"]+)"` matches. It is not necessarily the first occurrence of
  `"<key>":`. If the first occurrence is followed by a value that is not a quoted
  non-empty string, a later occurrence is used (`Extractor.FieldFound`).
- The `.strip('"')` applied to list items never changes anything. A run matched by
  `[^"]+` holds no quote, so stripping its whitespace cannot expose one
  (`Extractor.Items`).

The record returned at lines 48-54 is the datatype `Extractor.Extracted`, and the
allow-list of lines 29-31 is the predicate `Extractor.IsRubricName`.

## Model

| member | source | states |
|---|---|---|
| Chars.IsSpace | src/academic_processor.py:19-22 | the whitespace of `\s` in a `str` pattern and of `str.strip()`: exactly the characters for which `str.isspace()` holds |
| Chars.SkipSpaces | src/academic_processor.py:19-22 | a greedy `\s*` from i stops at the first non-whitespace position (or the end), and everything it passes is whitespace |
| Chars.Find | src/academic_processor.py:21-22 | a run of characters other than c from i stops at the first c (or the end), and contains no c |
| Chars.Strip | src/academic_processor.py:19 | `str.strip()` returns a contiguous slice of its input, with only whitespace cut before and after it; the result is empty or has non-whitespace at both ends; it is empty exactly when the input is all whitespace |
| Chars.StripChar | src/academic_processor.py:39 | `str.strip('"')` returns the slice of the string between its leading and its trailing copies of the quote: everything cut off is a quote, the result neither starts nor ends with one, and a quote-free string comes back unchanged |
| Chars.SkipChar | src/academic_processor.py:39 | the leading copies of a character end at the first position that does not hold it |
| Chars.TrimmedChar | src/academic_processor.py:39 | the trailing copies of a character begin right after the last position that does not hold it |
| Chars.StripCharSurrounded | src/academic_processor.py:39 | copies of the quote around a text that neither starts nor ends with one are exactly what `str.strip('"')` removes |
| Chars.StripSurrounded | src/academic_processor.py:19 | stripping whitespace around a text with non-whitespace ends gives back exactly that text |
| Chars.StripKeeps | src/academic_processor.py:39 | stripping never introduces a character |
| Chars.StripIdempotent | src/academic_processor.py:19 | stripping twice is stripping once |
| Scan.Search | src/academic_processor.py:21 | `re.search` reports the leftmost position from which the pattern matches (trying the end of the text too), with the match's end and group; it reports nothing exactly when the pattern matches nowhere |
| Scan.SearchLeftmost | src/academic_processor.py:21 | a position where the pattern matches, with no match before it, is what the search reports |
| Scan.SearchSkip | src/academic_processor.py:25 | a search that meets no match between two positions finds what a search from the later one finds |
| Scan.FindAll | src/academic_processor.py:25 | `re.finditer` reports matches of the pattern, each lying in the text, in increasing order and without overlap |
| Scan.FindAllLeftmost | src/academic_processor.py:25 | `re.finditer` skips nothing: the pattern matches nowhere between where a scan resumes and the next reported match, nor after the last one |
| Scan.FindAllCovers | src/academic_processor.py:25 | every position where the pattern matches is the start of, or lies inside, a reported match |
| Scan.FindAllSameSearch | src/academic_processor.py:25 | two scans that begin with the same search report the same matches |
| Scan.Groups | src/academic_processor.py:39 | what `re.findall` returns for a pattern with one group: the group of each match, in order, one per match |
| Scan.GroupsUnfold | src/academic_processor.py:39 | the groups `re.findall` returns are the first match's group followed by those of the scan resuming at its end |
| Scan.GroupsFrom | src/academic_processor.py:39 | a match followed by a stretch without matches contributes exactly its group, and the scan goes on after the stretch |
| Patterns.DelimitedAt | src/academic_processor.py:34 | the scanner for an opening delimiter, a run of non-closing characters and the closing delimiter returns a real match whose group holds no closing delimiter |
| Patterns.DelimitedComplete | src/academic_processor.py:34 | any such match is the one the scanner returns, so `.*?` before `\]` stops at the first `]` |
| Patterns.QuotedAt | src/academic_processor.py:39 | `"([^"]+)"` matches a non-empty quote-free run between quotes |
| Patterns.KeyedAt | src/academic_processor.py:21-22 | the scanner for `"<key>":\s*` and a delimited group returns only matches of that pattern |
| Patterns.KeyedComplete | src/academic_processor.py:21-22 | every match of the keyed pattern at a position is the one the scanner returns there |
| Patterns.FlagAt | src/academic_processor.py:24 | the scanner for the tail `\s*(true\|false)` returns only matches: spaces, then the literal of the reported value |
| Patterns.FlagComplete | src/academic_processor.py:24 | every match of the tail at a position is the one the scanner returns there (`true` and `false` cannot both start at one place) |
| Patterns.PairAt | src/academic_processor.py:24 | the scanner for `"([^"]+)":\s*(true\|false)` returns only matches, with value true exactly when the literal is `true` |
| Patterns.PairComplete | src/academic_processor.py:24 | every pair match at a position is the one the scanner returns there |
| Patterns.OpenFenceEnd | src/academic_processor.py:19 | `^```json\s*` matches exactly when the text starts with ```` ```json ````, and then stops at the first non-whitespace after it |
| Patterns.CloseFenceAt | src/academic_processor.py:19 | the scanner for `\s*```$` returns only matches, and they run to the end of the text |
| Patterns.CloseFenceComplete | src/academic_processor.py:19 | every match of `\s*```$` is found |
| Patterns.QuotedAdvances | src/academic_processor.py:39 | quoted runs are never empty, so findall never meets an empty match |
| Patterns.PairAdvances | src/academic_processor.py:25 | rubric pairs are never empty |
| Patterns.NoQuoteNoRun | src/academic_processor.py:39 | no quoted run starts where there is no quote |
| Fences.StripFences | src/academic_processor.py:19 | fence removal keeps a contiguous slice of the stripped text, which starts after the opening fence; it ends at the end of the text or at the leftmost place from which only whitespace and a closing ```` ``` ```` follow |
| Fences.StripFencesCutsClose | src/academic_processor.py:19 | the end is cut exactly when the text after the opening fence ends in ```` ``` ```` |
| Fences.UnfencedReply | src/academic_processor.py:19 | a reply without fences is only whitespace-trimmed |
| Fences.FencedBody | src/academic_processor.py:19 | between ```` ```json ````, whitespace, a body with non-whitespace ends, whitespace and ```` ``` ````, exactly the body is kept |
| Fences.FencedText | src/academic_processor.py:19 | ```` ```json ```` + whitespace + body + whitespace + ```` ``` ```` gives back the body |
| Fences.FencedReply | src/academic_processor.py:19 | the same with any whitespace around the whole reply |
| Fences.FencedExample | src/academic_processor.py:19 | the reply ```` ```json\n{X}\n``` ```` gives `{X}` |
| Extractor.Unfenced | src/academic_processor.py:19 | the text that is searched holds only characters of the reply |
| Extractor.KeyedSearchFirst | src/academic_processor.py:21-22 | `re.search` of a keyed pattern reports exactly its first match |
| Extractor.KeyedSearchBefore | src/academic_processor.py:21-22 | wherever the keyed pattern matches, the search reports a match there or earlier |
| Extractor.KeyedSearchFound | src/academic_processor.py:21-22 | what the search reports is the first keyed match, and when it reports nothing the pattern matches nowhere |
| Extractor.FieldValue | src/academic_processor.py:49-50 | a field is `""` or a value without a quote |
| Extractor.FieldFirst | src/academic_processor.py:21-22 | the group of the first match of `"<key>":\s*"([^"]+)"` is the field |
| Extractor.FieldFound | src/academic_processor.py:21-22 | the field is `""` exactly when the pattern matches nowhere; otherwise it is the group of the first match |
| Extractor.QuotedRuns | src/academic_processor.py:39 | `re.findall(r'"([^"]+)"', ...)` returns non-empty quote-free runs |
| Extractor.Items | src/academic_processor.py:39 | each item is its quoted run with surrounding whitespace removed (the `.strip('"')` is a no-op); items hold no quote and have no whitespace at either end |
| Extractor.ListItems | src/academic_processor.py:34-39 | list items hold no quote and have no whitespace at either end |
| Extractor.ListFirst | src/academic_processor.py:41-46 | the list is read from the group of the first `"<key>":\s*\[...\]` match, which stops at the first `]` |
| Extractor.ListAbsent | src/academic_processor.py:36 | a list whose pattern matches nowhere is `[]`, whatever else the text holds |
| Extractor.ListFound | src/academic_processor.py:43-46 | a non-empty list comes from the first match of its pattern |
| Extractor.RubricMatches | src/academic_processor.py:24-25 | every reported pair is a real `"name": true\|false` match, in text order and without overlap |
| Extractor.PairsNotSkipped | src/academic_processor.py:24-25 | pairs are recognised anywhere: every place where the pair pattern matches is covered by a reported pair |
| Extractor.IsRubricName | src/academic_processor.py:29-31 | membership in the six rubric criteria whose pairs are kept |
| Extractor.Record | src/academic_processor.py:26-31 | the dictionary holds rubric names only |
| Extractor.RecordKeys | src/academic_processor.py:29-31 | a name is in the dictionary exactly when it is one of the six rubric names and some pair carries it |
| Extractor.RecordValue | src/academic_processor.py:31 | a kept name's value is that of its last pair in scan order |
| Extractor.RecordStep | src/academic_processor.py:28-31 | one more pair sets its name when it is a rubric name and otherwise changes nothing |
| Extractor.CollectRubricPoints | src/academic_processor.py:25-31 | the loop over the pairs builds the left fold `Record` of them |
| Extractor.WellFormed | src/academic_processor.py:48-54 | the returned dictionary, the record `Extracted`: two quote-free strings, rubric points keyed by rubric names only, and two lists of quote-free, whitespace-stripped items |
| Extractor.Extraction | src/academic_processor.py:18-54 | the record is defined for every reply; its string fields hold no quote, its rubric keys are rubric names, and its items are quote-free and whitespace-stripped |
| Extractor.ExtractJsonValues | src/academic_processor.py:18-54 | the method computes `Extraction` and so returns a well-formed record |
| Extractor.NoQuoteNoKeyed | src/academic_processor.py:21-22 | without a quote no keyed pattern matches |
| Extractor.NoQuoteNoPairs | src/academic_processor.py:24-25 | without a quote no rubric pair is found |
| Extractor.NoQuotesNoValues | src/academic_processor.py:48-54 | a reply without any quote yields `""`, `""`, `{}`, `[]`, `[]` |
| Replies.KeyedAfter | src/academic_processor.py:21-22 | `"<key>":`, whitespace and a delimited value are the first keyed match when the key does not occur earlier in the reply (whatever else comes before it) |
| Replies.QuoteFreeKeyFree | src/academic_processor.py:21-22 | a key cannot occur in quote-free text, since every key pattern opens with a quote |
| Replies.FieldAfter | src/academic_processor.py:21-22 | `"<key>": "<v>"` gives v when the key does not occur earlier, for example after other fields with quoted values |
| Replies.ListAfter | src/academic_processor.py:34-39 | `"<key>": [<v>]` gives the items of v when the key does not occur earlier and v holds no `]` |
| Replies.QuoteAt | src/academic_processor.py:39 | a quoted item is the quoted run at its position |
| Replies.HeadRun | src/academic_processor.py:39 | a quoted item, then a separator without quotes: findall reports the item and goes on after the separator |
| Replies.RenderedLast | src/academic_processor.py:39 | the last quoted item of a list is the last run found |
| Replies.RenderedHead | src/academic_processor.py:39 | a list's first item is found first, then the scan goes on with the rest of the list |
| Replies.RunsOfRendered | src/academic_processor.py:39 | scanning items written one after another, quoted and separated, returns the items in order |
| Replies.QuotedRunsRendered | src/academic_processor.py:39 | findall over a list body written from non-empty quote-free items gives back those items |
| Replies.ItemsRendered | src/academic_processor.py:39 | such a list body reads back as its items, each whitespace-stripped |
| Replies.ListRendered | src/academic_processor.py:34-39 | `"<key>": [<items>]` reads back as the stripped items when the key does not occur earlier and no `]` occurs inside |
| Replies.PairMatchWritten | src/academic_processor.py:24 | `"<k>":`, whitespace and `true` or `false`, written one after another, match the rubric pair pattern with groups k and the flag |
| Replies.PairTextMatch | src/academic_processor.py:24 | a pair written as the prompt asks (lines 64-69) matches the rubric pair pattern over exactly its own text |
| Replies.PairHeadFacts | src/academic_processor.py:24-25 | a written pair followed by a quote-free separator is what finditer's scanner reports at its start, and no pair starts inside the separator |
| Replies.PairLastRun | src/academic_processor.py:24-25 | the last written pair, with no pair starting after it, is the last pair finditer reports |
| Replies.PairsOfRendered | src/academic_processor.py:24-28 | scanning from where pairs are written, separated by quote-free text, returns exactly those pairs in order, when no pair starts after them |
| Replies.RubricPairsRendered | src/academic_processor.py:24-28 | in a text where the pair pattern matches nowhere before or after a written rubric object, finditer reports exactly the object's pairs, in order |
| Replies.RubricPairsBetween | src/academic_processor.py:24-28 | the same for a rubric object between quote-free text such as its braces |
| Replies.RubricKeysRendered | src/academic_processor.py:24-32 | a name is in the rubric dictionary exactly when it is one of the six rubric names and some pair of the object carries it |
| Replies.RubricValueRendered | src/academic_processor.py:24-32 | a rubric name written in the object gets the value of its last occurrence, true exactly when that literal is `true` |
| Replies.FencedRubricObject | src/academic_processor.py:18-32 | a fenced reply holding a rubric object `{<pairs>}` gives as rubric_points the dictionary the loop builds from exactly those pairs |
| Replies.EmptyItem | src/academic_processor.py:39 | the list body `"", "x"` reads as the single item `,`: an empty string shifts the pairing of quotes |
| Replies.EmptyItemRuns | src/academic_processor.py:39 | findall over `"", "x"` returns the one run `, ` |

## Left out

- `encode_image`: reads a file and calls the base64 library. This is I/O.
- `process_academic_image` and `generate_feedback`: they build prompts and call the OpenAI
  service, whose answer is outside the model. The reply reaches the model as the
  `content` argument.
- `process_directory`: file-system enumeration, directory creation, file writes and
  error logging.
- The module-level logging and client set-up, and the environment lookups.
- `src/utils/config_loader.py` is not part of this model. It loads JSON files from disk
  and looks keys up in dictionaries.
- Python dictionaries keep insertion order. `Extracted.rubricPoints` is a Dafny `map`,
  which has no order.
- `$` in `\s*```$` is taken to mean only the end of the text. Python's `$` also matches
  before a final newline, but the text has been stripped, so it never ends in one.
- Lone surrogate code points (U+D800 to U+DFFF): a Python `str` can hold them, for
  example from a `\ud800` escape in the reply, but a Dafny `char` cannot, so such replies
  are outside the model. Every pattern treats them as ordinary characters that are
  neither whitespace nor a quote, so no behaviour depends on them.
- Regex matching in general: each pattern of the function is modelled by its own
  scanner, not by a regex engine.
