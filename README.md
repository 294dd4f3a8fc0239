# maid_assistant core, modelled in Dafny

This project models the logic inside `maid_assistant`, a chat assistant:

- **Image queries.** `query_danbooru_images` and `query_gelbooru_images` build the query tags, add an `id:<M>` bound from the newest id in the image pool, and filter posts by rating. On Danbooru they also drop posts with a parent. The surviving ids go to a retrieval pipe, and the items that come back are collected without repeated ids until `count` of them are in hand.
- **Tag explanation.** `_get_desc` fetches a tag's Danbooru wiki page. It extracts the `[[...]]` links of the page body and looks each one up, keeping one attachment per new page title. It then assembles the description text. `_raw_explain` splits the language model's answer into its `Tag:` and `Description:` lines and formats the explanation. `tag_explain` retries until an attempt gives something other than `None`, at most `max_retry` times.
- **Calculator.** `safe_eval` evaluates a parsed expression. Binary operators, unary operators, node kinds and `math` functions are each checked against a whitelist.

Module layout:

| Module | File | Contents |
|---|---|---|
| `Wrappers` | `option.dfy` | `Option`, `Result` |
| `PyStr` | `pystr.dfy` | The Python string operations the core uses: `strip`, `splitlines`, `split(':', 1)`, ASCII `lower`, `replace`, `startswith`, `join`, decimal rendering of ids |
| `Booru` | `booru.dfy` | The `id:<M>` tag and the shared collecting loop |
| `Danbooru` | `danbooru.dfy` | Tag policy, `_iter_ids`, `query_danbooru_images` |
| `Gelbooru` | `gelbooru.dfy` | Tag policy, rating filter, `query_gelbooru_images` |
| `Seqs` | `seqs.dfy` | Facts about taking and indexing sequences, used by the loops |
| `WikiLinks` | `wikilinks.dfy` | `re.findall` of the link pattern, `_extract_wiki_titles` |
| `Explain` | `explain.dfy` | `_get_desc_by_wiki_data`, `_get_desc`, `_raw_explain`, `tag_explain` |
| `Calc` | `calc.dfy` | `eval_` of `safe_eval` |

Everything outside the program's own logic is a parameter of the model, so each property holds for every answer these could give:

- the Danbooru listing endpoint (`Listing`);
- the Gelbooru id query (`IdQuery`);
- the retrieval pipe (`retrieve`);
- the wiki title lookup (`Lookup`) and the wiki page response (`WikiResponse`);
- Python's `repr` of a string (`quote`);
- the answers of the language model (`Oracle`);
- the Python runtime outside integer and string arithmetic (`MathLib`).

Behaviours of the code the model keeps as written:

- **Danbooru `id:<M>` bound.** It is added only when fewer than two tags are given.
- **Danbooru parent filter.** A `parent_id` of `0` counts as no parent, because `item.get('parent_id')` is falsy.
- **Collecting loop.** The count is compared only after an item has been accepted, so a `count` below 1 returns at most one item, one if the stream has any.
- **First answer line without `:`.** Unpacking the result of `split(':', maxsplit=1)` raises `ValueError`. This is `UnpackError`, which ends `tag_explain`.
- **Wrong second label.** `_raw_explain` returns `(None, None)`. That value is not `None`, so `tag_explain` returns it instead of retrying (`NonePair`).
- **`max_retry`.** With `max_retry <= 0`, `tag_explain` still makes one attempt.
- **Call check order in `eval_`.** The callee's name is looked up before the arguments are counted. The single argument is evaluated only after both checks pass.

## Model

| member | source | states |
|---|---|---|
| Booru.IdBoundTag | maid_assistant/sites/danbooru.py:64 | The bound tag starts with `id:<` and continues with decimal digits only |
| Booru.IdBoundTagRoundTrip | maid_assistant/sites/gelbooru.py:32 | The bound `M` can be parsed back from the digits of `id:<M>` |
| Booru.FirstOccurrences | maid_assistant/sites/danbooru.py:66-70 | What a seen-set filter keeps has distinct ids, the same id set as the stream, and only stream items |
| Booru.FirstOccurrencesAreFirst | maid_assistant/sites/danbooru.py:68-70 | An item is kept if and only if it is the first occurrence of its id in the stream |
| Booru.FirstOccurrencesInOrder | maid_assistant/sites/danbooru.py:66-69 | Kept items appear in the order of their ids' first occurrences: the first occurrence of an earlier kept item comes before that of a later one |
| Booru.FirstOccurrencesPrefix | maid_assistant/sites/danbooru.py:66-72 | Filtering a prefix of the stream gives a prefix of the full result, so stopping early only cuts the result short |
| Booru.FirstOccurrencesCount | maid_assistant/sites/danbooru.py:68-70 | The number of kept items equals the number of distinct ids in the stream |
| Booru.Limit | maid_assistant/sites/danbooru.py:71-72 | At most `count` items are accepted when `count >= 1`, and at most one when `count < 1`: the loop stops once the list holds `max(count, 1)` items |
| Booru.Prefix | maid_assistant/sites/danbooru.py:71-72 | The first `n` elements, or all of them when there are fewer |
| Booru.CollectedBounds | maid_assistant/sites/gelbooru.py:45-53 | The result has distinct ids and comes from the stream. It has at most `Limit(count)` items, and exactly that many if and only if the stream holds that many distinct ids |
| Booru.CollectedIsFirstOccurrence | maid_assistant/sites/gelbooru.py:48-50 | Each returned item is the first occurrence of its id in the stream |
| Booru.FirstOccurrencesStep | maid_assistant/sites/danbooru.py:68-70 | One more item is kept exactly when its id is not among the ids kept so far |
| Booru.CollectedOnceFull | maid_assistant/sites/danbooru.py:71-72 | Once a prefix of the stream yields `Limit(count)` items, those items are the collection |
| Booru.Collected | maid_assistant/sites/danbooru.py:66-72 | The collection: the first `Limit(count)` first occurrences of ids in the stream. Its properties are `CollectedBounds` and `CollectedIsFirstOccurrence` |
| Booru.Collect | maid_assistant/sites/danbooru.py:61-73 | The loop returns `Collected(stream, count)`, and it pulls items only until the limit is reached: the items before the last one pulled had not reached it. When it stops before the stream ends, the limit was reached |
| Danbooru.HasParent | maid_assistant/sites/danbooru.py:50 | `item.get('parent_id')` is truthy: a parent id is present and not 0 |
| Danbooru.AllowedRatings | maid_assistant/sites/danbooru.py:33-34 | The caller's allow-list, or `{'g', 's', 'q', 'e'}` when none is given |
| Danbooru.Keeps | maid_assistant/sites/danbooru.py:50 | The filter of `_iter_ids`: no parent and an allowed rating. `SurvivorsMembership` and `DefaultRatingsKeep` state what it lets through |
| Danbooru.DefaultRatingsKeep | maid_assistant/sites/danbooru.py:27 | With no ratings argument, a post is kept if and only if it has no parent and is rated `g`, `s`, `q` or `e` |
| Danbooru.Survivors | maid_assistant/sites/danbooru.py:49-51 | A page yields no more ids than it has posts |
| Danbooru.SurvivorsMembership | maid_assistant/sites/danbooru.py:49-51 | An id is yielded for a page if and only if a post on it without parent and with an allowed rating carries the id |
| Danbooru.QueryTags | maid_assistant/sites/danbooru.py:63-64 | The user tags are kept in order. `id:<M>` is appended if and only if fewer than two tags are given |
| Danbooru.PagesFrom | maid_assistant/sites/danbooru.py:35-55 | The pages requested from `pageNo` on start with `pageNo` and number at least one and at most `1001 - pageNo` |
| Danbooru.IdsFrom | maid_assistant/sites/danbooru.py:35-55 | The ids yielded from page `pageNo` on: none at an empty page, the survivors of page 1000 as the last ones, otherwise the survivors of the page followed by those of the next. Its properties are `IdsFromRequestedPages` and `EnumeratedIdsAreKept` |
| Danbooru.PagesFromShape | maid_assistant/sites/danbooru.py:32-55 | Pages are requested from 1 in consecutive order, never beyond 1000, and stop at the first empty page |
| Danbooru.IdsFromRequestedPages | maid_assistant/sites/danbooru.py:35-55 | The yielded ids are exactly the survivors of the requested pages, in page order |
| Danbooru.SurvivorsOfPagesMembership | maid_assistant/sites/danbooru.py:49-51 | An id comes from a list of pages if and only if some kept post on one of those pages carries it |
| Danbooru.EnumeratedIdsAreKept | maid_assistant/sites/danbooru.py:30-55 | An id is enumerated if and only if a post on a requested page carries it, has no parent and has an allowed rating |
| Danbooru.PageSurvivors | maid_assistant/sites/danbooru.py:49-51 | The inner loop yields `Survivors(page, allowed)` |
| Danbooru.IterIdsStep | maid_assistant/sites/danbooru.py:35-55 | One page request: an empty page ends the ids and the requests, page 1000 is the last one requested, and otherwise the survivors of the page come before those of the next page |
| Danbooru.IterIds | maid_assistant/sites/danbooru.py:30-55 | The loop yields `IdsFrom(...)` and requests `PagesFrom(...)`, starting at page 1, with the default ratings when none are given |
| Danbooru.QueryImages | maid_assistant/sites/danbooru.py:58-73 | The result is the collection of what the pipe returns for the enumerated ids of the augmented tags, with distinct ids and at most `Limit(count)` items |
| PyStr.StartsWith | maid_assistant/sites/gelbooru.py:33 | `s.startswith(p)`: `p` is the first `len(p)` characters of `s` |
| Gelbooru.HasSortTag | maid_assistant/sites/gelbooru.py:33 | Some tag of the list starts with `sort:` |
| Gelbooru.QueryTags | maid_assistant/sites/gelbooru.py:32-34 | The user tags, then `id:<M>`, then `sort:score:desc` when no tag of that list starts with `sort:`. Its shape is `QueryTagsShape` |
| Gelbooru.QueryTagsShape | maid_assistant/sites/gelbooru.py:32-34 | Tags are the user tags, then `id:<M>`, then `sort:score:desc` if and only if no user tag starts with `sort:` |
| Gelbooru.AllowedRatings | maid_assistant/sites/gelbooru.py:35-36 | The caller's allow-list, or the four Gelbooru ratings when none is given |
| Gelbooru.RatingAllowed | maid_assistant/sites/gelbooru.py:41 | The filter lambda: the post's rating is in the allow-list. `FilteredIdsMembership` and `DefaultRatingsPass` state what it lets through |
| Gelbooru.DefaultRatingsPass | maid_assistant/sites/gelbooru.py:24 | With no ratings argument, exactly the four ratings `general`, `sensitive`, `questionable` and `explicit` pass |
| Gelbooru.FilteredIds | maid_assistant/sites/gelbooru.py:38-43 | The filter passes no more ids than the query enumerates |
| Gelbooru.FilteredIdsMembership | maid_assistant/sites/gelbooru.py:41 | An id passes if and only if an enumerated post with an allowed rating carries it |
| Gelbooru.QueryImages | maid_assistant/sites/gelbooru.py:27-53 | The result is the collection of what the pipe returns for the filtered ids of the augmented tags, with distinct ids and at most `Limit(count)` items |
| PyStr.SpanStart | maid_assistant/explain.py:169 | The index of the first non-space character at or after `i`, with only spaces skipped |
| PyStr.SpanEnd | maid_assistant/explain.py:169 | The index just past the last non-space character before `j`, with only spaces skipped |
| PyStr.IsSpace | maid_assistant/explain.py:169 | The characters `str.isspace` accepts, which `strip()` removes |
| PyStr.IsLineBreak | maid_assistant/explain.py:161 | The characters `splitlines()` breaks at |
| PyStr.Strip | maid_assistant/explain.py:169 | `strip()` gives a string with no leading or trailing whitespace |
| PyStr.StripStripped | maid_assistant/explain.py:161 | Stripping an already stripped string changes nothing |
| PyStr.StripIsInfix | maid_assistant/explain.py:87 | The stripped string is a contiguous slice of the original |
| PyStr.ReplaceKeepsNonPrefix | maid_assistant/explain.py:175 | Replacing with text whose first character is not in `w` does not create a prefix `w` |
| PyStr.SingleLineConcat | maid_assistant/explain.py:161 | Joining two single-line strings gives a single line |
| PyStr.StripLeadingSpaces | maid_assistant/explain.py:169 | Stripping a string made of spaces followed by a stripped string gives that string |
| PyStr.SplitLines | maid_assistant/explain.py:161 | `splitlines()` gives no lines if and only if the text is empty, and no line contains a line break |
| PyStr.SplitTwoLines | maid_assistant/explain.py:161 | Two single-line strings joined by a newline split back into those two lines |
| PyStr.Unlines | maid_assistant/explain.py:66-75 | The text a sequence of `print(line, file=sf)` calls writes: each line followed by a newline |
| PyStr.SplitUnlines | maid_assistant/explain.py:152 | Lines each printed with a trailing newline split back into the same lines |
| PyStr.SplitTwoStrippedLines | maid_assistant/explain.py:161 | A stripped two-line answer splits, after `strip()`, into its two lines |
| PyStr.IndexOf | maid_assistant/explain.py:166 | The position of the first occurrence of `c`, or the length when `c` is absent |
| PyStr.SplitOnce | maid_assistant/explain.py:166 | `split(c, 1)` gives nothing if and only if `c` is absent; otherwise the text before the first `c` and the text after it recompose the string |
| PyStr.Replace | maid_assistant/explain.py:175 | `replace` scans from the left and replaces each non-overlapping occurrence of the target. Its properties are `ReplaceAbsent`, `ReplaceKeepsNonPrefix` and `ReplaceLeavesNoTarget` |
| PyStr.ReplaceAbsent | maid_assistant/explain.py:175 | A string that does not contain the target is unchanged by `replace` |
| PyStr.ReplaceOccurrence | maid_assistant/explain.py:175 | The first occurrence of the target becomes `repl` and the search goes on after it: with no occurrence starting in `a`, `replace` of `a + target + b` is `a + repl` followed by `replace` of `b` |
| PyStr.ReplaceJoin | maid_assistant/explain.py:175 | For parts without the target's first character, replacing the separator of `target.join(parts)` gives `repl.join(parts)`: each occurrence becomes exactly one `repl` |
| PyStr.ReplaceLeavesNoTarget | maid_assistant/explain.py:175 | After `replace('<br>', os.linesep)` no `<br>` is left |
| PyStr.Lower | maid_assistant/explain.py:167 | `lower()` maps each ASCII capital to its small letter and keeps every other character. `LowerLabels` applies it to the two labels |
| PyStr.Join | maid_assistant/explain.py:69 | `sep.join(parts)`: the parts with `sep` between each two |
| PyStr.NatToString | maid_assistant/sites/gelbooru.py:32 | A decimal rendering is made of digits only and has no leading zero |
| PyStr.ParseNatToString | maid_assistant/sites/gelbooru.py:32 | Parsing the decimal rendering of `n` gives `n` back |
| WikiLinks.CloseFrom | maid_assistant/explain.py:79 | The lazy `.*?\]\]` finds the first `]]` on the same line |
| WikiLinks.PageEnd | maid_assistant/explain.py:79 | The page group stays on one line and ends at `|` or just before `]]` |
| WikiLinks.MatchAt | maid_assistant/explain.py:79 | A match starts with `[[`, keeps its page group on one line and ends with `]]` |
| WikiLinks.LinksFrom | maid_assistant/explain.py:80 | `re.findall` from `p`: the leftmost match, then the search from where it ended. What it returns is characterised by `LinksFromCount`, `LinksFromMatches`, `LinksFromOrdered` and `LinksFromComplete` |
| WikiLinks.LinksFromCount | maid_assistant/explain.py:79-80 | Each match takes at least the four characters of `[[` and `]]`, so there are at most a quarter as many links as characters searched |
| WikiLinks.LinksFromMatches | maid_assistant/explain.py:80 | Each link `findall` returns is the match of the pattern at its own start, at or after the search position |
| WikiLinks.LinksFromOrdered | maid_assistant/explain.py:80 | `findall` returns matches in increasing position that do not overlap |
| WikiLinks.LinksFromNext | maid_assistant/explain.py:80 | After a match the search resumes where it ended; without one it resumes one character later |
| WikiLinks.LinksFromComplete | maid_assistant/explain.py:80 | Every position where the pattern matches lies inside a found match |
| WikiLinks.NoCloseNoMatch | maid_assistant/explain.py:79 | Without `]]` later on the line, the pattern cannot match |
| WikiLinks.CloseFromNone | maid_assistant/explain.py:79 | When no `]]` is found, none follows on the same line |
| WikiLinks.PageEndIffClose | maid_assistant/explain.py:79 | From the page group on, the pattern matches if and only if a `]]` follows on the same line |
| WikiLinks.PageEndIsLazy | maid_assistant/explain.py:79 | The lazy page group stops at the first index where the rest of the pattern matches: no earlier index starts `]]`, or a `|` followed by `]]` on the line |
| WikiLinks.PageEndClose | maid_assistant/explain.py:79 | When the page group stops at a `|`, the match ends just after the first `]]` that follows on the line |
| WikiLinks.MatchAtIff | maid_assistant/explain.py:79-80 | A match starts at a position if and only if `[[` starts there and a `]]` follows on the same line |
| WikiLinks.PageHasNoBar | maid_assistant/explain.py:79 | The page group of a match never contains `|` |
| WikiLinks.Title | maid_assistant/explain.py:83-87 | The page before any `|`, stripped: the title has no whitespace at either end |
| WikiLinks.WikiTitles | maid_assistant/explain.py:78-89 | There is one title per link |
| WikiLinks.WikiTitlesArePages | maid_assistant/explain.py:82-87 | Each title is the stripped page group of its link. That group contains neither `|` nor a newline, so display text never reaches a title |
| WikiLinks.WikiTitlesStep | maid_assistant/explain.py:82-87 | The titles of the first `i + 1` links are those of the first `i` followed by the title of link `i` |
| WikiLinks.ExtractWikiTitles | maid_assistant/explain.py:78-89 | The loop returns `WikiTitles(text)` |
| Explain.DisplayName | maid_assistant/explain.py:67 | `tag or data["title"]`: the page title when the tag is absent or empty |
| Explain.ShowsOtherNames | maid_assistant/explain.py:68 | The `Other Names:` line is printed exactly when `use_other_names` is set and the list is non-empty |
| Explain.DescribeWikiData | maid_assistant/explain.py:65-75 | `found` holds if and only if the body is non-empty. The text opens with `Tag: <tag or title>` and ends with a newline |
| Explain.DescribeWikiDataUnlines | maid_assistant/explain.py:66-75 | The printed text is the tag line, the optional other-names line and the description line, each ended by a newline |
| Explain.DescriptionLinesSingle | maid_assistant/explain.py:67-74 | With single-line fields, each printed line is a single line |
| Explain.DescribeWikiDataLines | maid_assistant/explain.py:67-74 | For single-line fields the text has three lines when other names are shown, otherwise two. The lines are Tag, then Other Names, then Description or `No description found.` |
| Explain.PageTitlesSnoc | maid_assistant/explain.py:123 | Adding an attachment adds its page title to the seen titles |
| Explain.PageTitlesHave | maid_assistant/explain.py:117-123 | A title is among the seen titles if and only if some attached page has it |
| Explain.Attachments | maid_assistant/explain.py:115-123 | There are no more attachments than link titles |
| Explain.AttachmentsFound | maid_assistant/explain.py:119-123 | Each attachment comes from a link title with a successful lookup. None has the main title, and no two have the same page title |
| Explain.AttachmentsSnoc | maid_assistant/explain.py:120-123 | One more link title is attached exactly when its lookup finds a page whose title is neither the main one nor already attached |
| Explain.AttachmentsSeen | maid_assistant/explain.py:117-123 | A page title is attached if and only if some link title looks up to a page of that title other than the main one |
| Explain.AttachmentsAreFirstMentions | maid_assistant/explain.py:119-123 | An attachment is kept if and only if it is the first link whose page has its title |
| Explain.AttachmentsInOrder | maid_assistant/explain.py:119-122 | Attachments keep the order of their first mentions: the first mention that leads to an earlier attached page comes before the one for a later page |
| Explain.AttachStep | maid_assistant/explain.py:120-123 | One turn of the loop: testing the seen-set decides the attachment as `Attachments` does, and adding the title keeps the seen-set equal to the main title plus the attached titles |
| Explain.AttachTitle | maid_assistant/explain.py:120-123 | One turn of the loop keeps the attachments equal to `Attachments` of the titles seen so far, and the seen-set equal to the main title plus their page titles |
| Explain.AttachTitles | maid_assistant/explain.py:117-123 | The loop over the link titles returns `Attachments(mainTitle, titles, lookup)` |
| Explain.RelatedPages | maid_assistant/explain.py:115-123 | No page is attached for an empty body, and never more pages than link titles |
| Explain.CollectRelated | maid_assistant/explain.py:115-123 | The loop returns `RelatedPages(page, lookup)`. It has no attachments when the body is empty |
| Explain.MainBlock | maid_assistant/explain.py:125-130 | The header `## Tag <repr(tag)>`, a blank line, the description of the page, and a blank line |
| Explain.Sections | maid_assistant/explain.py:138-145 | One `### <title>` section per attached page that has a description, in attachment order. `SectionsAppend` and `SectionsSingle` state this |
| Explain.SectionsAppend | maid_assistant/explain.py:138-145 | The sections of a list are the sections of its parts, one after the other |
| Explain.SectionsSingle | maid_assistant/explain.py:139-145 | A page gets a section, `### <title>`, a blank line, its description and a blank line, exactly when it has a description |
| Explain.Section | maid_assistant/explain.py:139-145 | The section of one related page: `### <title>`, a blank line, its description and a blank line, or nothing when it has no description. `SectionsSingle` states it for `Sections` |
| Explain.MentionBlock | maid_assistant/explain.py:132-145 | The block is empty if and only if no page is attached. Otherwise it opens with `## Mentioned Tags Information` |
| Explain.MissingText | maid_assistant/explain.py:107 | `Tag: <tag>`, a line break and `No description found.`, the text for a page that is missing and for a body that is not JSON |
| Explain.IsSuccess | maid_assistant/explain.py:109 | A 2xx status, the only kind `raise_for_status` of an `httpx` response lets pass |
| Explain.GetDesc | maid_assistant/explain.py:103-147 | An HTTP error is raised if and only if the status is neither 404 nor a 2xx success. A 404 or an undecodable body gives `(False, 'Tag: <tag>\nNo description found.')`. Otherwise `found` holds if and only if the body is non-empty. The text is the main block followed by the mention block of the related pages, so it is the main block alone if and only if no related page was attached |
| Explain.Attention | maid_assistant/explain.py:182-184 | The ATTENTION paragraph naming the tag, printed when the tag was not found |
| Explain.Format | maid_assistant/explain.py:177-190 | The explanation text: `## <translated>`, a blank line, the ATTENTION paragraph and a blank line when the tag was not found, then the description and a blank line. Its shape is `FormatShape` |
| Explain.FormatShape | maid_assistant/explain.py:177-190 | The explanation opens with `## <translated>` and a blank line. The ATTENTION paragraph follows if and only if the tag was not found. The description then ends the text |
| Explain.LabelIs | maid_assistant/explain.py:167 | `l.strip().lower()` equals the expected label |
| Explain.TagLabelled | maid_assistant/explain.py:166-167 | The first answer line splits at `:` and its label is `tag` |
| Explain.ParseAnswer | maid_assistant/explain.py:161-175 | `None` if and only if there are not two lines, or the first label is not `tag`. `ValueError` if and only if a needed line lacks `:`. `(None, None)` or a result otherwise, a result if and only if the second label is `description`, with the stripped content as translation |
| Explain.SplitLabeled | maid_assistant/explain.py:166 | `Name: value` splits at its first `:` into the name and the spaced value |
| Explain.LabeledSingleLine | maid_assistant/explain.py:161 | A label line built from single-line parts is a single line |
| Explain.WellFormedLines | maid_assistant/explain.py:161 | A well-formed answer splits into its two label lines |
| Explain.ParseLabelledLines | maid_assistant/explain.py:165-175 | Two lines with labels `tag` and `description` parse to a result |
| Explain.AnswerLabels | maid_assistant/explain.py:167 | `Tag` and `Description` lower-case to the expected labels and contain no `:` |
| Explain.LowerLabels | maid_assistant/explain.py:167 | `lower()` maps `Tag` to `tag` and `Description` to `description` |
| Explain.ParseWellFormed | maid_assistant/explain.py:165-175 | A well-formed answer parses to its own translation and description |
| Explain.RawExplain | maid_assistant/explain.py:150-190 | One attempt: the HTTP error of `_get_desc` is the result if and only if there was one, with its status. Otherwise the attempt is `None` if and only if the parser gives `None`, `(None, None)` if and only if it gives `(None, None)`, the `ValueError` if and only if the parser raises it, and an explanation if and only if it accepts the answer |
| Explain.RawExplainWellFormed | maid_assistant/explain.py:150-190 | For a well-formed answer the attempt gives the formatted explanation, with `<br>` replaced by line breaks |
| Explain.RawExplainOfParse | maid_assistant/explain.py:161-190 | A parsed answer gives the formatted explanation |
| Explain.ExplainedHasNoBreakTag | maid_assistant/explain.py:175 | No `<br>` is left in the explained description |
| Explain.BreakTagsBecomeLines | maid_assistant/explain.py:175 | Each `<br>` of the description becomes one `os.linesep`: `<br>`-separated parts without `<` come out one per line |
| Explain.AttemptAt | maid_assistant/explain.py:198 | The attempt numbered `n`: `_raw_explain` on the description and answer of that call |
| Explain.Tries | maid_assistant/explain.py:193-203 | At most `max_retry` attempts are made when `max_retry >= 1`, and at most one otherwise: the cap is `max(max_retry, 1)` |
| Explain.Retry | maid_assistant/explain.py:194-203 | For any attempt sequence: the loop stops at the first attempt that is not `None`, every earlier attempt was `None`, and it gives up if and only if the last attempt was `None`, after `Tries(max_retry)` attempts |
| Explain.TagExplain | maid_assistant/explain.py:193-203 | Attempts run in order and every attempt before the last returned `None`. An answer is the last attempt's, and not `None`. The loop gives up if and only if the last attempt returned `None`, and then only after `Tries(max_retry)` attempts |
| Calc.FloorDivInt | maid_assistant/calc.py:13 | Python's `a // b` on integers, rounding toward negative infinity. Its properties are `FloorDivModSpec` and `FloorDivUnique` |
| Calc.FloorModInt | maid_assistant/calc.py:12 | Python's `a % b` on integers: what the floor division leaves. Its properties are `FloorDivModSpec` and `FloorDivUnique` |
| Calc.FloorDivModSpec | maid_assistant/calc.py:12-13 | `a // b` and `a % b` recompose `a`, and the remainder has the sign of the divisor and is smaller than it in size |
| Calc.FloorDivUnique | maid_assistant/calc.py:12-13 | Those properties determine the quotient and the remainder |
| Calc.FloorDivExamples | maid_assistant/calc.py:12-13 | Python rounds toward negative infinity: `-7 // 2 == -4`, `7 % -2 == -1` |
| Calc.Power | maid_assistant/calc.py:11 | `a ** n` for a non-negative integer exponent |
| Calc.ApplyBinary | maid_assistant/calc.py:6-14 | An allowed operator fails only with `ZeroDivisionError` or a runtime exception, never a whitelist rejection |
| Calc.ApplyUnary | maid_assistant/calc.py:37-40 | Unary minus and plus fail only with a runtime exception |
| Calc.Eval | maid_assistant/calc.py:26-53 | A value comes only from a tree whose every node is whitelisted. A whitelist rejection comes only from a tree that has a non-whitelisted node |
| Calc.RejectedNode | maid_assistant/calc.py:31-51 | A rejected node fails with its own error, whatever its operands: `Unsupported operator` for a binary operator outside the whitelist, `Unsupported unary operator` likewise, the `AttributeError` of a callee without a name, `Unsupported function call` for a name outside the library, the `TypeError` of a call without exactly one argument, and `Not allowed expression type` for any other node. The failure depends only on which names are whitelisted |
| Calc.FirstFailingOperand | maid_assistant/calc.py:33-46 | In an accepted node, the exception of the first failing operand, left before right, is the result |
| Calc.EvalIntFragment | maid_assistant/calc.py:27-40 | On integer constants with `+ - * // %` and unary signs, evaluation is Python's integer arithmetic or `ZeroDivisionError`, whatever the library |
| Calc.Repeat | maid_assistant/calc.py:9 | `s * n` for a string: `n` copies of `s`, none when `n <= 0`. Its properties are `RepeatAdd` and `RepeatLength` |
| Calc.RepeatAdd | maid_assistant/calc.py:9 | `s * (a + b)` is `s * a` followed by `s * b`, for non-negative counts |
| Calc.RepeatLength | maid_assistant/calc.py:9 | `s * n` has length `n * len(s)` |

## Left out

- Network, files and credentials are parameters of the model, not modelled: the Danbooru session and `srequest`, the Hugging Face file system behind `_current_maxid` (whose value is the parameter `maxId`), the data pools and `SimpleImagePipe.batch_retrieve`, the OpenAI client behind `ask_chatgpt`, and `_get_wiki_info_by_title`.
- Danbooru.IterIds: the generator is drained eagerly. The model does not capture that the pipe may stop pulling ids early, or the concurrency of `batch_retrieve`. The collecting loop does model stopping early, through `consumed`.
- Explain.GetDesc: `repr(tag)` is the parameter `quote`. The JSON decode failure is a response without a decodable page. The session is an `httpx.Client` (maid_assistant/utils/danbooru.py:8-11), whose `raise_for_status` raises for every status outside 2xx; the 404 is answered before it is called.
- Explain.RawExplain: the 400-line truncation and the logging only affect the log message, so they are left out. `os.linesep` is taken to be `"\n"`. The prompt text of `ask_chatgpt` is not modelled, since the model's answer is the oracle.
- Danbooru.QueryImages, Gelbooru.QueryImages, Explain.TagExplain: the defaults `count = 4` and `max_retry = 5` are the default parameter values `Booru.DEFAULT_COUNT` and `Explain.DEFAULT_MAX_RETRY`. An absent `allowed_ratings` is `None`.
- Explain.TagExplain: the `ordinalize` of the log message is left out. An exception raised by an attempt ends the loop, as `Done(UnpackError)` or `Done(HttpFailure(status))`. The `ValueError` raised when giving up is `Unexplained`.
- PyStr.Lower: lower-cases ASCII letters only. The labels compared against, `tag` and `description`, are ASCII.
- Calc.Eval: `ast.parse` is not modelled, so `safe_eval` is `Eval` applied to the parsed tree. Floating point, complex numbers, true division of integers, negative integer powers other than `0 ** -n`, and the `math` functions are the `MathLib` parameter, so their results and exceptions are not modelled. A `ZeroDivisionError` of float arithmetic is a library exception. Keyword arguments of a call are ignored, as the code ignores them. `bool`, `None` and bytes constants are `Other` nodes, because `ast.Num` and `ast.Str` do not match them.
- Calc.MathLib: the set of callable names of `math` (`dir(math)` filtered by `callable`) is a parameter, so the exact list of names is not fixed.
- The `__main__` demonstrations and `app.py` are not part of this model.
