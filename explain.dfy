/** The text and control logic of `explain.py`: the wiki-data description, the
    de-duplicated related pages of `_get_desc`, the answer parser of
    `_raw_explain` and the retry loop of `tag_explain`. The wiki service, the
    page lookup and the language model are inputs. */
module Explain {

  import opened Wrappers
  import opened PyStr
  import WikiLinks
  import Seqs

  /** `os.linesep` on a POSIX host. */
  const LINESEP: string := "\n"

  /** The fallback description when no wiki page is available. */
  const NO_DESCRIPTION: string := "No description found."

  /** The fields of a wiki page record that the code reads. */
  datatype WikiPage = WikiPage(title: string, otherNames: seq<string>, body: string)

  // ---------------------------------------------------------------------------
  // _get_desc_by_wiki_data

  /** `tag or data["title"]`: an absent or empty tag falls back to the page title. */
  function DisplayName(data: WikiPage, tag: Option<string>): string {
    if tag.Some? && tag.value != [] then tag.value else data.title
  }

  /** The optional `Other Names:` line is printed. */
  predicate ShowsOtherNames(data: WikiPage, useOtherNames: bool) {
    useOtherNames && data.otherNames != []
  }

  /** The lines `_get_desc_by_wiki_data` prints, without their line ends. */
  function DescriptionLines(data: WikiPage, tag: Option<string>, useOtherNames: bool): seq<string> {
    var first := "Tag: " + DisplayName(data, tag);
    var last := if data.body != [] then "Description: " + data.body else NO_DESCRIPTION;
    if ShowsOtherNames(data, useOtherNames) then [first, "Other Names: " + Join(", ", data.otherNames), last]
    else [first, last]
  }

  /** `_get_desc_by_wiki_data(data, tag, use_other_names)`: whether the page has a
      description, and the printed text. */
  function DescribeWikiData(data: WikiPage, tag: Option<string>, useOtherNames: bool): (r: (bool, string))
    ensures r.0 <==> data.body != []
    ensures StartsWith(r.1, "Tag: " + DisplayName(data, tag) + "\n")
    ensures r.1 != [] && r.1[|r.1| - 1] == '\n'
  {
    var lines := DescriptionLines(data, tag, useOtherNames);
    UnlinesSmall(lines[0], lines[1], lines[|lines| - 1]);
    var text := Unlines(lines);
    assert text[..|lines[0]| + 1] == lines[0] + "\n";
    (data.body != [], text)
  }

  /** The printed text is those lines, each ended by a newline. */
  lemma DescribeWikiDataUnlines(data: WikiPage, tag: Option<string>, useOtherNames: bool)
    ensures DescribeWikiData(data, tag, useOtherNames).1 == Unlines(DescriptionLines(data, tag, useOtherNames))
  {
  }

  /** The fixed labels and the fallback text hold no line break. */
  lemma FixedTextsSingle()
    ensures SingleLine("Tag: ") && SingleLine("Other Names: ") && SingleLine("Description: ") && SingleLine(NO_DESCRIPTION)
  {
  }

  /** With a single-line name, other names and body, every printed line is a single line. */
  lemma DescriptionLinesSingle(data: WikiPage, tag: Option<string>, useOtherNames: bool)
    requires SingleLine(DisplayName(data, tag)) && SingleLine(Join(", ", data.otherNames)) && SingleLine(data.body)
    ensures forall i :: 0 <= i < |DescriptionLines(data, tag, useOtherNames)| ==> SingleLine(DescriptionLines(data, tag, useOtherNames)[i])
  {
    FixedTextsSingle();
    SingleLineConcat("Tag: ", DisplayName(data, tag));
    SingleLineConcat("Other Names: ", Join(", ", data.otherNames));
    SingleLineConcat("Description: ", data.body);
  }

  /** When the name, the other names and the body are single lines, the text has
      three lines with the `Other Names:` line and two without it: the tag line,
      then the other names exactly when they are asked for and present, then the
      description or the fallback. */
  lemma DescribeWikiDataLines(data: WikiPage, tag: Option<string>, useOtherNames: bool)
    requires SingleLine(DisplayName(data, tag)) && SingleLine(Join(", ", data.otherNames)) && SingleLine(data.body)
    ensures var lines := SplitLines(DescribeWikiData(data, tag, useOtherNames).1);
            && |lines| == (if ShowsOtherNames(data, useOtherNames) then 3 else 2)
            && lines[0] == "Tag: " + DisplayName(data, tag)
            && (ShowsOtherNames(data, useOtherNames) ==> lines[1] == "Other Names: " + Join(", ", data.otherNames))
            && lines[|lines| - 1] == (if data.body != [] then "Description: " + data.body else NO_DESCRIPTION)
  {
    DescribeWikiDataUnlines(data, tag, useOtherNames);
    DescriptionLinesSingle(data, tag, useOtherNames);
    SplitUnlines(DescriptionLines(data, tag, useOtherNames));
  }

  // ---------------------------------------------------------------------------
  // The related pages of _get_desc

  /** `_get_wiki_info_by_title`: the wiki page found for a title, if any. */
  type Lookup = string -> Option<WikiPage>

  /** A related page: the title as mentioned, and the page found for it. */
  type Attachment = (string, WikiPage)

  /** The titles of the pages attached so far. */
  function PageTitles(atts: seq<Attachment>): set<string> {
    if atts == [] then {} else PageTitles(atts[..|atts| - 1]) + {atts[|atts| - 1].1.title}
  }

  lemma PageTitlesSnoc(atts: seq<Attachment>, x: Attachment)
    ensures PageTitles(atts + [x]) == PageTitles(atts) + {x.1.title}
  {
    assert (atts + [x])[..|atts|] == atts;
  }

  /** A title is among the seen titles exactly when some attached page has it. */
  lemma {:induction false} PageTitlesHave(atts: seq<Attachment>, title: string)
    ensures title in PageTitles(atts) <==> exists i :: 0 <= i < |atts| && atts[i].1.title == title
  {
    if atts != [] {
      var n := |atts| - 1;
      var init := atts[..n];
      PageTitlesHave(init, title);
      assert forall i :: 0 <= i < n ==> init[i] == atts[i];
      if exists i :: 0 <= i < |atts| && atts[i].1.title == title {
        var i :| 0 <= i < |atts| && atts[i].1.title == title;
        if i < n {
          assert init[i].1.title == title;
        }
      }
    }
  }

  /** The mentioned title `t` leads to a page other than the main one whose title
      is `title`. */
  predicate Hit(lookup: Lookup, mainTitle: string, t: string, title: string) {
    lookup(t).Some? && lookup(t).value.title == title && title != mainTitle
  }

  /** The pages attached for the mentioned titles `titles`: a title is attached
      when its lookup finds a page whose title is neither the main page's title
      nor that of a page attached before. */
  function Attachments(mainTitle: string, titles: seq<string>, lookup: Lookup): (atts: seq<Attachment>)
    ensures |atts| <= |titles|
  {
    if titles == [] then []
    else
      var init := titles[..|titles| - 1];
      var t := titles[|titles| - 1];
      var prev := Attachments(mainTitle, init, lookup);
      var d := lookup(t);
      if d.Some? && d.value.title != mainTitle && d.value.title !in PageTitles(prev) then prev + [(t, d.value)]
      else prev
  }

  /** Every attached page is the one found for a mentioned title, none is the main
      page, and no two attached pages share a title. */
  lemma {:induction false} AttachmentsFound(mainTitle: string, titles: seq<string>, lookup: Lookup)
    ensures forall i :: 0 <= i < |Attachments(mainTitle, titles, lookup)| ==>
              Attachments(mainTitle, titles, lookup)[i].0 in titles
              && lookup(Attachments(mainTitle, titles, lookup)[i].0) == Some(Attachments(mainTitle, titles, lookup)[i].1)
              && Attachments(mainTitle, titles, lookup)[i].1.title != mainTitle
    ensures forall i, j :: 0 <= i < j < |Attachments(mainTitle, titles, lookup)| ==>
              Attachments(mainTitle, titles, lookup)[i].1.title != Attachments(mainTitle, titles, lookup)[j].1.title
  {
    if titles != [] {
      var n := |titles| - 1;
      var init := titles[..n];
      var t := titles[n];
      var prev := Attachments(mainTitle, init, lookup);
      AttachmentsFound(mainTitle, init, lookup);
      assert forall i :: 0 <= i < |prev| ==> prev[i].0 in init;
      assert titles == init + [t];
      var d := lookup(t);
      if d.Some? && d.value.title != mainTitle && d.value.title !in PageTitles(prev) {
        var atts := prev + [(t, d.value)];
        assert Attachments(mainTitle, titles, lookup) == atts;
        forall i | 0 <= i < |prev|
          ensures atts[i] == prev[i] && prev[i].1.title in PageTitles(prev)
        {
          PageTitlesHave(prev, prev[i].1.title);
        }
        assert forall i :: 0 <= i < |prev| ==> prev[i].0 in titles;
        assert atts[|prev|] == (t, d.value);
        assert forall i :: 0 <= i < |atts| ==> atts[i].1.title != mainTitle;
      } else {
        assert Attachments(mainTitle, titles, lookup) == prev;
        assert forall i :: 0 <= i < |prev| ==> prev[i].0 in titles;
      }
    }
  }

  /** The titles the seen-set holds after the loop: the main title and the title
      of every page found for a mention. */
  lemma {:induction false} AttachmentsSeen(mainTitle: string, titles: seq<string>, lookup: Lookup, title: string)
    ensures title in PageTitles(Attachments(mainTitle, titles, lookup)) <==>
            exists j :: 0 <= j < |titles| && Hit(lookup, mainTitle, titles[j], title)
  {
    if titles != [] {
      var n := |titles| - 1;
      var init := titles[..n];
      var prev := Attachments(mainTitle, init, lookup);
      assert titles == init + [titles[n]];
      AttachmentsSeen(mainTitle, init, lookup, title);
      var d := lookup(titles[n]);
      if d.Some? && d.value.title != mainTitle && d.value.title !in PageTitles(prev) {
        PageTitlesSnoc(prev, (titles[n], d.value));
      }
      if exists j :: 0 <= j < |titles| && Hit(lookup, mainTitle, titles[j], title) {
        var j :| 0 <= j < |titles| && Hit(lookup, mainTitle, titles[j], title);
        if j < n {
          assert titles[j] == init[j];
        } else {
          assert title == d.value.title;
        }
      }
      if exists j :: 0 <= j < |init| && Hit(lookup, mainTitle, init[j], title) {
        var j :| 0 <= j < |init| && Hit(lookup, mainTitle, init[j], title);
        assert titles[j] == init[j];
      }
    }
  }

  /** No mention before index `j` leads to a page titled like the one `titles[j]` leads to. */
  predicate FirstMention(lookup: Lookup, titles: seq<string>, j: int)
    requires 0 <= j < |titles| && lookup(titles[j]).Some?
  {
    forall k :: 0 <= k < j ==> !(lookup(titles[k]).Some? && lookup(titles[k]).value.title == lookup(titles[j]).value.title)
  }

  /** A related page is attached exactly when it is found for the first mention
      that leads to a page of its title, and that title is not the main one. */
  lemma {:induction false} AttachmentsAreFirstMentions(mainTitle: string, titles: seq<string>, lookup: Lookup, x: Attachment)
    ensures x in Attachments(mainTitle, titles, lookup) <==>
            exists j :: 0 <= j < |titles| && titles[j] == x.0 && lookup(x.0) == Some(x.1)
                        && x.1.title != mainTitle && FirstMention(lookup, titles, j)
  {
    if titles != [] {
      var n := |titles| - 1;
      var init := titles[..n];
      var prev := Attachments(mainTitle, init, lookup);
      assert titles == init + [titles[n]];
      AttachmentsAreFirstMentions(mainTitle, init, lookup, x);
      AttachmentsSeen(mainTitle, init, lookup, x.1.title);
      forall j | 0 <= j < |titles| && titles[j] == x.0 && lookup(x.0) == Some(x.1)
                 && x.1.title != mainTitle && FirstMention(lookup, titles, j)
        ensures x in Attachments(mainTitle, titles, lookup)
      {
        if j == n {
          assert forall k :: 0 <= k < n ==> !Hit(lookup, mainTitle, init[k], x.1.title) by {
            assert forall k :: 0 <= k < n ==> init[k] == titles[k];
          }
          assert x.1.title !in PageTitles(prev);
        } else {
          assert init[j] == titles[j];
          assert FirstMention(lookup, init, j) by {
            assert forall k :: 0 <= k < j ==> init[k] == titles[k];
          }
        }
      }
      if x in Attachments(mainTitle, titles, lookup) && x !in prev {
        assert x == (titles[n], lookup(titles[n]).value);
        assert x.1.title !in PageTitles(prev);
        assert forall k :: 0 <= k < n ==> !Hit(lookup, mainTitle, init[k], x.1.title);
        assert forall k :: 0 <= k < n ==> init[k] == titles[k];
        assert FirstMention(lookup, titles, n);
      }
      if x in prev {
        var j :| 0 <= j < |init| && init[j] == x.0 && lookup(x.0) == Some(x.1)
                 && x.1.title != mainTitle && FirstMention(lookup, init, j);
        assert titles[j] == init[j];
        assert forall k :: 0 <= k < j ==> init[k] == titles[k];
        assert FirstMention(lookup, titles, j);
      }
    }
  }

  /** A first mention in a prefix of the titles is a first mention in all of them. */
  lemma FirstMentionInPrefix(lookup: Lookup, titles: seq<string>, n: nat, j: nat)
    requires j < n <= |titles| && lookup(titles[..n][j]).Some? && FirstMention(lookup, titles[..n], j)
    ensures titles[j] == titles[..n][j] && FirstMention(lookup, titles, j)
  {
    assert forall m :: 0 <= m <= j ==> titles[m] == titles[..n][m];
  }

  /** Attached pages keep the order in which their titles are first mentioned: the
      first mention leading to an earlier page precedes that of a later one. */
  lemma {:induction false} AttachmentsInOrder(mainTitle: string, titles: seq<string>, lookup: Lookup, i: nat, k: nat)
    requires i < k < |Attachments(mainTitle, titles, lookup)|
    ensures exists j, j' :: 0 <= j < j' < |titles|
                            && titles[j] == Attachments(mainTitle, titles, lookup)[i].0
                            && lookup(titles[j]) == Some(Attachments(mainTitle, titles, lookup)[i].1)
                            && FirstMention(lookup, titles, j)
                            && titles[j'] == Attachments(mainTitle, titles, lookup)[k].0
                            && lookup(titles[j']) == Some(Attachments(mainTitle, titles, lookup)[k].1)
                            && FirstMention(lookup, titles, j')
  {
    var n := |titles| - 1;
    var init, t := titles[..n], titles[n];
    var prev, full := Attachments(mainTitle, init, lookup), Attachments(mainTitle, titles, lookup);
    var d := lookup(t);
    var added := d.Some? && d.value.title != mainTitle && d.value.title !in PageTitles(prev);
    assert full == if added then prev + [(t, d.value)] else prev;
    assert full[i] == prev[i];
    if k < |prev| {
      assert full[k] == prev[k];
      AttachmentsInOrder(mainTitle, init, lookup, i, k);
      var j, j' :| 0 <= j < j' < n
                   && init[j] == prev[i].0 && lookup(init[j]) == Some(prev[i].1) && FirstMention(lookup, init, j)
                   && init[j'] == prev[k].0 && lookup(init[j']) == Some(prev[k].1) && FirstMention(lookup, init, j');
      FirstMentionInPrefix(lookup, titles, n, j);
      FirstMentionInPrefix(lookup, titles, n, j');
    } else {
      assert full[k] == (t, d.value);
      AttachmentsAreFirstMentions(mainTitle, init, lookup, prev[i]);
      var j :| 0 <= j < n && init[j] == prev[i].0 && lookup(prev[i].0) == Some(prev[i].1)
               && prev[i].1.title != mainTitle && FirstMention(lookup, init, j);
      FirstMentionInPrefix(lookup, titles, n, j);
      AddedIsFirstMention(mainTitle, titles, lookup);
    }
  }

  /** A title the last loop turn attaches is the first mention of its page. */
  lemma AddedIsFirstMention(mainTitle: string, titles: seq<string>, lookup: Lookup)
    requires titles != []
    requires var n := |titles| - 1;
             var d := lookup(titles[n]);
             d.Some? && d.value.title != mainTitle && d.value.title !in PageTitles(Attachments(mainTitle, titles[..n], lookup))
    ensures FirstMention(lookup, titles, |titles| - 1)
  {
    var n := |titles| - 1;
    var init, d := titles[..n], lookup(titles[n]);
    AttachmentsSeen(mainTitle, init, lookup, d.value.title);
    assert forall m :: 0 <= m < n ==> !Hit(lookup, mainTitle, titles[m], d.value.title) by {
      assert forall m :: 0 <= m < n ==> titles[m] == init[m];
    }
  }

  /** One more mentioned title: it is attached when its lookup finds a page whose
      title is new. */
  lemma AttachmentsSnoc(mainTitle: string, titles: seq<string>, t: string, lookup: Lookup)
    ensures var prev := Attachments(mainTitle, titles, lookup);
            var d := lookup(t);
            Attachments(mainTitle, titles + [t], lookup)
            == if d.Some? && d.value.title != mainTitle && d.value.title !in PageTitles(prev) then prev + [(t, d.value)] else prev
  {
    assert (titles + [t])[..|titles|] == titles;
  }

  /** One turn of the loop of `_get_desc`: the title at index `i` is attached, and
      its page's title added to the seen-set `exist`, when the title is not seen yet. */
  lemma AttachStep(mainTitle: string, titles: seq<string>, lookup: Lookup, i: nat, atts: seq<Attachment>, exist: set<string>)
    requires i < |titles|
    requires atts == Attachments(mainTitle, titles[..i], lookup) && exist == {mainTitle} + PageTitles(atts)
    ensures var d := lookup(titles[i]);
            var attach := d.Some? && d.value.title !in exist;
            && Attachments(mainTitle, titles[..i + 1], lookup) == (if attach then atts + [(titles[i], d.value)] else atts)
            && (attach ==> exist + {d.value.title} == {mainTitle} + PageTitles(atts + [(titles[i], d.value)]))
  {
    Seqs.TakeOneMore(titles, i);
    AttachmentsSnoc(mainTitle, titles[..i], titles[i], lookup);
    var d := lookup(titles[i]);
    if d.Some? && d.value.title !in exist {
      SeenSnoc(mainTitle, atts, (titles[i], d.value));
    }
  }

  /** Adding a page's title to the seen-set keeps it the main title and the titles
      of the attached pages. */
  lemma SeenSnoc(mainTitle: string, atts: seq<Attachment>, x: Attachment)
    ensures {mainTitle} + PageTitles(atts) + {x.1.title} == {mainTitle} + PageTitles(atts + [x])
  {
    PageTitlesSnoc(atts, x);
  }

  /** The attachments `_get_desc` gathers for a wiki page: none for an empty body,
      else those of the titles the body links to. */
  function RelatedPages(page: WikiPage, lookup: Lookup): (atts: seq<Attachment>)
    ensures page.body == [] ==> atts == []
    ensures |atts| <= |WikiLinks.WikiTitles(page.body)|
  {
    if page.body == [] then [] else Attachments(page.title, WikiLinks.WikiTitles(page.body), lookup)
  }

  /** The loop of `_get_desc` over the linked titles, with its seen-set of page titles. */
  method CollectRelated(page: WikiPage, lookup: Lookup) returns (atts: seq<Attachment>)
    ensures atts == RelatedPages(page, lookup)
  {
    atts := [];
    if page.body != [] {
      var tagTitles := WikiLinks.ExtractWikiTitles(page.body);
      atts := AttachTitles(page.title, tagTitles, lookup);
    }
  }

  /** The body of that loop: each mentioned title is looked up, and its page is
      attached when the seen-set does not hold its title yet. */
  method AttachTitles(mainTitle: string, titles: seq<string>, lookup: Lookup) returns (atts: seq<Attachment>)
    ensures atts == Attachments(mainTitle, titles, lookup)
  {
    atts := [];
    var exist := {mainTitle};
    var i := 0;
    while i < |titles|
      invariant 0 <= i <= |titles|
      invariant atts == Attachments(mainTitle, titles[..i], lookup)
      invariant exist == {mainTitle} + PageTitles(atts)
    {
      atts, exist := AttachTitle(mainTitle, titles, lookup, i, atts, exist);
      i := i + 1;
    }
    Seqs.TakeAll(titles);
  }

  /** One turn of that loop, for the title at index `i`. */
  method AttachTitle(mainTitle: string, titles: seq<string>, lookup: Lookup, i: nat, atts: seq<Attachment>, exist: set<string>)
    returns (atts': seq<Attachment>, exist': set<string>)
    requires i < |titles|
    requires atts == Attachments(mainTitle, titles[..i], lookup) && exist == {mainTitle} + PageTitles(atts)
    ensures atts' == Attachments(mainTitle, titles[..i + 1], lookup) && exist' == {mainTitle} + PageTitles(atts')
  {
    var title := titles[i];
    var titleData := lookup(title);
    AttachStep(mainTitle, titles, lookup, i, atts, exist);
    atts', exist' := atts, exist;
    if titleData.Some? && titleData.value.title !in exist {
      atts' := atts + [(title, titleData.value)];
      exist' := exist + {titleData.value.title};
    }
  }

  // ---------------------------------------------------------------------------
  // _get_desc

  /** The answer of the wiki endpoint: the HTTP status and the decoded page, or
      `None` when the body is not JSON. */
  datatype WikiResponse = WikiResponse(status: int, json: Option<WikiPage>)

  /** A 2xx status, the only kind `raise_for_status` of an `httpx` response lets
      pass: informational, redirect, client and server error statuses all raise. */
  predicate IsSuccess(status: int) {
    200 <= status < 300
  }

  /** What `_get_desc` gives: the found flag and the description text, or the
      `HTTPStatusError` that `raise_for_status` raises. */
  datatype DescResult = Described(found: bool, text: string) | HttpError(status: int)

  /** The text for a tag without a usable wiki page. */
  function MissingText(tag: string): string {
    "Tag: " + tag + "\n" + NO_DESCRIPTION
  }

  /** The header and main description block of the text. */
  function MainBlock(tag: string, page: WikiPage, useOtherNames: bool, quote: string -> string): string {
    "## Tag " + quote(tag) + "\n" + "\n" + DescribeWikiData(page, Some(tag), useOtherNames).1 + "\n" + "\n"
  }

  /** The sections of the related pages: one per page that has a description. */
  function Sections(atts: seq<Attachment>): string {
    if atts == [] then [] else Section(atts[0]) + Sections(atts[1..])
  }

  /** The section of one related page, empty when it has no description. */
  function Section(x: Attachment): string {
    var r := DescribeWikiData(x.1, Some(x.0), false);
    if r.0 then "### " + x.0 + "\n\n" + r.1 + "\n\n" else ""
  }

  /** The sections of a longer list are those of its parts, one after the other:
      each page gets its own section, in the order of the list. */
  lemma {:induction false} SectionsAppend(a: seq<Attachment>, b: seq<Attachment>)
    ensures Sections(a + b) == Sections(a) + Sections(b)
  {
    if a != [] {
      var x, rest := Section(a[0]), a[1..];
      assert (a + b)[0] == a[0];
      assert (a + b)[1..] == rest + b;
      SectionsAppend(rest, b);
      assert Sections(a + b) == x + (Sections(rest) + Sections(b));
      assert Sections(a) == x + Sections(rest);
    } else {
      assert a + b == b;
    }
  }

  /** A page gets a section, headed `### <title>`, exactly when it has a description. */
  lemma SectionsSingle(x: Attachment)
    ensures var d := DescribeWikiData(x.1, Some(x.0), false);
            Sections([x]) == if d.0 then "### " + x.0 + "\n\n" + d.1 + "\n\n" else ""
  {
    assert [x][1..] == [];
    assert Sections([x]) == Section(x) + [];
  }

  /** The block of related pages, printed only when some page is attached. */
  function MentionBlock(tag: string, atts: seq<Attachment>, quote: string -> string): (r: string)
    ensures r == [] <==> atts == []
    ensures atts != [] ==> StartsWith(r, "## Mentioned Tags Information\n")
  {
    if atts == [] then []
    else "## Mentioned Tags Information\n" + "\n"
         + "The following parts are attachment tag information mentioned in tag " + quote(tag) + "s description body.\n"
         + "\n" + Sections(atts)
  }

  /** `_get_desc(tag, use_other_names)` for the response `response`; `quote`
      stands for Python's `repr` of a string. */
  method GetDesc(tag: string, useOtherNames: bool, response: WikiResponse, lookup: Lookup, quote: string -> string)
    returns (r: DescResult)
    ensures r.HttpError? <==> response.status != 404 && !IsSuccess(response.status)
    ensures r.HttpError? ==> r.status == response.status
    ensures response.status == 404 || (!r.HttpError? && response.json.None?) ==> r == Described(false, MissingText(tag))
    ensures r.Described? && response.status != 404 && response.json.Some? ==>
              var page := response.json.value;
              && (r.found <==> page.body != [])
              && StartsWith(r.text, MainBlock(tag, page, useOtherNames, quote))
              && (r.text == MainBlock(tag, page, useOtherNames, quote) <==> RelatedPages(page, lookup) == [])
              && r.text == MainBlock(tag, page, useOtherNames, quote) + MentionBlock(tag, RelatedPages(page, lookup), quote)
  {
    if response.status == 404 {
      return Described(false, MissingText(tag));
    }
    if !IsSuccess(response.status) {
      return HttpError(response.status);
    }
    if response.json.None? {
      return Described(false, MissingText(tag));
    }
    var page := response.json.value;
    var atts := CollectRelated(page, lookup);
    var main := MainBlock(tag, page, useOtherNames, quote);
    var found := DescribeWikiData(page, Some(tag), useOtherNames).0;
    var text := main + MentionBlock(tag, atts, quote);
    assert text[..|main|] == main;
    r := Described(found, text);
  }

  // ---------------------------------------------------------------------------
  // _raw_explain

  /** What one attempt of `_raw_explain` gives: `None`, the tuple `(None, None)`,
      the explanation text, the `ValueError` of a line without `:` (the two-name
      unpacking fails), or the `HTTPError` of `_get_desc`. */
  datatype Attempt = Rejected | NonePair | Explained(text: string) | UnpackError | HttpFailure(status: int)

  /** The words of the ATTENTION paragraph before the tag name. */
  const ATTENTION_LEAD: string := "ATTENTION: Tag or wiki information not found for tag `"

  /** The words of the ATTENTION paragraph after the tag name. */
  const ATTENTION_TAIL: string := "`, so this part of the explanation is automatically generated by LLM, "
    + "and **its accuracy is not worthy of high trust**."

  /** The paragraph printed when the tag has no wiki information. */
  function Attention(tag: string): string {
    ATTENTION_LEAD + tag + ATTENTION_TAIL
  }

  /** Dropping the first part of a concatenation leaves the second. */
  lemma DropFront(a: string, b: string)
    ensures StartsWith(a + b, a) && (a + b)[|a|..] == b
  {
    assert (a + b)[..|a|] == a;
  }

  /** The explanation printed from the translated name and description. */
  function Format(tag: string, tagFound: bool, translated: string, desc: string): string {
    var notice := if tagFound then "" else Attention(tag) + "\n\n";
    "## " + translated + "\n\n" + (notice + (desc + "\n\n"))
  }

  /** The explanation starts with `## ` and the translated name, ends with the
      description, and holds the ATTENTION paragraph in between exactly when the
      tag was not found. */
  lemma FormatShape(tag: string, tagFound: bool, translated: string, desc: string)
    ensures var text := Format(tag, tagFound, translated, desc);
            && StartsWith(text, "## " + translated + "\n\n")
            && var rest := text[|translated| + 5..];
            && (tagFound ==> rest == desc + "\n\n")
            && (!tagFound ==> StartsWith(rest, Attention(tag) + "\n\n") && rest[|Attention(tag)| + 2..] == desc + "\n\n")
  {
    var head := "## " + translated + "\n\n";
    var tail := desc + "\n\n";
    var notice := if tagFound then "" else Attention(tag) + "\n\n";
    DropFront(head, notice + tail);
    DropFront(notice, tail);
  }

  /** A line label matches `name` after `strip()` and `lower()`. */
  predicate LabelIs(prefix: string, name: string) {
    Lower(Strip(prefix)) == name
  }

  /** The first line of a two-line answer carries the `tag` label. */
  predicate TagLabelled(line: string) {
    SplitOnce(line, ':').Some? && LabelIs(SplitOnce(line, ':').value.0, "tag")
  }

  /** What the answer parser of `_raw_explain` makes of the answer lines:
      `None`, the tuple `(None, None)`, the `ValueError` of a line without `:`,
      or the translated name and the description with `<br>` replaced. */
  datatype Parse = ParseNone | ParseNonePair | ParseUnpackError | Parsed(translated: string, description: string)

  /** The answer parser of `_raw_explain` on the lines of the stripped answer: a
      wrong line count or a wrong first label gives `None`, a line without `:`
      raises, and a wrong second label gives `(None, None)`. */
  function ParseAnswer(lines: seq<string>): (r: Parse)
    ensures r.ParseNone? <==> |lines| != 2 || (SplitOnce(lines[0], ':').Some? && !TagLabelled(lines[0]))
    ensures r.ParseUnpackError? <==> |lines| == 2 && (SplitOnce(lines[0], ':').None? || (TagLabelled(lines[0]) && SplitOnce(lines[1], ':').None?))
    ensures r.Parsed? || r.ParseNonePair? ==>
              && |lines| == 2 && TagLabelled(lines[0]) && SplitOnce(lines[1], ':').Some?
              && (r.Parsed? <==> LabelIs(SplitOnce(lines[1], ':').value.0, "description"))
    ensures r.Parsed? ==> r.translated == Strip(SplitOnce(lines[0], ':').value.1)
  {
    if |lines| != 2 then ParseNone
    else match SplitOnce(lines[0], ':')
      case None => ParseUnpackError
      case Some(first) =>
        if !LabelIs(first.0, "tag") then ParseNone
        else
          var translated := Strip(first.1);
          match SplitOnce(lines[1], ':')
          case None => ParseUnpackError
          case Some(second) =>
            if !LabelIs(second.0, "description") then ParseNonePair
            else Parsed(translated, Replace(Strip(second.1), "<br>", LINESEP))
  }

  /** `_raw_explain` for the `_get_desc` result `desc` and the language model's
      answer `answer`: the `HTTPError` of `_get_desc` escapes, else the lines of
      the stripped answer are parsed and an accepted answer is printed. */
  function RawExplain(tag: string, desc: DescResult, answer: string): (r: Attempt)
    ensures r.HttpFailure? <==> desc.HttpError?
    ensures r.HttpFailure? ==> r.status == desc.status
    ensures r.Explained? ==> ParseAnswer(SplitLines(Strip(answer))).Parsed?
    ensures desc.Described? ==>
              var p := ParseAnswer(SplitLines(Strip(answer)));
              && (r == Rejected <==> p.ParseNone?)
              && (r == NonePair <==> p.ParseNonePair?)
              && (r == UnpackError <==> p.ParseUnpackError?)
              && (r.Explained? <==> p.Parsed?)
  {
    if desc.HttpError? then HttpFailure(desc.status)
    else match ParseAnswer(SplitLines(Strip(answer)))
      case ParseNone => Rejected
      case ParseNonePair => NonePair
      case ParseUnpackError => UnpackError
      case Parsed(translated, description) => Explained(Format(tag, desc.found, translated, description))
  }

  /** The answer line `name: value`. */
  function Labeled(name: string, value: string): string {
    name + ": " + value
  }

  /** A line `name: value` splits at its first `:` into `name` and ` value`,
      and stripping the second part gives `value` back. */
  lemma SplitLabeled(name: string, value: string)
    requires ':' !in name && Stripped(value)
    ensures SplitOnce(Labeled(name, value), ':') == Some((name, " " + value))
    ensures Strip(" " + value) == value
  {
    var s := Labeled(name, value);
    assert forall m :: 0 <= m < |name| ==> s[m] == name[m];
    assert s[|name|] == ':';
    assert IndexOf(s, ':') == |name|;
    assert s[..|name|] == name;
    assert s[|name| + 1..] == " " + value;
    StripLeadingSpaces(" ", value);
  }

  /** A labelled line is a single line when its name and value are. */
  lemma LabeledSingleLine(name: string, value: string)
    requires SingleLine(name) && SingleLine(value)
    ensures SingleLine(Labeled(name, value))
  {
    assert SingleLine(": ");
    SingleLineConcat(name, ": ");
    SingleLineConcat(name + ": ", value);
  }

  /** A well-formed answer of the language model: the two labelled lines. */
  function WellFormedAnswer(translated: string, description: string): string {
    Labeled("Tag", translated) + "\n" + Labeled("Description", description)
  }

  /** The two lines of a well-formed answer. */
  lemma WellFormedLines(translated: string, description: string)
    requires SingleLine(translated)
    requires Stripped(description) && SingleLine(description) && description != []
    ensures SplitLines(Strip(WellFormedAnswer(translated, description)))
            == [Labeled("Tag", translated), Labeled("Description", description)]
  {
    var first := Labeled("Tag", translated);
    var second := Labeled("Description", description);
    var answer := WellFormedAnswer(translated, description);
    assert Stripped(answer) by {
      assert answer[0] == 'T';
      assert answer[|answer| - 1] == description[|description| - 1];
    }
    assert SingleLine(first) && SingleLine(second) by {
      assert SingleLine("Tag") && SingleLine("Description");
      LabeledSingleLine("Tag", translated);
      LabeledSingleLine("Description", description);
    }
    SplitTwoStrippedLines(first, second);
  }

  /** Two lines whose labels are `tag` and `description` are accepted. */
  lemma ParseLabelledLines(first: string, second: string)
    requires TagLabelled(first)
    requires SplitOnce(second, ':').Some? && LabelIs(SplitOnce(second, ':').value.0, "description")
    ensures ParseAnswer([first, second])
            == Parsed(Strip(SplitOnce(first, ':').value.1), Replace(Strip(SplitOnce(second, ':').value.1), "<br>", LINESEP))
  {
  }

  /** The labels of a well-formed answer pass the label tests and hold no `:`. */
  lemma AnswerLabels()
    ensures LabelIs("Tag", "tag") && ':' !in "Tag"
    ensures LabelIs("Description", "description") && ':' !in "Description"
  {
    StripStripped("Tag");
    StripStripped("Description");
    LowerLabels();
  }

  lemma LowerLabels()
    ensures Lower("Tag") == "tag" && Lower("Description") == "description"
  {
  }

  /** The two labelled lines are accepted. */
  lemma ParseWellFormed(translated: string, description: string)
    requires Stripped(translated) && Stripped(description)
    ensures ParseAnswer([Labeled("Tag", translated), Labeled("Description", description)])
            == Parsed(translated, Replace(description, "<br>", LINESEP))
  {
    var first := Labeled("Tag", translated);
    var second := Labeled("Description", description);
    AnswerLabels();
    SplitLabeled("Tag", translated);
    SplitLabeled("Description", description);
    ParseLabelledLines(first, second);
  }

  /** A well-formed two-line answer is accepted: the translated name and the
      description come back, with `<br>` turned into line separators. */
  lemma RawExplainWellFormed(tag: string, found: bool, descText: string, translated: string, description: string)
    requires Stripped(translated) && SingleLine(translated)
    requires Stripped(description) && SingleLine(description) && description != []
    ensures RawExplain(tag, Described(found, descText), WellFormedAnswer(translated, description))
            == Explained(Format(tag, found, translated, Replace(description, "<br>", LINESEP)))
  {
    var lines := [Labeled("Tag", translated), Labeled("Description", description)];
    WellFormedLines(translated, description);
    ParseWellFormed(translated, description);
    RawExplainOfParse(tag, found, descText, WellFormedAnswer(translated, description), lines);
  }

  /** An answer whose lines parse is printed with the parsed parts. */
  lemma RawExplainOfParse(tag: string, found: bool, descText: string, answer: string, lines: seq<string>)
    requires SplitLines(Strip(answer)) == lines && ParseAnswer(lines).Parsed?
    ensures RawExplain(tag, Described(found, descText), answer)
            == Explained(Format(tag, found, ParseAnswer(lines).translated, ParseAnswer(lines).description))
  {
  }

  /** Each `<br>` of an accepted description becomes one line separator: a text
      made of `<br>`-separated parts without `<` is those parts, one per line. */
  lemma BreakTagsBecomeLines(parts: seq<string>)
    requires forall k :: 0 <= k < |parts| ==> '<' !in parts[k]
    ensures Replace(Join("<br>", parts), "<br>", LINESEP) == Join(LINESEP, parts)
  {
    ReplaceJoin(parts, "<br>", LINESEP);
  }

  /** No `<br>` is left in an accepted description. */
  lemma ExplainedHasNoBreakTag(description: string)
    ensures forall i :: !OccursAt(Replace(description, "<br>", LINESEP), "<br>", i)
  {
    ReplaceLeavesNoTarget(description, "<br>", LINESEP);
  }

  // ---------------------------------------------------------------------------
  // tag_explain

  /** What attempt number `n` (from 1) sees: the `_get_desc` result and the
      language model's answer. */
  type Oracle = nat -> (DescResult, string)

  /** The attempt numbered `n`. */
  function AttemptAt(tag: string, oracle: Oracle, n: nat): Attempt {
    RawExplain(tag, oracle(n).0, oracle(n).1)
  }

  /** What `tag_explain` ends with: the value of the first attempt that is not
      `None` (an exception raised by that attempt included), or the `ValueError`
      raised once the attempts are used up. */
  datatype Outcome = Done(attempt: Attempt) | Unexplained

  /** The `max_retry` of `tag_explain` when none is given. */
  const DEFAULT_MAX_RETRY: int := 5

  /** How many attempts are made at most: the test follows the first attempt. */
  function Tries(maxRetry: int): (n: nat)
    ensures maxRetry >= 1 ==> n == maxRetry
    ensures maxRetry < 1 ==> n == 1
  {
    if maxRetry < 1 then 1 else maxRetry
  }

  /** `tag_explain(tag, max_retry=maxRetry)`; `calls` is the number of attempts made. */
  method TagExplain(tag: string, oracle: Oracle, maxRetry: int := DEFAULT_MAX_RETRY) returns (r: Outcome, calls: nat)
    ensures 1 <= calls <= Tries(maxRetry)
    ensures forall n :: 1 <= n < calls ==> AttemptAt(tag, oracle, n) == Rejected
    ensures r.Done? ==> r.attempt == AttemptAt(tag, oracle, calls) && r.attempt != Rejected
    ensures r.Unexplained? <==> AttemptAt(tag, oracle, calls) == Rejected
    ensures r.Unexplained? ==> calls == Tries(maxRetry)
  {
    var attempt := (n: nat) => AttemptAt(tag, oracle, n);
    r, calls := Retry(maxRetry, attempt);
    assert forall n: nat :: attempt(n) == AttemptAt(tag, oracle, n);
  }

  /** The retry loop of `tag_explain` for the attempts `attempt(1)`, `attempt(2)`, ...:
      it stops at the first one that is not `None`, or gives up after the attempt
      numbered `max_retry` (and after the first when `max_retry < 1`). */
  method Retry(maxRetry: int, attempt: nat -> Attempt) returns (r: Outcome, calls: nat)
    ensures 1 <= calls <= Tries(maxRetry)
    ensures forall n :: 1 <= n < calls ==> attempt(n) == Rejected
    ensures r.Done? ==> r.attempt == attempt(calls) && r.attempt != Rejected
    ensures r.Unexplained? <==> attempt(calls) == Rejected
    ensures r.Unexplained? ==> calls == Tries(maxRetry)
  {
    var i := 0;
    while true
      invariant 0 <= i < Tries(maxRetry)
      invariant forall n :: 1 <= n <= i ==> attempt(n) == Rejected
      decreases Tries(maxRetry) - i
    {
      i := i + 1;
      var retval := attempt(i);
      if retval != Rejected {
        return Done(retval), i;
      }
      if i >= maxRetry {
        return Unexplained, i;
      }
    }
  }
}
