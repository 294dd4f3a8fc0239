/** `_extract_wiki_titles`: the wiki links `[[page]]` and `[[page|text]]` of a
    Danbooru wiki body, found as Python's `re.findall` finds the pattern
    `\[\[(.*?)(?:\|(.*?))?\]\]`, and the page title of each. */
module WikiLinks {

  import opened Wrappers
  import opened PyStr
  import Seqs

  /** `]]` starts at index `k`. */
  predicate CloseAt(s: string, k: int) {
    0 <= k && k + 2 <= |s| && s[k] == ']' && s[k + 1] == ']'
  }

  /** `[[` starts at index `k`. */
  predicate OpenAt(s: string, k: int) {
    0 <= k && k + 2 <= |s| && s[k] == '[' && s[k + 1] == '['
  }

  /** No newline in `s[i..j]`: the regex `.` matches any character but `\n`. */
  predicate OneLine(s: string, i: int, j: int)
    requires 0 <= i <= j <= |s|
  {
    forall m :: i <= m < j ==> s[m] != '\n'
  }

  /** The lazy `(.*?)\]\]` from index `k`: the first `]]` on the same line. */
  function CloseFrom(s: string, k: nat): (r: Option<nat>)
    requires k <= |s|
    ensures r.Some? ==> k <= r.value && CloseAt(s, r.value) && OneLine(s, k, r.value)
    ensures r.Some? ==> forall m :: k <= m < r.value ==> !CloseAt(s, m)
    decreases |s| - k
  {
    if k + 2 > |s| then None
    else if CloseAt(s, k) then Some(k)
    else if s[k] == '\n' then None
    else CloseFrom(s, k + 1)
  }

  /** A match of the pattern: `[[` at `start`, the page group `s[start + 2..pageEnd]`,
      and the match ending at `end`, just after its `]]`. */
  datatype Link = Link(start: nat, pageEnd: nat, end: nat)

  /** How `(.*?)(?:\|(.*?))?\]\]` matches from index `q`: the lazy page group grows
      one character at a time, and at each length the optional `|text` part is
      tried before `]]` alone. Gives the end of the page group and of the match. */
  function PageEnd(s: string, q: nat): (r: Option<(nat, nat)>)
    requires q <= |s|
    ensures r.Some? ==> q <= r.value.0 && r.value.0 + 2 <= r.value.1 <= |s|
    ensures r.Some? ==> OneLine(s, q, r.value.0) && CloseAt(s, r.value.1 - 2)
    ensures r.Some? ==> s[r.value.0] == '|' || r.value.1 == r.value.0 + 2
    decreases |s| - q
  {
    if q < |s| && s[q] == '|' && CloseFrom(s, q + 1).Some? then Some((q, CloseFrom(s, q + 1).value + 2))
    else if CloseAt(s, q) then Some((q, q + 2))
    else if q < |s| && s[q] != '\n' then PageEnd(s, q + 1)
    else None
  }

  /** The match of the pattern that starts at index `p`, if any. */
  function MatchAt(s: string, p: nat): (r: Option<Link>)
    requires p <= |s|
    ensures r.Some? ==> r.value.start == p && OpenAt(s, p)
    ensures r.Some? ==> p + 2 <= r.value.pageEnd && r.value.pageEnd + 2 <= r.value.end <= |s|
    ensures r.Some? ==> OneLine(s, p + 2, r.value.pageEnd) && CloseAt(s, r.value.end - 2)
  {
    if OpenAt(s, p) then
      match PageEnd(s, p + 2)
      case Some(ends) => Some(Link(p, ends.0, ends.1))
      case None => None
    else None
  }

  /** `re.findall` from index `p`: the leftmost match, then the search goes on where
      that match ended. */
  function LinksFrom(s: string, p: nat): (links: seq<Link>)
    requires p <= |s|
    decreases |s| - p
  {
    if p == |s| then []
    else match MatchAt(s, p)
      case Some(link) => [link] + LinksFrom(s, link.end)
      case None => LinksFrom(s, p + 1)
  }

  /** Each match takes at least the four characters of `[[` and `]]`, so there are
      at most a quarter as many links as characters searched. */
  lemma {:induction false} LinksFromCount(s: string, p: nat)
    requires p <= |s|
    ensures 4 * |LinksFrom(s, p)| <= |s| - p
    decreases |s| - p
  {
    if p < |s| {
      LinksFromNext(s, p);
      var m := MatchAt(s, p);
      if m.Some? {
        var rest := LinksFrom(s, m.value.end);
        LinksFromCount(s, m.value.end);
        assert |LinksFrom(s, p)| == 1 + |rest|;
        assert p + 4 <= m.value.end;
      } else {
        LinksFromCount(s, p + 1);
      }
    }
  }

  /** Each found link is the match of the pattern at its start, at or after `p`. */
  lemma {:induction false} LinksFromMatches(s: string, p: nat, i: nat)
    requires p <= |s| && i < |LinksFrom(s, p)|
    ensures p <= LinksFrom(s, p)[i].start < |s| && MatchAt(s, LinksFrom(s, p)[i].start) == Some(LinksFrom(s, p)[i])
    decreases |s| - p
  {
    var links := LinksFrom(s, p);
    assert p < |s|;
    LinksFromNext(s, p);
    match MatchAt(s, p)
    case Some(link) =>
      var rest := LinksFrom(s, link.end);
      Seqs.ConsIndex(link, rest, i);
      if i > 0 {
        LinksFromMatches(s, link.end, i - 1);
        assert p < link.end <= rest[i - 1].start;
      }
    case None =>
      LinksFromMatches(s, p + 1, i);
  }

  /** One step of `findall`: the match at `p` and the search after it, or the
      search from `p + 1`. */
  lemma LinksFromNext(s: string, p: nat)
    requires p < |s|
    ensures MatchAt(s, p).Some? ==> LinksFrom(s, p) == [MatchAt(s, p).value] + LinksFrom(s, MatchAt(s, p).value.end)
    ensures MatchAt(s, p).None? ==> LinksFrom(s, p) == LinksFrom(s, p + 1)
  {
  }

  /** A found link ends no later than the next one starts: the matches do not overlap. */
  lemma {:induction false} LinksFromOrdered(s: string, p: nat, i: nat)
    requires p <= |s| && i + 1 < |LinksFrom(s, p)|
    ensures LinksFrom(s, p)[i].end <= LinksFrom(s, p)[i + 1].start
    decreases |s| - p
  {
    var links := LinksFrom(s, p);
    assert p < |s|;
    LinksFromNext(s, p);
    match MatchAt(s, p)
    case Some(link) =>
      var rest := LinksFrom(s, link.end);
      Seqs.ConsIndex(link, rest, i);
      Seqs.ConsIndex(link, rest, i + 1);
      if i == 0 {
        LinksFromMatches(s, link.end, 0);
      } else {
        LinksFromOrdered(s, link.end, i - 1);
      }
    case None =>
      LinksFromOrdered(s, p + 1, i);
  }

  /** The text of the page group of `link`. */
  function PageText(s: string, link: Link): string
    requires link.start + 2 <= link.pageEnd <= |s|
  {
    s[link.start + 2..link.pageEnd]
  }

  /** Position `m` lies inside one of the links. */
  predicate Covered(links: seq<Link>, m: int) {
    exists i :: 0 <= i < |links| && links[i].start <= m < links[i].end
  }

  /** Every position where the pattern matches is the start of a found link or
      lies inside one: `findall` misses no link. */
  lemma {:induction false} LinksFromComplete(s: string, p: nat, m: nat)
    requires p <= m < |s| && MatchAt(s, m).Some?
    ensures Covered(LinksFrom(s, p), m)
    decreases |s| - p, 1
  {
    if MatchAt(s, p).None? {
      assert p < m;
      LinksFromNext(s, p);
      LinksFromComplete(s, p + 1, m);
    } else {
      LinksFromCompleteAtMatch(s, p, m);
    }
  }

  /** The case of `LinksFromComplete` where the pattern matches at `p` itself. */
  lemma {:induction false} LinksFromCompleteAtMatch(s: string, p: nat, m: nat)
    requires p <= m < |s| && MatchAt(s, m).Some? && MatchAt(s, p).Some?
    ensures Covered(LinksFrom(s, p), m)
    decreases |s| - p, 0
  {
    var link := MatchAt(s, p).value;
    var rest := LinksFrom(s, link.end);
    LinksFromNext(s, p);
    if m < link.end {
      Seqs.ConsIndex(link, rest, 0);
    } else {
      LinksFromComplete(s, link.end, m);
      var i :| 0 <= i < |rest| && rest[i].start <= m < rest[i].end;
      Seqs.ConsIndex(link, rest, i + 1);
    }
  }

  /** When no `]]` follows on the line, the pattern cannot finish from `q` either. */
  lemma {:induction false} NoCloseNoMatch(s: string, q: nat)
    requires q <= |s|
    requires CloseFrom(s, q).None?
    ensures PageEnd(s, q).None?
    decreases |s| - q
  {
    if q < |s| && s[q] != '\n' && q + 2 <= |s| {
      NoCloseNoMatch(s, q + 1);
    } else if q < |s| && s[q] != '\n' {
      assert CloseFrom(s, q + 1).None?;
      NoCloseNoMatch(s, q + 1);
    }
  }

  /** When `CloseFrom` finds nothing, no `]]` follows on the same line. */
  lemma {:induction false} CloseFromNone(s: string, k: nat)
    requires k <= |s| && CloseFrom(s, k).None?
    ensures forall m :: k <= m && m + 2 <= |s| && OneLine(s, k, m) ==> !CloseAt(s, m)
    decreases |s| - k
  {
    if k + 2 <= |s| && s[k] != '\n' {
      CloseFromNone(s, k + 1);
      forall m | k <= m && m + 2 <= |s| && OneLine(s, k, m)
        ensures !CloseAt(s, m)
      {
        if m > k {
          assert OneLine(s, k + 1, m);
        }
      }
    }
  }

  /** The pattern matches from the page group on exactly when a `]]` follows on
      the same line. */
  lemma {:induction false} PageEndIffClose(s: string, q: nat)
    requires q <= |s|
    ensures PageEnd(s, q).Some? <==> CloseFrom(s, q).Some?
    decreases |s| - q
  {
    if CloseFrom(s, q).None? {
      NoCloseNoMatch(s, q);
    } else if !CloseAt(s, q) {
      assert q + 2 <= |s| && s[q] != '\n' && CloseFrom(s, q + 1).Some?;
      if s[q] != '|' {
        PageEndIffClose(s, q + 1);
      }
    }
  }

  /** The lazy page group ends at the first index where the rest of the pattern
      matches: no earlier index starts `]]` or a `|` followed by a `]]` on the
      line. */
  lemma {:induction false} PageEndIsLazy(s: string, q: nat)
    requires q <= |s| && PageEnd(s, q).Some?
    ensures var r := PageEnd(s, q).value;
            forall m :: q <= m < r.0 ==> !CloseAt(s, m) && (s[m] == '|' ==> CloseFrom(s, m + 1).None?)
    decreases |s| - q
  {
    var r := PageEnd(s, q).value;
    if r.0 > q {
      PageEndIsLazy(s, q + 1);
      assert PageEnd(s, q) == PageEnd(s, q + 1);
    }
  }

  /** Where the match ends when the page group stops at a `|`: after the first
      `]]` that follows on the line. (Otherwise `]]` follows the page group
      directly, as `PageEnd` ensures.) */
  lemma {:induction false} PageEndClose(s: string, q: nat)
    requires q <= |s| && PageEnd(s, q).Some?
    ensures var r := PageEnd(s, q).value;
            s[r.0] == '|' ==> CloseFrom(s, r.0 + 1).Some? && r.1 == CloseFrom(s, r.0 + 1).value + 2
    decreases |s| - q
  {
    if !(q < |s| && s[q] == '|' && CloseFrom(s, q + 1).Some?) && !CloseAt(s, q) {
      assert PageEnd(s, q) == PageEnd(s, q + 1);
      PageEndClose(s, q + 1);
    }
  }

  /** A match starts at `p` exactly when `[[` starts there and a `]]` follows on
      the same line. */
  lemma MatchAtIff(s: string, p: nat)
    requires p <= |s|
    ensures MatchAt(s, p).Some? <==> OpenAt(s, p) && CloseFrom(s, p + 2).Some?
  {
    if OpenAt(s, p) {
      PageEndIffClose(s, p + 2);
    }
  }

  /** The page group of a match never holds `|`: at the first `|` either the
      optional `|text` part succeeds or no `]]` follows on the line at all. */
  lemma {:induction false} PageHasNoBar(s: string, q: nat)
    requires q <= |s|
    requires PageEnd(s, q).Some?
    ensures forall m :: q <= m < PageEnd(s, q).value.0 ==> s[m] != '|'
    decreases |s| - q
  {
    var r := PageEnd(s, q);
    if r.value.0 > q {
      if s[q] == '|' {
        assert CloseFrom(s, q + 1).None?;
        NoCloseNoMatch(s, q + 1);
      }
      PageHasNoBar(s, q + 1);
    }
  }

  /** The title Python keeps for a page group: the part before the first `|`, stripped. */
  function Title(page: string): (title: string)
    ensures Stripped(title)
  {
    if '|' in page then Strip(SplitOnce(page, '|').value.0) else Strip(page)
  }

  /** `_extract_wiki_titles(text)` as a value: one title per link, in order. */
  function WikiTitles(text: string): (titles: seq<string>)
    ensures |titles| == |LinksFrom(text, 0)|
  {
    var links := LinksFrom(text, 0);
    seq(|links|, i requires 0 <= i < |links| => LinksFromMatches(text, 0, i); Title(PageText(text, links[i])))
  }

  /** Each title is the stripped page text of its link; the page text holds no `|`
      and no newline, so the display text after a `|` never reaches a title. */
  lemma WikiTitlesArePages(text: string, i: nat)
    requires i < |LinksFrom(text, 0)|
    ensures var link := LinksFrom(text, 0)[i];
            && link.start + 2 <= link.pageEnd <= |text|
            && '|' !in PageText(text, link) && '\n' !in PageText(text, link)
            && WikiTitles(text)[i] == Strip(PageText(text, link))
            && Stripped(WikiTitles(text)[i])
  {
    var link := LinksFrom(text, 0)[i];
    LinksFromMatches(text, 0, i);
    PageHasNoBar(text, link.start + 2);
    SliceAvoids(text, link.start + 2, link.pageEnd, '|');
    SliceAvoids(text, link.start + 2, link.pageEnd, '\n');
  }

  /** The loop of `_extract_wiki_titles` over the matches of `re.findall`. */
  method ExtractWikiTitles(text: string) returns (titles: seq<string>)
    ensures titles == WikiTitles(text)
  {
    var links := LinksFrom(text, 0);
    titles := [];
    var i := 0;
    while i < |links|
      invariant 0 <= i <= |links|
      invariant titles == WikiTitles(text)[..i]
    {
      LinksFromMatches(text, 0, i);
      var title := Title(PageText(text, links[i]));
      WikiTitlesStep(text, i);
      titles := titles + [title];
      i := i + 1;
    }
    assert WikiTitles(text)[..i] == WikiTitles(text);
  }

  /** The titles of the first `i + 1` links extend those of the first `i` by the
      title of link `i`. */
  lemma WikiTitlesStep(text: string, i: nat)
    requires i < |LinksFrom(text, 0)|
    ensures var link := LinksFrom(text, 0)[i];
            && link.start + 2 <= link.pageEnd <= |text|
            && WikiTitles(text)[..i + 1] == WikiTitles(text)[..i] + [Title(PageText(text, link))]
  {
    LinksFromMatches(text, 0, i);
    var all := WikiTitles(text);
    assert all[i] == Title(PageText(text, LinksFrom(text, 0)[i]));
    Seqs.TakeOneMore(all, i);
  }
}
