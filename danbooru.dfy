/** The Danbooru image query: the tag policy, the page-by-page id enumerator
    `_iter_ids` with its parent and rating filter, and `query_danbooru_images`,
    which feeds the enumerated ids to the retrieval pipe and collects the result. */
module Danbooru {

  import opened Wrappers
  import opened PyStr
  import Booru

  /** The enumerator never asks for a page beyond this one. */
  const MAX_PAGES: nat := 1000

  /** Pages are numbered from 1. */
  const FIRST_PAGE: nat := 1

  /** The ratings accepted when the caller gives none: general, sensitive,
      questionable and explicit. */
  const DEFAULT_ALLOWED_RATINGS: set<string> := {"g", "s", "q", "e"}

  /** One entry of a `posts.json` listing page. */
  datatype Post = Post(id: int, rating: string, parentId: Option<int>)

  /** The listing endpoint: the posts on a given page for the given tags. */
  type Listing = (seq<string>, int) -> seq<Post>

  /** `item.get('parent_id')` is truthy: the field is present, not null and not 0. */
  predicate HasParent(p: Post) {
    p.parentId.Some? && p.parentId.value != 0
  }

  /** The allow-list in force: the caller's, or the default when none is given. */
  function AllowedRatings(ratings: Option<set<string>>): set<string> {
    if ratings.None? then DEFAULT_ALLOWED_RATINGS else ratings.value
  }

  /** The enumerator yields a post's id only for a post without parent whose
      rating is allowed. */
  predicate Keeps(p: Post, allowed: set<string>) {
    !HasParent(p) && p.rating in allowed
  }

  /** Without a ratings argument, a post survives exactly when it has no parent
      and is rated g, s, q or e. */
  lemma DefaultRatingsKeep(p: Post)
    ensures Keeps(p, AllowedRatings(None)) <==>
            !HasParent(p) && (p.rating == "g" || p.rating == "s" || p.rating == "q" || p.rating == "e")
  {
  }

  /** The ids a page contributes, in page order. */
  function Survivors(page: seq<Post>, allowed: set<string>): (ids: seq<int>)
    ensures |ids| <= |page|
  {
    if page == [] then []
    else (if Keeps(page[0], allowed) then [page[0].id] else []) + Survivors(page[1..], allowed)
  }

  /** An id survives a page exactly when some kept post of that page carries it. */
  lemma {:induction false} SurvivorsMembership(page: seq<Post>, allowed: set<string>, id: int)
    ensures id in Survivors(page, allowed) <==>
            exists k :: 0 <= k < |page| && Keeps(page[k], allowed) && page[k].id == id
  {
    if page != [] {
      SurvivorsMembership(page[1..], allowed, id);
      assert forall k :: 1 <= k < |page| ==> page[k] == page[1..][k - 1];
      if exists k :: 0 <= k < |page[1..]| && Keeps(page[1..][k], allowed) && page[1..][k].id == id {
        var k :| 0 <= k < |page[1..]| && Keeps(page[1..][k], allowed) && page[1..][k].id == id;
        assert page[k + 1] == page[1..][k];
      }
    }
  }

  /** The tags sent to the listing: with fewer than two user tags, an `id:<M>`
      bound is added after them; otherwise the tags go unchanged. */
  function QueryTags(tags: seq<string>, maxId: nat): (r: seq<string>)
    ensures |tags| <= |r| <= |tags| + 1 && r[..|tags|] == tags
    ensures |r| == |tags| + 1 <==> |tags| < 2
    ensures |r| == |tags| + 1 ==> r[|tags|] == Booru.IdBoundTag(maxId)
  {
    if |tags| < 2 then tags + [Booru.IdBoundTag(maxId)] else tags
  }

  /** The page numbers the enumerator requests when it reaches page `pageNo`. */
  function PagesFrom(listing: Listing, tags: seq<string>, pageNo: nat): (pages: seq<int>)
    requires 1 <= pageNo <= MAX_PAGES
    ensures 1 <= |pages| <= MAX_PAGES - pageNo + 1 && pages[0] == pageNo
    decreases MAX_PAGES - pageNo
  {
    if listing(tags, pageNo) == [] || pageNo == MAX_PAGES then [pageNo]
    else [pageNo] + PagesFrom(listing, tags, pageNo + 1)
  }

  /** The ids the enumerator yields from page `pageNo` on. */
  function IdsFrom(listing: Listing, tags: seq<string>, allowed: set<string>, pageNo: nat): seq<int>
    requires 1 <= pageNo <= MAX_PAGES
    decreases MAX_PAGES - pageNo
  {
    var page := listing(tags, pageNo);
    if page == [] then []
    else if pageNo == MAX_PAGES then Survivors(page, allowed)
    else Survivors(page, allowed) + IdsFrom(listing, tags, allowed, pageNo + 1)
  }

  /** The surviving ids of the pages `pages`, one page after the other. */
  function SurvivorsOfPages(listing: Listing, tags: seq<string>, allowed: set<string>, pages: seq<int>): seq<int> {
    if pages == [] then []
    else Survivors(listing(tags, pages[0]), allowed) + SurvivorsOfPages(listing, tags, allowed, pages[1..])
  }

  /** Pages are requested in order `pageNo, pageNo + 1, …`, never beyond
      `MAX_PAGES`; every requested page but the last is non-empty, and the last is
      empty or page `MAX_PAGES`. */
  lemma {:induction false} PagesFromShape(listing: Listing, tags: seq<string>, pageNo: nat)
    requires 1 <= pageNo <= MAX_PAGES
    ensures var r := PagesFrom(listing, tags, pageNo);
            && 1 <= |r| <= MAX_PAGES - pageNo + 1
            && (forall k :: 0 <= k < |r| ==> r[k] == pageNo + k)
            && (forall k :: 0 <= k < |r| - 1 ==> listing(tags, r[k]) != [])
            && (listing(tags, r[|r| - 1]) == [] || r[|r| - 1] == MAX_PAGES)
    decreases MAX_PAGES - pageNo
  {
    if listing(tags, pageNo) != [] && pageNo < MAX_PAGES {
      PagesFromShape(listing, tags, pageNo + 1);
    }
  }

  /** The yielded ids are the surviving ids of the requested pages, concatenated
      in request order. */
  lemma {:induction false} IdsFromRequestedPages(listing: Listing, tags: seq<string>, allowed: set<string>, pageNo: nat)
    requires 1 <= pageNo <= MAX_PAGES
    ensures IdsFrom(listing, tags, allowed, pageNo) == SurvivorsOfPages(listing, tags, allowed, PagesFrom(listing, tags, pageNo))
    decreases MAX_PAGES - pageNo
  {
    var page := listing(tags, pageNo);
    var pages := PagesFrom(listing, tags, pageNo);
    if page == [] || pageNo == MAX_PAGES {
      assert pages == [pageNo];
      assert SurvivorsOfPages(listing, tags, allowed, pages) == Survivors(page, allowed) + [];
    } else {
      IdsFromRequestedPages(listing, tags, allowed, pageNo + 1);
      assert pages[0] == pageNo && pages[1..] == PagesFrom(listing, tags, pageNo + 1);
    }
  }

  /** An id is yielded exactly when a kept post of a requested page carries it. */
  lemma {:induction false} SurvivorsOfPagesMembership(listing: Listing, tags: seq<string>, allowed: set<string>, pages: seq<int>, id: int)
    ensures id in SurvivorsOfPages(listing, tags, allowed, pages) <==>
            exists i, k :: 0 <= i < |pages| && 0 <= k < |listing(tags, pages[i])|
                           && Keeps(listing(tags, pages[i])[k], allowed) && listing(tags, pages[i])[k].id == id
  {
    if pages != [] {
      SurvivorsMembership(listing(tags, pages[0]), allowed, id);
      SurvivorsOfPagesMembership(listing, tags, allowed, pages[1..], id);
      assert forall i :: 1 <= i < |pages| ==> pages[i] == pages[1..][i - 1];
      if exists i, k :: 0 <= i < |pages[1..]| && 0 <= k < |listing(tags, pages[1..][i])|
                        && Keeps(listing(tags, pages[1..][i])[k], allowed) && listing(tags, pages[1..][i])[k].id == id {
        var i, k :| 0 <= i < |pages[1..]| && 0 <= k < |listing(tags, pages[1..][i])|
                    && Keeps(listing(tags, pages[1..][i])[k], allowed) && listing(tags, pages[1..][i])[k].id == id;
        assert pages[i + 1] == pages[1..][i];
      }
    }
  }

  /** Over a whole enumeration: an id is yielded exactly when some post of a
      requested page carries it, has no parent and has an allowed rating. */
  lemma EnumeratedIdsAreKept(listing: Listing, tags: seq<string>, allowed: set<string>, id: int)
    ensures var pages := PagesFrom(listing, tags, FIRST_PAGE);
            id in IdsFrom(listing, tags, allowed, FIRST_PAGE) <==>
            exists i, k :: 0 <= i < |pages| && 0 <= k < |listing(tags, pages[i])|
                           && Keeps(listing(tags, pages[i])[k], allowed) && listing(tags, pages[i])[k].id == id
  {
    IdsFromRequestedPages(listing, tags, allowed, FIRST_PAGE);
    SurvivorsOfPagesMembership(listing, tags, allowed, PagesFrom(listing, tags, FIRST_PAGE), id);
  }

  /** The inner loop of `_iter_ids`: the ids of one page's kept posts, in page order. */
  method PageSurvivors(page: seq<Post>, allowed: set<string>) returns (pageIds: seq<int>)
    ensures pageIds == Survivors(page, allowed)
  {
    pageIds := [];
    var k := 0;
    while k < |page|
      invariant 0 <= k <= |page|
      invariant pageIds + Survivors(page[k..], allowed) == Survivors(page, allowed)
    {
      assert page[k..][1..] == page[k + 1..];
      if !HasParent(page[k]) && page[k].rating in allowed {
        pageIds := pageIds + [page[k].id];
      }
      k := k + 1;
    }
  }

  /** `_iter_ids`, drained: requests pages 1, 2, … until a page comes back empty or
      page `MAX_PAGES` has been handled, and yields the id of every post that has
      no parent and an allowed rating. `requested` lists the pages it asked for. */
  method IterIds(tags: seq<string>, ratings: Option<set<string>>, listing: Listing)
    returns (ids: seq<int>, requested: seq<int>)
    ensures ids == IdsFrom(listing, tags, AllowedRatings(ratings), FIRST_PAGE)
    ensures requested == PagesFrom(listing, tags, FIRST_PAGE)
  {
    var allowed := AllowedRatings(ratings);
    var pageNo := FIRST_PAGE;
    ids, requested := [], [];
    ghost var allIds := IdsFrom(listing, tags, allowed, FIRST_PAGE);
    ghost var allPages := PagesFrom(listing, tags, FIRST_PAGE);
    while true
      invariant 1 <= pageNo <= MAX_PAGES
      invariant ids + IdsFrom(listing, tags, allowed, pageNo) == allIds
      invariant requested + PagesFrom(listing, tags, pageNo) == allPages
      decreases MAX_PAGES - pageNo
    {
      var page := listing(tags, pageNo);
      IterIdsStep(listing, tags, allowed, pageNo, ids, requested);
      requested := requested + [pageNo];
      if page == [] {
        break;
      }
      var pageIds := PageSurvivors(page, allowed);
      ids := ids + pageIds;
      pageNo := pageNo + 1;
      if pageNo > MAX_PAGES {
        break;
      }
    }
  }

  /** One round of `_iter_ids` seen from the invariant: what has been yielded and
      requested so far, followed by page `pageNo` and what comes after it. */
  lemma IterIdsStep(listing: Listing, tags: seq<string>, allowed: set<string>, pageNo: nat, ids: seq<int>, requested: seq<int>)
    requires 1 <= pageNo <= MAX_PAGES
    ensures var page := listing(tags, pageNo);
            && (page == [] ==> ids + IdsFrom(listing, tags, allowed, pageNo) == ids
                               && requested + PagesFrom(listing, tags, pageNo) == requested + [pageNo])
            && (page != [] && pageNo == MAX_PAGES ==>
                  ids + IdsFrom(listing, tags, allowed, pageNo) == ids + Survivors(page, allowed)
                  && requested + PagesFrom(listing, tags, pageNo) == requested + [pageNo])
            && (page != [] && pageNo < MAX_PAGES ==>
                  ids + IdsFrom(listing, tags, allowed, pageNo) == (ids + Survivors(page, allowed)) + IdsFrom(listing, tags, allowed, pageNo + 1)
                  && requested + PagesFrom(listing, tags, pageNo) == (requested + [pageNo]) + PagesFrom(listing, tags, pageNo + 1))
  {
    if listing(tags, pageNo) == [] {
      assert ids + [] == ids;
    }
  }

  /** `query_danbooru_images`: the tags are augmented, the enumerated ids go to the
      retrieval pipe `retrieve`, and its items are collected without repeated ids
      until `count` of them are in hand. `maxId` is the newest id of the image
      pool. */
  method QueryImages<D>(tags: seq<string>, ratings: Option<set<string>>, maxId: nat,
                        listing: Listing, retrieve: seq<int> -> seq<Booru.Item<D>>,
                        count: int := Booru.DEFAULT_COUNT)
    returns (images: seq<Booru.Item<D>>)
    ensures images == Booru.Collected(retrieve(IdsFrom(listing, QueryTags(tags, maxId), AllowedRatings(ratings), 1)), count)
    ensures Booru.DistinctIds(images) && |images| <= Booru.Limit(count)
  {
    var queryTags := QueryTags(tags, maxId);
    var ids, _ := IterIds(queryTags, ratings, listing);
    ghost var consumed;
    images, consumed := Booru.Collect(retrieve(ids), count);
    Booru.CollectedBounds(retrieve(ids), count);
  }
}
