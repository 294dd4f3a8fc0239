/** The Gelbooru image query: the tag policy (`id:<M>` always, `sort:score:desc`
    unless the caller sorts), the rating filter handed to the id query, and
    `query_gelbooru_images`. */
module Gelbooru {

  import opened Wrappers
  import opened PyStr
  import Booru

  /** The ratings accepted when the caller gives none. */
  const DEFAULT_ALLOWED_RATINGS: set<string> := {"general", "sensitive", "questionable", "explicit"}

  /** The sort tag added when the query has none. */
  const DEFAULT_SORT_TAG: string := "sort:score:desc"

  /** A post as the id query sees it. */
  datatype Post = Post(id: int, rating: string)

  /** The library id query: the posts it enumerates for a tag list, in its order. */
  type IdQuery = seq<string> -> seq<Post>

  /** `any(tag.startswith('sort:') for tag in tags)`. */
  predicate HasSortTag(tags: seq<string>) {
    exists i :: 0 <= i < |tags| && StartsWith(tags[i], "sort:")
  }

  /** The tags of the query: the user's tags, then `id:<M>`, then the default sort
      tag when no tag starts with `sort:` (the test runs on the list that already
      holds the id bound). */
  function QueryTags(tags: seq<string>, maxId: nat): seq<string> {
    var bounded := tags + [Booru.IdBoundTag(maxId)];
    if !HasSortTag(bounded) then bounded + [DEFAULT_SORT_TAG] else bounded
  }

  /** The user tags come first, unchanged, followed by `id:<M>`; the sort tag is
      added if and only if no user tag starts with `sort:`. */
  lemma QueryTagsShape(tags: seq<string>, maxId: nat)
    ensures var r := QueryTags(tags, maxId);
            && |tags| + 1 <= |r| <= |tags| + 2
            && r[..|tags|] == tags
            && r[|tags|] == Booru.IdBoundTag(maxId)
            && (|r| == |tags| + 2 <==> !HasSortTag(tags))
            && (|r| == |tags| + 2 ==> r[|tags| + 1] == DEFAULT_SORT_TAG)
  {
    var idTag := Booru.IdBoundTag(maxId);
    var bounded := tags + [idTag];
    assert idTag[0] == 'i';
    assert !StartsWith(idTag, "sort:");
    assert forall i :: 0 <= i < |tags| ==> bounded[i] == tags[i];
    assert HasSortTag(bounded) <==> HasSortTag(tags) by {
      if HasSortTag(bounded) {
        var i :| 0 <= i < |bounded| && StartsWith(bounded[i], "sort:");
        assert i < |tags|;
      }
      if HasSortTag(tags) {
        var i :| 0 <= i < |tags| && StartsWith(tags[i], "sort:");
        assert StartsWith(bounded[i], "sort:");
      }
    }
  }

  /** The allow-list in force: the caller's, or the default when none is given. */
  function AllowedRatings(ratings: Option<set<string>>): set<string> {
    if ratings.None? then DEFAULT_ALLOWED_RATINGS else ratings.value
  }

  /** The filter passed to the id query: `x['rating'] in allowed_ratings`. */
  predicate RatingAllowed(allowed: set<string>, p: Post) {
    p.rating in allowed
  }

  /** Without a ratings argument every one of the four Gelbooru ratings passes,
      and nothing else does. */
  lemma DefaultRatingsPass(p: Post)
    ensures RatingAllowed(AllowedRatings(None), p) <==>
            p.rating == "general" || p.rating == "sensitive" || p.rating == "questionable" || p.rating == "explicit"
  {
  }

  /** The ids of the enumerated posts that pass the filter, in enumeration order. */
  function FilteredIds(posts: seq<Post>, allowed: set<string>): (ids: seq<int>)
    ensures |ids| <= |posts|
  {
    if posts == [] then []
    else (if RatingAllowed(allowed, posts[0]) then [posts[0].id] else []) + FilteredIds(posts[1..], allowed)
  }

  /** Only posts whose rating is in the allow-list pass, and every such post does. */
  lemma {:induction false} FilteredIdsMembership(posts: seq<Post>, allowed: set<string>, id: int)
    ensures id in FilteredIds(posts, allowed) <==>
            exists k :: 0 <= k < |posts| && posts[k].rating in allowed && posts[k].id == id
  {
    if posts != [] {
      FilteredIdsMembership(posts[1..], allowed, id);
      assert forall k :: 1 <= k < |posts| ==> posts[k] == posts[1..][k - 1];
      if exists k :: 0 <= k < |posts[1..]| && posts[1..][k].rating in allowed && posts[1..][k].id == id {
        var k :| 0 <= k < |posts[1..]| && posts[1..][k].rating in allowed && posts[1..][k].id == id;
        assert posts[k + 1] == posts[1..][k];
      }
    }
  }

  /** `query_gelbooru_images`: the id query runs on the augmented tags with the
      rating filter, the retrieval pipe `retrieve` fetches the ids, and the items
      are collected without repeated ids until `count` are in hand. */
  method QueryImages<D>(tags: seq<string>, ratings: Option<set<string>>, maxId: nat,
                        query: IdQuery, retrieve: seq<int> -> seq<Booru.Item<D>>,
                        count: int := Booru.DEFAULT_COUNT)
    returns (images: seq<Booru.Item<D>>)
    ensures images == Booru.Collected(retrieve(FilteredIds(query(QueryTags(tags, maxId)), AllowedRatings(ratings))), count)
    ensures Booru.DistinctIds(images) && |images| <= Booru.Limit(count)
  {
    var queryTags := QueryTags(tags, maxId);
    var allowed := AllowedRatings(ratings);
    var ids := FilteredIds(query(queryTags), allowed);
    ghost var consumed;
    images, consumed := Booru.Collect(retrieve(ids), count);
    Booru.CollectedBounds(retrieve(ids), count);
  }
}
