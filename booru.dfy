/** What the Danbooru and Gelbooru queries share: the synthetic `id:<M>` tag that
    bounds a query by the newest id known to the image pool, and the loop that
    drains the retrieval session into a de-duplicated, count-bounded list. */
module Booru {

  import opened PyStr

  /** The number of images both queries collect when no `count` is given. */
  const DEFAULT_COUNT: int := 4

  /** The tag `id:<M>`: only posts whose id is below `M` match. */
  function IdBoundTag(maxId: nat): (t: string)
    ensures StartsWith(t, "id:<")
    ensures forall i :: 4 <= i < |t| ==> '0' <= t[i] <= '9'
  {
    "id:<" + NatToString(maxId)
  }

  /** The bound can be read back from the tag. */
  lemma IdBoundTagRoundTrip(maxId: nat)
    ensures ParseNat(IdBoundTag(maxId)[4..]) == maxId
  {
    assert IdBoundTag(maxId)[4..] == NatToString(maxId);
    ParseNatToString(maxId);
  }

  /** An item of the retrieval session: a post id and the data fetched for it. */
  type Item<D> = (int, D)

  /** The ids that occur in `items`. */
  function IdSet<D>(items: seq<Item<D>>): set<int> {
    set i | 0 <= i < |items| :: items[i].0
  }

  /** Appending an item adds its id to the id set. */
  lemma IdSetSnoc<D>(items: seq<Item<D>>, x: Item<D>)
    ensures IdSet(items + [x]) == IdSet(items) + {x.0}
  {
    var s := items + [x];
    assert forall i :: 0 <= i < |items| ==> s[i] == items[i];
    assert s[|items|] == x;
  }

  /** No id occurs twice in `items`. */
  predicate DistinctIds<D>(items: seq<Item<D>>) {
    forall i, j :: 0 <= i < j < |items| ==> items[i].0 != items[j].0
  }

  /** No item before index `j` carries the id of `s[j]`. */
  predicate IsFirst<D>(s: seq<Item<D>>, j: int)
    requires 0 <= j < |s|
  {
    forall k :: 0 <= k < j ==> s[k].0 != s[j].0
  }

  /** A first occurrence in a prefix is a first occurrence in the whole sequence. */
  lemma IsFirstInPrefix<D>(s: seq<Item<D>>, n: nat, j: nat)
    requires j < n <= |s| && IsFirst(s[..n], j)
    ensures s[j] == s[..n][j] && IsFirst(s, j)
  {
    assert forall m :: 0 <= m <= j ==> s[m] == s[..n][m];
  }

  /** The items of `stream` whose id has not occurred earlier, in stream order:
      what a seen-set filter lets through. */
  function FirstOccurrences<D>(stream: seq<Item<D>>): (r: seq<Item<D>>)
    ensures DistinctIds(r)
    ensures IdSet(r) == IdSet(stream)
    ensures |r| <= |stream|
    ensures forall x :: x in r ==> x in stream
  {
    if stream == [] then []
    else
      var init := stream[..|stream| - 1];
      var last := stream[|stream| - 1];
      assert stream == init + [last];
      IdSetSnoc(init, last);
      if last.0 in IdSet(init) then FirstOccurrences(init)
      else
        IdSetSnoc(FirstOccurrences(init), last);
        FirstOccurrences(init) + [last]
  }

  /** An item is collected exactly when it is the first occurrence of its id. */
  lemma {:induction false} FirstOccurrencesAreFirst<D>(stream: seq<Item<D>>, x: Item<D>)
    ensures x in FirstOccurrences(stream) <==>
            exists j :: 0 <= j < |stream| && stream[j] == x && IsFirst(stream, j)
  {
    if stream != [] {
      var n := |stream| - 1;
      var init := stream[..n];
      assert stream == init + [stream[n]];
      FirstOccurrencesAreFirst(init, x);
      forall j | 0 <= j < |stream| && stream[j] == x && IsFirst(stream, j)
        ensures x in FirstOccurrences(stream)
      {
        if j == n {
          assert forall k :: 0 <= k < n ==> init[k].0 != x.0;
          assert x.0 !in IdSet(init);
        } else {
          assert IsFirst(init, j);
        }
      }
      if x in FirstOccurrences(stream) && x !in FirstOccurrences(init) {
        assert x == stream[n];
        assert forall k :: 0 <= k < n ==> init[k].0 in IdSet(init);
        assert IsFirst(stream, n);
      }
    }
  }

  /** Collected items keep the order in which their ids first occur in the stream:
      the first occurrence of an earlier item comes before that of a later one. */
  lemma {:induction false} FirstOccurrencesInOrder<D>(stream: seq<Item<D>>, i: nat, k: nat)
    requires i < k < |FirstOccurrences(stream)|
    ensures exists j, j' :: 0 <= j < j' < |stream|
                            && stream[j] == FirstOccurrences(stream)[i] && IsFirst(stream, j)
                            && stream[j'] == FirstOccurrences(stream)[k] && IsFirst(stream, j')
  {
    var n := |stream| - 1;
    var init, last := stream[..n], stream[n];
    var r, full := FirstOccurrences(init), FirstOccurrences(stream);
    assert full == if last.0 in IdSet(init) then r else r + [last];
    assert full[i] == r[i];
    if k < |r| {
      assert full[k] == r[k];
      FirstOccurrencesInOrder(init, i, k);
      var j, j' :| 0 <= j < j' < n && init[j] == r[i] && IsFirst(init, j)
                   && init[j'] == r[k] && IsFirst(init, j');
      IsFirstInPrefix(stream, n, j);
      IsFirstInPrefix(stream, n, j');
    } else {
      assert full[k] == last;
      FirstOccurrencesAreFirst(init, r[i]);
      var j :| 0 <= j < n && init[j] == r[i] && IsFirst(init, j);
      IsFirstInPrefix(stream, n, j);
      assert forall m :: 0 <= m < n ==> stream[m].0 != last.0 by {
        assert forall m :: 0 <= m < n ==> init[m].0 in IdSet(init);
      }
      assert IsFirst(stream, n);
    }
  }

  /** Collecting a prefix of the stream gives a prefix of the full collection. */
  lemma {:induction false} FirstOccurrencesPrefix<D>(stream: seq<Item<D>>, i: nat)
    requires i <= |stream|
    ensures |FirstOccurrences(stream[..i])| <= |FirstOccurrences(stream)|
    ensures FirstOccurrences(stream[..i]) == FirstOccurrences(stream)[..|FirstOccurrences(stream[..i])|]
  {
    if i < |stream| {
      var n := |stream| - 1;
      assert stream[..n][..i] == stream[..i];
      FirstOccurrencesPrefix(stream[..n], i);
      FirstOccurrencesStep(stream, n);
      assert stream[..n + 1] == stream;
      var prev := FirstOccurrences(stream[..n]);
      var k := |FirstOccurrences(stream[..i])|;
      assert FirstOccurrences(stream)[..|prev|] == prev;
      assert prev[..k] == FirstOccurrences(stream)[..k];
    } else {
      assert stream[..i] == stream;
    }
  }

  /** The number of items collected is the number of distinct ids in the stream. */
  lemma {:induction false} FirstOccurrencesCount<D>(stream: seq<Item<D>>)
    ensures |FirstOccurrences(stream)| == |IdSet(stream)|
  {
    if stream != [] {
      var n := |stream| - 1;
      assert stream == stream[..n] + [stream[n]];
      IdSetSnoc(stream[..n], stream[n]);
      FirstOccurrencesCount(stream[..n]);
    }
  }

  /** How many items a query returns at most: the loop tests the count only after
      accepting an item, so a count below 1 still accepts one. */
  function Limit(count: int): (n: nat)
    ensures n >= 1 && n >= count
    ensures count >= 1 ==> n == count
    ensures count < 1 ==> n == 1
  {
    if count < 1 then 1 else count
  }

  /** The first `n` elements of `s`, or all of them when there are fewer. */
  function Prefix<T>(s: seq<T>, n: nat): (r: seq<T>)
    ensures |r| <= n && |r| <= |s|
    ensures |r| == n || r == s
    ensures r == s[..|r|]
  {
    if |s| <= n then s else s[..n]
  }

  /** What a query returns for the items `stream` delivers and the requested count. */
  function Collected<D>(stream: seq<Item<D>>, count: int): seq<Item<D>> {
    Prefix(FirstOccurrences(stream), Limit(count))
  }

  /** The collected items have distinct ids, keep stream order, are at most
      `Limit(count)` many, and are exactly that many when the stream has that many
      distinct ids. */
  lemma CollectedBounds<D>(stream: seq<Item<D>>, count: int)
    ensures DistinctIds(Collected(stream, count))
    ensures |Collected(stream, count)| <= Limit(count)
    ensures |Collected(stream, count)| == Limit(count) <==> |IdSet(stream)| >= Limit(count)
    ensures forall x :: x in Collected(stream, count) ==> x in stream
  {
    FirstOccurrencesCount(stream);
    var r := FirstOccurrences(stream);
    assert forall x :: x in Prefix(r, Limit(count)) ==> x in r;
  }

  /** The item at position `i` of a collection is the first occurrence of its id. */
  lemma CollectedIsFirstOccurrence<D>(stream: seq<Item<D>>, count: int, i: nat)
    requires i < |Collected(stream, count)|
    ensures exists j :: 0 <= j < |stream| && stream[j] == Collected(stream, count)[i] && IsFirst(stream, j)
  {
    var x := Collected(stream, count)[i];
    assert x in FirstOccurrences(stream);
    FirstOccurrencesAreFirst(stream, x);
  }

  /** One more stream item: it is kept when its id has not occurred before. */
  lemma FirstOccurrencesStep<D>(stream: seq<Item<D>>, i: nat)
    requires i < |stream|
    ensures var prev := FirstOccurrences(stream[..i]);
            FirstOccurrences(stream[..i + 1])
            == if stream[i].0 in IdSet(prev) then prev else prev + [stream[i]]
  {
    assert stream[..i + 1][..i] == stream[..i];
  }

  /** The collecting loop of `query_danbooru_images` and `query_gelbooru_images`:
      an item is appended when its id is not yet in the seen-set, and the loop ends
      as soon as the list reaches `count` items. `consumed` is how many stream items
      it pulled. */
  method Collect<D>(stream: seq<Item<D>>, count: int) returns (images: seq<Item<D>>, ghost consumed: nat)
    ensures images == Collected(stream, count)
    ensures consumed <= |stream| && images == FirstOccurrences(stream[..consumed])
    ensures consumed < |stream| ==> 0 < consumed && |images| == Limit(count)
    ensures 0 < consumed ==> |FirstOccurrences(stream[..consumed - 1])| < Limit(count)
  {
    images := [];
    var existIds: set<int> := {};
    var i := 0;
    consumed := 0;
    while i < |stream|
      invariant 0 <= i <= |stream|
      invariant images == FirstOccurrences(stream[..i])
      invariant existIds == IdSet(images)
      invariant |images| < Limit(count)
      invariant 0 < i ==> |FirstOccurrences(stream[..i - 1])| < Limit(count)
    {
      var item := stream[i];
      FirstOccurrencesStep(stream, i);
      i := i + 1;
      if item.0 !in existIds {
        IdSetSnoc(images, item);
        images := images + [item];
        existIds := existIds + {item.0};
        if |images| >= count {
          consumed := i;
          CollectedOnceFull(stream, count, i);
          return;
        }
      }
    }
    consumed := i;
    assert stream[..i] == stream;
  }

  /** Once the prefix `stream[..i]` yields `Limit(count)` items, they are the collection. */
  lemma CollectedOnceFull<D>(stream: seq<Item<D>>, count: int, i: nat)
    requires i <= |stream| && |FirstOccurrences(stream[..i])| == Limit(count)
    ensures FirstOccurrences(stream[..i]) == Collected(stream, count)
  {
    FirstOccurrencesPrefix(stream, i);
  }
}
