/**
 * Extraction of the post details visible on one loaded page of the
 * "newest" listing. A page shows two lists: the primary rows, each with a
 * post id and a displayed rank, and the age elements, each with a title
 * holding the post's timestamp and a link whose reference holds the post
 * id. Every age element yields one record, joined to the first primary row
 * whose id equals the id found in its link; the records are appended to an
 * array the caller owns.
 */
module Extraction {
  import opened Wrappers
  import opened Patterns

  /** A primary row: its `id` attribute (possibly absent) and its rank text. */
  datatype PrimaryEntry = PrimaryEntry(id: Option<string>, rankText: string)

  /** An age element: its `title` attribute and its link's `href`. */
  datatype SecondaryEntry = SecondaryEntry(title: string, href: string)

  /** What one loaded page exposes, in document order. */
  datatype Page = Page(primaries: seq<PrimaryEntry>, secondaries: seq<SecondaryEntry>)

  /**
   * One extracted record. The id and the rank are absent when the pattern
   * or the join found nothing; the date is absent for an Invalid Date.
   */
  datatype PostDetails = PostDetails(postId: Option<string>, rank: Option<string>, postDate: Option<DateTime>)

  /** The array of records shared by successive extractions. */
  class PostDetailsArray {
    var items: seq<PostDetails>

    constructor ()
      ensures items == []
    {
      items := [];
    }

    method Push(d: PostDetails)
      modifies this
      ensures items == old(items) + [d]
    {
      items := items + [d];
    }
  }

  /** Index of the first primary row at or after `from` whose id is `id`, or `|posts|`. */
  function FirstWithIdFrom(posts: seq<PrimaryEntry>, id: string, from: nat): (j: nat)
    requires from <= |posts|
    ensures from <= j <= |posts|
    ensures j < |posts| ==> posts[j].id == Some(id)
    ensures forall k :: from <= k < j ==> posts[k].id != Some(id)
    decreases |posts| - from
  {
    if from == |posts| || posts[from].id == Some(id) then from
    else FirstWithIdFrom(posts, id, from + 1)
  }

  /**
   * `posts.find((post) => post.postId === postId)?.rank`: the rank text of
   * the first primary row whose id equals `postId`. An absent `postId` is
   * `undefined`, which no id (a string or `null`) equals.
   */
  function FindRank(posts: seq<PrimaryEntry>, postId: Option<string>): (r: Option<string>)
    ensures r.None? <==> postId.None? || forall k :: 0 <= k < |posts| ==> posts[k].id != postId
    ensures r.Some? ==> exists j ::
      && 0 <= j < |posts|
      && posts[j].id == postId
      && posts[j].rankText == r.value
      && forall k :: 0 <= k < j ==> posts[k].id != postId
  {
    match postId
    case None => None
    case Some(id) =>
      var j := FirstWithIdFrom(posts, id, 0);
      if j < |posts| then Some(posts[j].rankText) else None
  }

  /** The record one age element yields, given the primary rows of its page. */
  function MakeRecord(posts: seq<PrimaryEntry>, entry: SecondaryEntry): PostDetails {
    var postId := FirstDigitRun(entry.href);
    PostDetails(postId, FindRank(posts, postId), ParseDate(FirstTimestamp(entry.title)))
  }

  /** The records one page contributes: one per age element, in document order. */
  function PageRecords(page: Page): seq<PostDetails> {
    seq(|page.secondaries|, k requires 0 <= k < |page.secondaries| =>
      MakeRecord(page.primaries, page.secondaries[k]))
  }

  /**
   * Reads the primary rows of `page`, then appends one record per age
   * element to `listPostDetails` and returns that same array.
   */
  method GetHackerNewsPagePostsDetails(page: Page, listPostDetails: PostDetailsArray)
    returns (r: PostDetailsArray)
    modifies listPostDetails
    ensures r == listPostDetails
    ensures listPostDetails.items == old(listPostDetails.items) + PageRecords(page)
  {
    var posts: seq<PrimaryEntry> := [];
    for i := 0 to |page.primaries|
      invariant posts == page.primaries[..i]
    {
      posts := posts + [page.primaries[i]];
    }
    assert posts == page.primaries;
    for i := 0 to |page.secondaries|
      invariant listPostDetails.items == old(listPostDetails.items) + PageRecords(page)[..i]
    {
      var entry := page.secondaries[i];
      var age := FirstTimestamp(entry.title);
      var thisPostId := FirstDigitRun(entry.href);
      var thisRank := FindRank(posts, thisPostId);
      listPostDetails.Push(PostDetails(thisPostId, thisRank, ParseDate(age)));
      assert PageRecords(page)[..i + 1] == PageRecords(page)[..i] + [PageRecords(page)[i]];
    }
    assert PageRecords(page)[..|page.secondaries|] == PageRecords(page);
    r := listPostDetails;
  }

  /**
   * The join, record by record: the k-th record carries the id found in
   * the k-th age element's link, the date of the leftmost timestamp in its
   * title, and the rank of the first primary row with that id; when no
   * row matches, the record is still there with its rank absent.
   */
  lemma {:induction false} PageRecordsJoin(page: Page, k: nat)
    requires k < |page.secondaries|
    ensures |PageRecords(page)| == |page.secondaries|
    ensures var rec := PageRecords(page)[k];
      && rec.postId == FirstDigitRun(page.secondaries[k].href)
      && rec.postDate == ParseDate(FirstTimestamp(page.secondaries[k].title))
      && (rec.rank.None? <==> forall j :: 0 <= j < |page.primaries| ==> page.primaries[j].id != rec.postId || rec.postId.None?)
      && (rec.rank.Some? ==> exists j ::
            && 0 <= j < |page.primaries|
            && page.primaries[j].id == rec.postId
            && page.primaries[j].rankText == rec.rank.value
            && forall i :: 0 <= i < j ==> page.primaries[i].id != rec.postId)
  {
    var rec := PageRecords(page)[k];
    assert rec == MakeRecord(page.primaries, page.secondaries[k]);
  }
}
