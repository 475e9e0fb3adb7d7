/**
 * The read side of the post resolver as functions over the rows of the post
 * table, plus the two row rewrites that `updatePost` and `deletePost` ask of
 * the table.
 */
module PostQueries {
  import opened Common

  /** The columns the post resolver touches; `createdAt` is a millisecond timestamp. */
  datatype Post = Post(id: int, createdAt: int, title: string, text: string, creatorId: int)

  /** The `input` argument of `createPost` (class PostInput). */
  datatype PostInput = PostInput(title: string, text: string)

  const SnippetLength: nat := 50
  const MaxPageSize: int := 50

  /** `textSnippet`: the first 50 characters of the text, or all of a shorter one. */
  function TextSnippet(root: Post): (r: string)
    ensures r <= root.text
    ensures |r| == Min(SnippetLength, |root.text|)
  {
    if |root.text| <= SnippetLength then root.text else root.text[..SnippetLength]
  }

  /** A snippet is the whole text exactly when the text fits. */
  lemma SnippetIsWholeTextIffShort(root: Post)
    ensures TextSnippet(root) == root.text <==> |root.text| <= SnippetLength
  {
  }

  // ---------------------------------------------------------------------
  // posts(limit, cursor)

  /** A null or empty cursor is falsy and adds no `where` condition. */
  predicate FiltersByCursor(cursor: Option<string>)
  {
    cursor.Some? && cursor.value != ""
  }

  /** `Math.min(50, limit)`, the page size handed to `take`. */
  function RealLimit(limit: int): (n: int)
    ensures n <= MaxPageSize && n <= limit
    ensures n == MaxPageSize || n == limit
  {
    Min(MaxPageSize, limit)
  }

  /** The rows strictly older than `time`, in table order. */
  function OlderThan(rows: seq<Post>, time: int): (r: seq<Post>)
    ensures forall p :: p in r <==> p in rows && p.createdAt < time
    ensures multiset(r) <= multiset(rows)
    ensures forall p {:trigger multiset(r)[p]} :: multiset(r)[p] == if p.createdAt < time then multiset(rows)[p] else 0
  {
    if rows == [] then []
    else
      assert rows == [rows[0]] + rows[1..];
      if rows[0].createdAt < time then [rows[0]] + OlderThan(rows[1..], time)
      else OlderThan(rows[1..], time)
  }

  /** The rows the `where "createdAt" < :cursor` condition lets through. */
  function Eligible(rows: seq<Post>, cursor: Option<string>, parse: string -> int): (r: seq<Post>)
    ensures !FiltersByCursor(cursor) ==> r == rows
    ensures FiltersByCursor(cursor) ==> forall p :: p in r <==> p in rows && p.createdAt < parse(cursor.value)
    ensures FiltersByCursor(cursor) ==>
              forall p {:trigger multiset(r)[p]} :: multiset(r)[p] == if p.createdAt < parse(cursor.value) then multiset(rows)[p] else 0
    ensures multiset(r) <= multiset(rows)
  {
    if FiltersByCursor(cursor) then OlderThan(rows, parse(cursor.value)) else rows
  }

  /** `orderBy("createdAt", "DESC")`: newer posts first. */
  predicate NewestFirst(s: seq<Post>)
  {
    forall i, j :: 0 <= i < j < |s| ==> s[i].createdAt >= s[j].createdAt
  }

  function InsertByDate(p: Post, s: seq<Post>): (r: seq<Post>)
    requires NewestFirst(s)
    ensures NewestFirst(r)
    ensures multiset(r) == multiset(s) + multiset{p}
    ensures |r| == |s| + 1
  {
    if s == [] then [p]
    else if p.createdAt >= s[0].createdAt then
      ConsNewest(p, s);
      [p] + s
    else
      assert s == [s[0]] + s[1..];
      var rest := InsertByDate(p, s[1..]);
      NoNewerThanHead(p, s, rest);
      ConsNewest(s[0], rest);
      [s[0]] + rest
  }

  /** A post no older than every post of a newest-first sequence can go in front. */
  lemma ConsNewest(p: Post, s: seq<Post>)
    requires NewestFirst(s)
    requires forall k :: 0 <= k < |s| ==> p.createdAt >= s[k].createdAt
    ensures NewestFirst([p] + s)
  {
    var r := [p] + s;
    forall i, j | 0 <= i < j < |r| ensures r[i].createdAt >= r[j].createdAt {
      assert r[j] == s[j - 1];
      if i > 0 {
        assert r[i] == s[i - 1];
      }
    }
  }

  /** Inserting an older post into the tail keeps everything at or below the head. */
  lemma NoNewerThanHead(p: Post, s: seq<Post>, rest: seq<Post>)
    requires NewestFirst(s) && s != [] && p.createdAt < s[0].createdAt
    requires multiset(rest) == multiset(s[1..]) + multiset{p}
    ensures forall k :: 0 <= k < |rest| ==> s[0].createdAt >= rest[k].createdAt
  {
    forall k | 0 <= k < |rest|
      ensures s[0].createdAt >= rest[k].createdAt
    {
      assert rest[k] in multiset(rest);
      if rest[k] != p {
        assert rest[k] in multiset(s[1..]);
        var j :| 0 <= j < |s[1..]| && s[1..][j] == rest[k];
        assert s[j + 1] == rest[k];
      }
    }
  }

  /** Sorts newest first; posts with equal timestamps keep no particular order. */
  function SortNewestFirst(s: seq<Post>): (r: seq<Post>)
    ensures NewestFirst(r)
    ensures multiset(r) == multiset(s)
    ensures |r| == |s|
  {
    if s == [] then []
    else
      assert s == [s[0]] + s[1..];
      InsertByDate(s[0], SortNewestFirst(s[1..]))
  }

  /**
   * A prefix of a newest-first sequence is newest first, and no element left
   * behind is newer than an element taken.
   */
  lemma {:induction false} NewestPrefix(s: seq<Post>, n: nat)
    requires NewestFirst(s) && n <= |s|
    ensures NewestFirst(s[..n])
    ensures multiset(s[..n]) <= multiset(s)
    ensures forall q :: q in multiset(s) - multiset(s[..n]) ==>
              forall p :: p in s[..n] ==> p.createdAt >= q.createdAt
  {
    assert s == s[..n] + s[n..];
    assert multiset(s) == multiset(s[..n]) + multiset(s[n..]);
    forall q | q in multiset(s) - multiset(s[..n])
      ensures forall p :: p in s[..n] ==> p.createdAt >= q.createdAt
    {
      assert q in multiset(s[n..]);
      var j :| 0 <= j < |s[n..]| && s[n..][j] == q;
      forall p | p in s[..n]
        ensures p.createdAt >= q.createdAt
      {
        var i :| 0 <= i < n && s[i] == p;
        assert s[n + j] == q;
      }
    }
  }

  /** The newest `n` eligible posts, newest first, or all of them when fewer exist. */
  function NewestEligible(rows: seq<Post>, cursor: Option<string>, parse: string -> int, n: nat): (r: seq<Post>)
    ensures |r| == Min(n, |Eligible(rows, cursor, parse)|)
    ensures NewestFirst(r)
    ensures forall p :: p in r ==> p in rows
    ensures FiltersByCursor(cursor) ==> forall p :: p in r ==> p.createdAt < parse(cursor.value)
  {
    var eligible := Eligible(rows, cursor, parse);
    var sorted := SortNewestFirst(eligible);
    var k := Min(n, |sorted|);
    NewestPrefix(sorted, k);
    assert forall p :: p in sorted[..k] ==> p in multiset(eligible);
    sorted[..k]
  }

  /**
   * The newest eligible posts are drawn from the eligible ones without
   * repeating any, and none left out is newer than one taken.
   */
  lemma NewestEligibleSkipsNoNewer(rows: seq<Post>, cursor: Option<string>, parse: string -> int, n: nat)
    ensures multiset(NewestEligible(rows, cursor, parse, n)) <= multiset(Eligible(rows, cursor, parse))
    ensures n >= |Eligible(rows, cursor, parse)| ==>
              multiset(NewestEligible(rows, cursor, parse, n)) == multiset(Eligible(rows, cursor, parse))
    ensures forall q :: q in multiset(Eligible(rows, cursor, parse)) - multiset(NewestEligible(rows, cursor, parse, n)) ==>
              forall p :: p in NewestEligible(rows, cursor, parse, n) ==> p.createdAt >= q.createdAt
  {
    var sorted := SortNewestFirst(Eligible(rows, cursor, parse));
    NewestPrefix(sorted, Min(n, |sorted|));
    assert Min(n, |sorted|) == |sorted| ==> sorted[..Min(n, |sorted|)] == sorted;
  }

  /** The answer of the `posts` query: the page, or the database's refusal of the query. */
  datatype PostsResult = Rows(posts: seq<Post>) | QueryRejected

  /**
   * `posts(limit, cursor)` as written: `Math.min(50, limit)` goes to the
   * query builder's `take`, which adds a LIMIT only when that value is
   * truthy. A positive value gives the newest `min(50, limit)` eligible
   * posts; 0 adds no LIMIT and gives every eligible post; a negative value
   * becomes a negative LIMIT, which the database rejects.
   */
  function Posts(rows: seq<Post>, limit: int, cursor: Option<string>, parse: string -> int): (r: PostsResult)
    ensures r.QueryRejected? <==> limit < 0
    ensures limit >= 1 ==> r.Rows? && |r.posts| == Min(RealLimit(limit), |Eligible(rows, cursor, parse)|)
    ensures limit >= 1 ==> r.Rows? && |r.posts| <= MaxPageSize
    ensures limit == 0 ==> r.Rows? && |r.posts| == |Eligible(rows, cursor, parse)|
    ensures r.Rows? ==> NewestFirst(r.posts) && forall p :: p in r.posts ==> p in rows
    ensures r.Rows? && FiltersByCursor(cursor) ==> forall p :: p in r.posts ==> p.createdAt < parse(cursor.value)
  {
    var take := RealLimit(limit);
    if take < 0 then QueryRejected
    else if take == 0 then Rows(NewestEligible(rows, cursor, parse, |Eligible(rows, cursor, parse)|))
    else Rows(NewestEligible(rows, cursor, parse, take))
  }

  /**
   * A page of `posts` is drawn from the eligible posts without repeating
   * any, and no eligible post left off it is newer than a post on it; with
   * `limit` 0 it holds every eligible post.
   */
  lemma PostsSkipsNoNewer(rows: seq<Post>, limit: int, cursor: Option<string>, parse: string -> int)
    ensures Posts(rows, limit, cursor, parse).Rows? ==>
              multiset(Posts(rows, limit, cursor, parse).posts) <= multiset(Eligible(rows, cursor, parse))
    ensures limit == 0 ==> multiset(Posts(rows, limit, cursor, parse).posts) == multiset(Eligible(rows, cursor, parse))
    ensures Posts(rows, limit, cursor, parse).Rows? ==>
              forall q :: q in multiset(Eligible(rows, cursor, parse)) - multiset(Posts(rows, limit, cursor, parse).posts) ==>
                forall p :: p in Posts(rows, limit, cursor, parse).posts ==> p.createdAt >= q.createdAt
  {
    if limit == 0 {
      NewestEligibleSkipsNoNewer(rows, cursor, parse, |Eligible(rows, cursor, parse)|);
    } else if limit > 0 {
      NewestEligibleSkipsNoNewer(rows, cursor, parse, RealLimit(limit));
    }
  }

  /**
   * The 50-row cap does not hold as written: with `limit` 0 and more than
   * 50 eligible posts, the page holds all of them.
   */
  lemma PostsZeroLimitUncapped(rows: seq<Post>, parse: string -> int)
    requires |rows| > MaxPageSize
    ensures Posts(rows, 0, None, parse).Rows?
    ensures |Posts(rows, 0, None, parse).posts| == |rows| > MaxPageSize
  {
  }

  /** A concrete table of 51 posts on which `posts(limit: 0)` answers 51 rows. */
  lemma PostsZeroLimitExample(parse: string -> int)
    ensures var rows := seq(51, i => Post(i + 1, i, "", "", 1));
            |Posts(rows, 0, None, parse).posts| == 51
  {
    PostsZeroLimitUncapped(seq(51, i => Post(i + 1, i, "", "", 1)), parse);
  }

  /**
   * The evidently intended `posts`: the newest `min(50, limit)` eligible
   * posts for every limit, an empty page when that is not positive. It never
   * answers more than 50 rows, and it agrees with `Posts` for every
   * positive limit.
   */
  function CappedPosts(rows: seq<Post>, limit: int, cursor: Option<string>, parse: string -> int): (r: seq<Post>)
    ensures |r| <= MaxPageSize && |r| <= Max(0, limit)
    ensures |r| == Min(Max(0, RealLimit(limit)), |Eligible(rows, cursor, parse)|)
    ensures NewestFirst(r) && forall p :: p in r ==> p in rows
    ensures FiltersByCursor(cursor) ==> forall p :: p in r ==> p.createdAt < parse(cursor.value)
    ensures limit >= 1 ==> Posts(rows, limit, cursor, parse) == Rows(r)
  {
    NewestEligible(rows, cursor, parse, Max(0, RealLimit(limit)))
  }

  /**
   * Cursor pagination: asking for the next page with the timestamp of the
   * oldest post of this page as cursor yields only posts strictly older
   * than every post of this page.
   */
  lemma NextPageIsOlder(rows: seq<Post>, limit: int, cursor: Option<string>, next: string,
                        nextLimit: int, parse: string -> int)
    ensures var page := CappedPosts(rows, limit, cursor, parse);
            page != [] && next != "" && parse(next) == page[|page| - 1].createdAt ==>
              AllOlder(CappedPosts(rows, nextLimit, Some(next), parse), page)
  {
    var page := CappedPosts(rows, limit, cursor, parse);
    if page != [] && next != "" && parse(next) == page[|page| - 1].createdAt {
      var nextPage := CappedPosts(rows, nextLimit, Some(next), parse);
      assert FiltersByCursor(Some(next));
      OlderThanWholePage(page, nextPage);
    }
  }

  /** Every post of `later` is strictly older than every post of `page`. */
  predicate AllOlder(later: seq<Post>, page: seq<Post>)
  {
    forall p, q :: p in page && q in later ==> q.createdAt < p.createdAt
  }

  lemma OlderThanWholePage(page: seq<Post>, later: seq<Post>)
    requires NewestFirst(page) && page != []
    requires forall q :: q in later ==> q.createdAt < page[|page| - 1].createdAt
    ensures AllOlder(later, page)
  {
    forall p | p in page ensures p.createdAt >= page[|page| - 1].createdAt {
      var i :| 0 <= i < |page| && page[i] == p;
    }
  }

  // ---------------------------------------------------------------------
  // post(id), updatePost, deletePost

  /** No two rows share an id (the primary key). */
  predicate UniqueIds(rows: seq<Post>)
  {
    forall i, j :: 0 <= i < j < |rows| ==> rows[i].id != rows[j].id
  }

  /** `Post.findOne(id)`: the row with that id, or nothing. */
  function FindPost(rows: seq<Post>, id: int): (r: Option<Post>)
    ensures r.Some? ==> r.value in rows && r.value.id == id
    ensures r.None? <==> forall p :: p in rows ==> p.id != id
  {
    if rows == [] then None
    else if rows[0].id == id then Some(rows[0])
    else
      assert rows == [rows[0]] + rows[1..];
      FindPost(rows[1..], id)
  }

  /** With unique ids the row found is the only row with that id. */
  lemma {:induction false} FindPostUnique(rows: seq<Post>, id: int, i: nat)
    requires UniqueIds(rows) && i < |rows| && rows[i].id == id
    ensures FindPost(rows, id) == Some(rows[i])
  {
    if i > 0 {
      assert rows[0].id != id;
      UniqueTail(rows);
      FindPostUnique(rows[1..], id, i - 1);
    }
  }

  /**
   * `Post.update({id}, {title})`: the row with that id gets the new title;
   * every other column of every row, and every other row, stays as it was.
   */
  function WithTitle(rows: seq<Post>, id: int, title: string): (r: seq<Post>)
    ensures |r| == |rows|
    ensures forall i :: 0 <= i < |r| ==>
              && r[i].id == rows[i].id && r[i].createdAt == rows[i].createdAt
              && r[i].text == rows[i].text && r[i].creatorId == rows[i].creatorId
    ensures forall i :: 0 <= i < |r| ==> r[i].title == if rows[i].id == id then title else rows[i].title
  {
    seq(|rows|, i requires 0 <= i < |rows| => if rows[i].id == id then rows[i].(title := title) else rows[i])
  }

  /** Updating an id no row has changes nothing. */
  lemma WithTitleMissingId(rows: seq<Post>, id: int, title: string)
    requires forall p :: p in rows ==> p.id != id
    ensures WithTitle(rows, id, title) == rows
  {
    var r := WithTitle(rows, id, title);
    forall i | 0 <= i < |rows| ensures r[i] == rows[i] {
      assert rows[i] in rows;
    }
  }

  /** `Post.delete(id)`: every row with that id is gone, every other row kept in order. */
  function WithoutPost(rows: seq<Post>, id: int): (r: seq<Post>)
    ensures forall p :: p in r <==> p in rows && p.id != id
    ensures multiset(r) <= multiset(rows)
    ensures forall p {:trigger multiset(r)[p]} :: multiset(r)[p] == if p.id != id then multiset(rows)[p] else 0
    ensures (forall p :: p in rows ==> p.id != id) ==> r == rows
  {
    if rows == [] then []
    else
      assert rows == [rows[0]] + rows[1..];
      if rows[0].id == id then WithoutPost(rows[1..], id)
      else [rows[0]] + WithoutPost(rows[1..], id)
  }

  /** The tail of a table with unique ids has unique ids, none equal to the head's. */
  lemma UniqueTail(rows: seq<Post>)
    requires UniqueIds(rows) && rows != []
    ensures UniqueIds(rows[1..])
    ensures forall p :: p in rows[1..] ==> p.id != rows[0].id
  {
    forall p | p in rows[1..] ensures p.id != rows[0].id {
      var k :| 0 <= k < |rows[1..]| && rows[1..][k] == p;
      assert rows[k + 1] == p;
    }
  }

  /** Deleting keeps the ids unique, and removes exactly one row when the id was present. */
  lemma {:induction false} WithoutPostUnique(rows: seq<Post>, id: int)
    requires UniqueIds(rows)
    ensures UniqueIds(WithoutPost(rows, id))
    ensures FindPost(rows, id).Some? ==> |WithoutPost(rows, id)| == |rows| - 1
    ensures FindPost(rows, id).None? ==> WithoutPost(rows, id) == rows
  {
    if rows != [] {
      UniqueTail(rows);
      WithoutPostUnique(rows[1..], id);
      var rest := WithoutPost(rows[1..], id);
      if rows[0].id == id {
        assert rest == rows[1..];
      } else {
        assert forall p :: p in rest ==> p.id != rows[0].id;
        ConsUnique(rows[0], rest);
      }
    }
  }

  /** Putting a row with a fresh id in front of a table with unique ids keeps them unique. */
  lemma ConsUnique(p: Post, rest: seq<Post>)
    requires UniqueIds(rest) && forall q :: q in rest ==> q.id != p.id
    ensures UniqueIds([p] + rest)
  {
    var r := [p] + rest;
    forall a, b | 0 <= a < b < |r| ensures r[a].id != r[b].id {
      assert r[b] == rest[b - 1];
      if a == 0 {
        assert r[b] in rest;
      } else {
        assert r[a] == rest[a - 1];
      }
    }
  }
}
