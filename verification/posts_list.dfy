/**
 * The two computations of the posts page (src/pages/PostsList.tsx): the
 * infinite-scroll rule that decides whether another page is fetched, and
 * `allPosts`, the single list rendered from every page loaded so far.
 *
 * `allPosts` flattens the pages, removes repeated ids by going through a
 * JavaScript `Map` keyed by id (an id keeps the position of its first
 * insertion and the value of its last), and sorts the result stably by time
 * in the chosen direction.
 */
module PostsList {
  import opened Collections
  import opened Types
  import opened StableSort

  /** `POSTS_PER_PAGE`: the page size requested and the size of a full page. */
  const PostsPerPage: nat := 10

  /** `initialPageParam`: the number of the first page requested. */
  const InitialPage: int := 1

  // ------------------------------------------------------------- pagination

  /** `getNextPageParam(lastPage, allPages)`: `None` stands for `undefined`, i.e. no next page. */
  function NextPageParam(lastPage: seq<Post>, allPages: seq<seq<Post>>): (r: Option<int>)
    ensures r.Some? <==> |lastPage| == PostsPerPage
    ensures r.Some? ==> r.value > |allPages|
  {
    if |lastPage| == PostsPerPage then Some(|allPages| + 1) else None
  }

  /**
   * The pages the query can hold: every page but the last was full, since a
   * short page ends the fetching.
   */
  ghost predicate Loadable(pages: seq<seq<Post>>) {
    forall i :: 0 <= i < |pages| - 1 ==> |pages[i]| == PostsPerPage
  }

  /**
   * Starting from page 1, the page requested after `k` loaded pages is page
   * `k + 1`: pages are requested consecutively, none skipped and none twice,
   * until a page comes back short.
   */
  lemma PagesConsecutive(pages: seq<seq<Post>>, k: nat)
    requires Loadable(pages) && 0 < k < |pages|
    ensures NextPageParam(pages[k - 1], pages[..k]) == Some(k + InitialPage)
  {
  }

  /** A short last page stops the fetching; a full one asks for the page after the ones loaded. */
  lemma LastPageDecides(pages: seq<seq<Post>>)
    requires pages != []
    ensures |pages[|pages| - 1]| < PostsPerPage ==> NextPageParam(pages[|pages| - 1], pages) == None
    ensures |pages[|pages| - 1]| == PostsPerPage ==> NextPageParam(pages[|pages| - 1], pages) == Some(|pages| + 1)
  {
  }

  // ---------------------------------------------------------------- flatten

  /** `pages.flat()`: the posts of all pages, page by page. */
  function Flatten(pages: seq<seq<Post>>): seq<Post>
    decreases |pages|
  {
    if pages == [] then [] else Flatten(pages[..|pages| - 1]) + pages[|pages| - 1]
  }

  /** The number of posts across all pages. */
  function TotalPosts(pages: seq<seq<Post>>): nat
    decreases |pages|
  {
    if pages == [] then 0 else TotalPosts(pages[..|pages| - 1]) + |pages[|pages| - 1]|
  }

  /** Flattening goes page by page: the posts of earlier pages come first, each page in its own order. */
  lemma {:induction false} FlattenAppend(a: seq<seq<Post>>, b: seq<seq<Post>>)
    ensures Flatten(a + b) == Flatten(a) + Flatten(b)
    decreases |b|
  {
    if b == [] {
      assert a + b == a;
    } else {
      var b' := b[..|b| - 1];
      FlattenAppend(a, b');
      assert (a + b)[..|a + b| - 1] == a + b';
      assert (a + b)[|a + b| - 1] == b[|b| - 1];
    }
  }

  /** A single page flattens to itself. */
  lemma FlattenOne(page: seq<Post>)
    ensures Flatten([page]) == page
  {
    assert [page][..0] == [];
  }

  /** Flattening keeps every post of every page, and nothing else. */
  lemma {:induction false} FlattenSpec(pages: seq<seq<Post>>)
    ensures |Flatten(pages)| == TotalPosts(pages)
    ensures forall p :: p in Flatten(pages) <==> exists i :: 0 <= i < |pages| && p in pages[i]
    decreases |pages|
  {
    if pages != [] {
      var init := pages[..|pages| - 1];
      var last := pages[|pages| - 1];
      FlattenSpec(init);
      assert Flatten(pages) == Flatten(init) + last;
      forall p ensures p in Flatten(pages) <==> exists i :: 0 <= i < |pages| && p in pages[i] {
        assert p in Flatten(pages) <==> p in Flatten(init) || p in last;
        if p in Flatten(init) {
          var i :| 0 <= i < |init| && p in init[i];
          assert p in pages[i];
        } else if p in last {
          assert p in pages[|pages| - 1];
        } else {
          forall i | 0 <= i < |pages| ensures p !in pages[i] {
            if i < |init| {
              assert pages[i] == init[i];
            }
          }
        }
      }
    }
  }

  // --------------------------------------------------- the Map by post id

  /** `map.set(p.id, p)` on the map's entries in insertion order. */
  function Put(m: seq<Post>, p: Post): (r: seq<Post>)
    decreases |m|
  {
    if m == [] then [p]
    else if m[0].id == p.id then [p] + m[1..]
    else [m[0]] + Put(m[1..], p)
  }

  /** `Array.from(new Map(posts.map(p => [p.id, p])).values())`. */
  function Dedupe(posts: seq<Post>): seq<Post>
    decreases |posts|
  {
    if posts == [] then [] else Put(Dedupe(posts[..|posts| - 1]), posts[|posts| - 1])
  }

  /** The ids of a post list, in order. */
  function PostIds(s: seq<Post>): (r: seq<string>)
    ensures |r| == |s|
    decreases |s|
  {
    if s == [] then [] else [s[0].id] + PostIds(s[1..])
  }

  /** The ids of `ids` without repeats, each at its first occurrence. */
  function FirstSeen(ids: seq<string>): seq<string>
    decreases |ids|
  {
    if ids == [] then []
    else
      var rest := FirstSeen(ids[..|ids| - 1]);
      if ids[|ids| - 1] in ids[..|ids| - 1] then rest else rest + [ids[|ids| - 1]]
  }

  /** The last post of `posts` with id `id`, if any. */
  function LastWithId(posts: seq<Post>, id: string): Option<Post>
    decreases |posts|
  {
    if posts == [] then None
    else if posts[|posts| - 1].id == id then Some(posts[|posts| - 1])
    else LastWithId(posts[..|posts| - 1], id)
  }

  lemma {:induction false} PostIdsIndex(s: seq<Post>)
    ensures forall i :: 0 <= i < |s| ==> PostIds(s)[i] == s[i].id
    decreases |s|
  {
    if s != [] {
      PostIdsIndex(s[1..]);
    }
  }

  lemma PostIdsMembers(s: seq<Post>)
    ensures forall id :: id in PostIds(s) <==> id in Image(s, PostId)
  {
    PostIdsIndex(s);
    forall id | id in Image(s, PostId) ensures id in PostIds(s) {
      var p :| p in s && PostId(p) == id;
      var i :| 0 <= i < |s| && s[i] == p;
      assert PostIds(s)[i] == id;
    }
    forall id | id in PostIds(s) ensures id in Image(s, PostId) {
      var i :| 0 <= i < |s| && PostIds(s)[i] == id;
      assert s[i] in s;
    }
  }

  /** Setting an id already present replaces its entry in place; a new id is appended. */
  lemma {:induction false} PutIds(m: seq<Post>, p: Post)
    ensures PostIds(Put(m, p)) == if p.id in PostIds(m) then PostIds(m) else PostIds(m) + [p.id]
    decreases |m|
  {
    if m != [] {
      PutIds(m[1..], p);
      assert PostIds(m) == [m[0].id] + PostIds(m[1..]);
      if m[0].id != p.id && p.id !in PostIds(m[1..]) {
        assert [m[0].id] + (PostIds(m[1..]) + [p.id]) == PostIds(m) + [p.id];
      }
    }
  }

  /** After setting `p`, its id holds `p` and every other entry is unchanged. */
  lemma {:induction false} PutValues(m: seq<Post>, p: Post)
    requires DistinctBy(m, PostId)
    ensures p in Put(m, p)
    ensures forall e :: e in Put(m, p) ==> e == p || (e in m && e.id != p.id)
    ensures forall e :: e in m && e.id != p.id ==> e in Put(m, p)
    decreases |m|
  {
    if m != [] {
      TailDistinct(m, PostId);
      PutValues(m[1..], p);
      assert forall e :: e in m ==> e == m[0] || e in m[1..];
    }
  }

  /** A repeated id adds nothing new; a fresh one is appended. */
  lemma {:induction false} FirstSeenMembers(ids: seq<string>)
    ensures forall x :: x in FirstSeen(ids) <==> x in ids
    decreases |ids|
  {
    if ids != [] {
      var init := ids[..|ids| - 1];
      FirstSeenMembers(init);
      assert ids == init + [ids[|ids| - 1]];
    }
  }

  /** The map's entries carry the distinct ids of the input, in order of first insertion. */
  lemma {:induction false} DedupeIds(posts: seq<Post>)
    ensures PostIds(Dedupe(posts)) == FirstSeen(PostIds(posts))
    decreases |posts|
  {
    if posts != [] {
      var init := posts[..|posts| - 1];
      var last := posts[|posts| - 1];
      DedupeIds(init);
      PutIds(Dedupe(init), last);
      PostIdsIndex(posts);
      PostIdsIndex(init);
      var ids := PostIds(posts);
      assert ids[..|ids| - 1] == PostIds(init);
      assert ids[|ids| - 1] == last.id;
      FirstSeenMembers(PostIds(init));
    }
  }

  /** Every entry of the map holds the last post inserted under its id. */
  lemma {:induction false} DedupeLast(posts: seq<Post>)
    ensures forall e :: e in Dedupe(posts) ==> LastWithId(posts, e.id) == Some(e)
    decreases |posts|
  {
    if posts != [] {
      var init := posts[..|posts| - 1];
      DedupeLast(init);
      DedupeDistinct(init);
      PutValues(Dedupe(init), posts[|posts| - 1]);
    }
  }

  /** Each id occurs at most once among the entries of `FirstSeen`. */
  lemma {:induction false} FirstSeenDistinct(ids: seq<string>)
    ensures forall i, j :: 0 <= i < j < |FirstSeen(ids)| ==> FirstSeen(ids)[i] != FirstSeen(ids)[j]
    decreases |ids|
  {
    if ids != [] {
      var init := ids[..|ids| - 1];
      FirstSeenDistinct(init);
      FirstSeenMembers(init);
    }
  }

  /** No two entries of the map share an id. */
  lemma DedupeDistinct(posts: seq<Post>)
    ensures DistinctBy(Dedupe(posts), PostId)
  {
    var d := Dedupe(posts);
    DedupeIds(posts);
    FirstSeenDistinct(PostIds(posts));
    PostIdsIndex(d);
    forall i, j | 0 <= i < |d| && 0 <= j < |d| && i != j ensures PostId(d[i]) != PostId(d[j]) {
      if i < j {
        assert PostIds(d)[i] != PostIds(d)[j];
      } else {
        assert PostIds(d)[j] != PostIds(d)[i];
      }
    }
  }

  /** The map holds exactly the ids of the input. */
  lemma DedupeIdSet(posts: seq<Post>)
    ensures Image(Dedupe(posts), PostId) == Image(posts, PostId)
  {
    DedupeIds(posts);
    FirstSeenMembers(PostIds(posts));
    PostIdsMembers(posts);
    PostIdsMembers(Dedupe(posts));
  }

  /** With the ids distinct, the map is never longer than the input. */
  lemma DedupeLength(posts: seq<Post>)
    ensures |Dedupe(posts)| <= |posts|
  {
    DedupeDistinct(posts);
    DistinctImageCard(Dedupe(posts), PostId);
    DedupeIdSet(posts);
    ImageCardBound(posts, PostId);
  }

  // -------------------------------------------------------------- the sort

  function NegatedTime(p: Post): int { -p.createdAt }

  /** The comparator `dateB - dateA` (newest) or `dateA - dateB` (oldest), under the stable sort. */
  function SortPosts(s: seq<Post>, order: SortOrder): (r: seq<Post>)
    ensures |r| == |s|
  {
    if order == Newest then SortByKeyDesc(s, PostTime) else SortByKeyDesc(s, NegatedTime)
  }

  /** The order the page promises, as a relation between any two positions. */
  ghost predicate Ordered(r: seq<Post>, order: SortOrder) {
    forall i, j :: 0 <= i < j < |r| ==>
      if order == Newest then r[i].createdAt >= r[j].createdAt else r[i].createdAt <= r[j].createdAt
  }

  /**
   * Sorting permutes the posts, orders them by time in the chosen direction,
   * and keeps posts with equal timestamps in their incoming order.
   */
  lemma SortPostsSpec(s: seq<Post>, order: SortOrder)
    ensures multiset(SortPosts(s, order)) == multiset(s)
    ensures Ordered(SortPosts(s, order), order)
    ensures forall t :: WithKey(SortPosts(s, order), PostTime, t) == WithKey(s, PostTime, t)
  {
    var r := SortPosts(s, order);
    if order == Newest {
      SortByKeyDescSpec(s, PostTime);
      NonIncreasingPairs(r, PostTime);
    } else {
      SortByKeyDescSpec(s, NegatedTime);
      NonIncreasingPairs(r, NegatedTime);
      forall t ensures WithKey(r, PostTime, t) == WithKey(s, PostTime, t) {
        SameKeyClass(r, t);
        SameKeyClass(s, t);
      }
    }
  }

  /** Selecting by time `t` and by negated time `-t` select the same posts. */
  lemma {:induction false} SameKeyClass(s: seq<Post>, t: int)
    ensures WithKey(s, PostTime, t) == WithKey(s, NegatedTime, -t)
    decreases |s|
  {
    if s != [] {
      SameKeyClass(s[1..], t);
    }
  }

  // -------------------------------------------------------------- allPosts

  /** The `allPosts` memo; `None` is a query with no data yet. */
  function AllPosts(data: Option<seq<seq<Post>>>, order: SortOrder): (r: seq<Post>)
    ensures data.None? ==> r == []
  {
    var posts := if data.Some? then Flatten(data.value) else [];
    SortPosts(Dedupe(posts), order)
  }

  /**
   * `allPosts` lists every id of the loaded pages exactly once, each with the
   * post loaded last under it, and is no longer than the pages together.
   */
  lemma AllPostsContents(pages: seq<seq<Post>>, order: SortOrder)
    ensures DistinctBy(AllPosts(Some(pages), order), PostId)
    ensures Image(AllPosts(Some(pages), order), PostId) == Image(Flatten(pages), PostId)
    ensures forall p :: p in AllPosts(Some(pages), order) ==> LastWithId(Flatten(pages), p.id) == Some(p)
    ensures |AllPosts(Some(pages), order)| <= TotalPosts(pages)
  {
    var posts := Flatten(pages);
    var d := Dedupe(posts);
    var r := AllPosts(Some(pages), order);
    SortPostsSpec(d, order);
    DedupeDistinct(posts);
    if order == Newest {
      SortKeepsDistinct(d, PostTime, PostId);
    } else {
      SortKeepsDistinct(d, NegatedTime, PostId);
    }
    DedupeIdSet(posts);
    assert Image(r, PostId) == Image(d, PostId) by {
      forall p ensures p in r <==> p in d {
        assert p in r <==> p in multiset(r);
      }
    }
    DedupeLast(posts);
    forall p | p in r ensures LastWithId(posts, p.id) == Some(p) {
      assert p in multiset(r);
    }
    DedupeLength(posts);
    FlattenSpec(pages);
  }

  /**
   * `allPosts` is ordered by time in the chosen direction; posts with equal
   * timestamps keep the order in which their ids first reached the map.
   */
  lemma AllPostsOrder(pages: seq<seq<Post>>, order: SortOrder)
    ensures Ordered(AllPosts(Some(pages), order), order)
    ensures forall t :: WithKey(AllPosts(Some(pages), order), PostTime, t) == WithKey(Dedupe(Flatten(pages)), PostTime, t)
  {
    SortPostsSpec(Dedupe(Flatten(pages)), order);
  }
}
