/**
 * The parts of `api` (src/services/api.ts) that compute something: the query
 * parameters `getPosts` sends, and the two bulk deletes built on
 * `getComments` and `deleteComment`.
 *
 * The HTTP calls are inputs here: the result of `getComments` is a `Fetch`,
 * and `succeeds(k)` says whether the `k`-th `deleteComment` call (counting
 * from 0) resolves. What a caller can observe is the `Report`: the deletes
 * attempted, in order, and whether the returned promise resolves (`Done`) or
 * rejects (`Failed`).
 */
module Api {
  import opened Collections
  import opened Types

  // ---------------------------------------------------------------- getPosts

  /** The query string of `GET /post`. */
  datatype PostsQuery = PostsQuery(page: int, limit: int, sortBy: string, order: string)

  /** The defaults of `getPosts`' three parameters. */
  const DefaultPage: int := 1
  const DefaultLimit: int := 10
  const DefaultSortOrder: SortOrder := Newest

  /** The parameters `getPosts(page, limit, sortOrder)` sends: always sorted by `createdAt`, newest as `desc`. */
  function GetPostsQuery(page: int, limit: int, sortOrder: SortOrder): (q: PostsQuery)
    ensures q.page == page && q.limit == limit
    ensures q.sortBy == "createdAt"
    ensures q.order == "desc" <==> sortOrder == Newest
    ensures q.order == "asc" <==> sortOrder == Oldest
  {
    var sortParam := if sortOrder == Newest then "createdAt" else "createdAt";
    var orderParam := if sortOrder == Newest then "desc" else "asc";
    assert orderParam == "asc" ==> sortOrder == Oldest by { assert "desc"[0] != "asc"[0]; }
    PostsQuery(page, limit, sortParam, orderParam)
  }

  /** Called without arguments, `getPosts` asks for the first ten posts, newest first. */
  lemma GetPostsDefaults()
    ensures GetPostsQuery(DefaultPage, DefaultLimit, DefaultSortOrder) == PostsQuery(1, 10, "createdAt", "desc")
  {
  }

  // ------------------------------------------------------- the children map

  /** JavaScript truthiness of `comment.parentId`: `null` and `""` are both falsy. */
  predicate HasParent(c: Comment) {
    c.parentId.Some? && c.parentId.value != ""
  }

  /** The comments of `cs` with a truthy `parentId` equal to `id`, in fetch order. */
  function ChildrenOf(cs: seq<Comment>, id: string): seq<Comment>
    decreases |cs|
  {
    if cs == [] then []
    else (if HasParent(cs[0]) && cs[0].parentId.value == id then [cs[0]] else []) + ChildrenOf(cs[1..], id)
  }

  /** `childrenMap.get(id) || []`. */
  function Get(m: map<string, seq<Comment>>, id: string): seq<Comment> {
    if id in m then m[id] else []
  }

  /** One step of the `forEach` that fills `childrenMap`. */
  function AddChild(m: map<string, seq<Comment>>, c: Comment): map<string, seq<Comment>> {
    if HasParent(c) then m[c.parentId.value := Get(m, c.parentId.value) + [c]] else m
  }

  function AddChildren(m: map<string, seq<Comment>>, s: seq<Comment>): map<string, seq<Comment>>
    decreases |s|
  {
    if s == [] then m else AddChildren(AddChild(m, s[0]), s[1..])
  }

  /** `childrenMap`, built over the fetched comments in order. */
  function ChildrenMap(cs: seq<Comment>): map<string, seq<Comment>> {
    AddChildren(map[], cs)
  }

  lemma {:induction false} AddChildrenSpec(m: map<string, seq<Comment>>, s: seq<Comment>, id: string)
    ensures Get(AddChildren(m, s), id) == Get(m, id) + ChildrenOf(s, id)
    decreases |s|
  {
    if s == [] {
      assert Get(m, id) + [] == Get(m, id);
    } else {
      var here: seq<Comment> := if HasParent(s[0]) && s[0].parentId.value == id then [s[0]] else [];
      assert Get(AddChild(m, s[0]), id) == Get(m, id) + here;
      AddChildrenSpec(AddChild(m, s[0]), s[1..], id);
      assert (Get(m, id) + here) + ChildrenOf(s[1..], id) == Get(m, id) + (here + ChildrenOf(s[1..], id));
    }
  }

  /** Looking an id up in the children map gives exactly its children, in fetch order. */
  lemma ChildrenMapSpec(cs: seq<Comment>, id: string)
    ensures Get(ChildrenMap(cs), id) == ChildrenOf(cs, id)
  {
    AddChildrenSpec(map[], cs, id);
    assert [] + ChildrenOf(cs, id) == ChildrenOf(cs, id);
  }

  /** The children of `id` are the fetched comments whose truthy parent id is `id`. */
  lemma {:induction false} ChildrenOfMembers(cs: seq<Comment>, id: string)
    ensures forall c :: c in ChildrenOf(cs, id) <==> c in cs && HasParent(c) && c.parentId.value == id
    decreases |cs|
  {
    if cs != [] {
      ChildrenOfMembers(cs[1..], id);
      assert forall c :: c in cs <==> c == cs[0] || c in cs[1..];
    }
  }

  /**
   * The children map agrees with the reply lists of `buildCommentTree` for
   * every id but the empty one: a comment whose `parentId` is `""` is a reply
   * of a comment with id `""` in the tree, but nobody's child here.
   */
  lemma {:induction false} ChildrenAreReplies(cs: seq<Comment>, id: string)
    ensures ChildrenOf(cs, id) == if id == "" then [] else RepliesTo(cs, id)
    decreases |cs|
  {
    if cs != [] {
      ChildrenAreReplies(cs[1..], id);
    }
  }

  // ------------------------------------------------------ the BFS closure

  /** The BFS state: `idsToDelete` and `queue`. */
  datatype Search = Search(visited: set<string>, queue: seq<string>)

  /** `children.forEach(...)`: each child id not yet visited is marked and queued. */
  function Enqueue(st: Search, kids: seq<Comment>): Search
    decreases |kids|
  {
    if kids == [] then st
    else
      var id := kids[0].id;
      Enqueue(if id in st.visited then st else Search(st.visited + {id}, st.queue + [id]), kids[1..])
  }

  /**
   * Enqueueing only adds: it marks every child, marks nothing else, keeps the
   * queue as a prefix, and queues each newly marked id.
   */
  lemma {:induction false} EnqueueSpec(st: Search, kids: seq<Comment>)
    ensures st.visited <= Enqueue(st, kids).visited
    ensures forall c :: c in kids ==> c.id in Enqueue(st, kids).visited
    ensures forall x :: x in Enqueue(st, kids).visited && x !in st.visited ==> x in Image(kids, CommentId)
    ensures |st.queue| <= |Enqueue(st, kids).queue| && Enqueue(st, kids).queue[..|st.queue|] == st.queue
    ensures forall x :: x in Enqueue(st, kids).visited && x !in st.visited ==> x in Enqueue(st, kids).queue[|st.queue|..]
    ensures forall x :: x in Enqueue(st, kids).queue[|st.queue|..] ==> x in Enqueue(st, kids).visited
    ensures Enqueue(st, kids).visited == st.visited ==> Enqueue(st, kids).queue == st.queue
    decreases |kids|
  {
    if kids != [] {
      var id := kids[0].id;
      var next := if id in st.visited then st else Search(st.visited + {id}, st.queue + [id]);
      EnqueueSpec(next, kids[1..]);
      var r := Enqueue(st, kids);
      assert r == Enqueue(next, kids[1..]);
      assert next.queue[..|st.queue|] == st.queue;
      assert r.queue[..|st.queue|] == r.queue[..|next.queue|][..|st.queue|];
      ImageCons(kids, CommentId);
      forall x | x in r.queue[|st.queue|..] ensures x in r.visited {
        if x !in r.queue[|next.queue|..] {
          assert x == id && next.visited == st.visited + {id};
        }
      }
      forall x | x in r.visited && x !in st.visited ensures x in r.queue[|st.queue|..] {
        if x == id && id !in st.visited {
          assert next.queue[|st.queue|] == id;
          assert r.queue[|st.queue|] == id;
        } else {
          assert x in r.queue[|next.queue|..];
        }
      }
    }
  }

  /** Every child listed in `m` has an id inside `universe`. */
  ghost predicate KidsWithin(m: map<string, seq<Comment>>, universe: set<string>) {
    forall x, c :: c in Get(m, x) ==> c.id in universe
  }

  /** Marking at least one more id of a finite universe leaves fewer unmarked. */
  lemma GrowthShrinks(universe: set<string>, v: set<string>, w: set<string>)
    requires v <= w <= universe && v != w
    ensures |universe - w| < |universe - v|
  {
    var x :| x in w && x !in v;
    StrictGrowthShrinksRest(universe, v, w, x);
  }

  /**
   * The `while (queue.length > 0)` loop. It terminates even when parent ids
   * form a cycle: every round either marks a new id of the finite
   * universe or shortens the queue.
   */
  function Explore(m: map<string, seq<Comment>>, ghost universe: set<string>, st: Search): set<string>
    requires st.visited <= universe && KidsWithin(m, universe)
    decreases |universe - st.visited|, |st.queue|
  {
    if st.queue == [] then st.visited
    else
      var rest := Search(st.visited, st.queue[1..]);
      var kids := Get(m, st.queue[0]);
      EnqueueSpec(rest, kids);
      var next := Enqueue(rest, kids);
      assert next.visited <= universe;
      if next.visited == st.visited then Explore(m, universe, next)
      else GrowthShrinks(universe, st.visited, next.visited); Explore(m, universe, next)
  }

  /** The set `idsToDelete` when the loop ends. */
  function Closure(cs: seq<Comment>, target: string): set<string> {
    var m := ChildrenMap(cs);
    KidsWithinUniverse(cs, target);
    Explore(m, {target} + Image(cs, CommentId), Search({target}, [target]))
  }

  lemma KidsWithinUniverse(cs: seq<Comment>, target: string)
    ensures KidsWithin(ChildrenMap(cs), {target} + Image(cs, CommentId))
  {
    forall x, c | c in Get(ChildrenMap(cs), x) ensures c.id in {target} + Image(cs, CommentId) {
      ChildrenMapSpec(cs, x);
      ChildrenOfMembers(cs, x);
      assert CommentId(c) in Image(cs, CommentId);
    }
  }

  /** All children of `x` listed in `m` are in `s`. */
  ghost predicate KidsIn(m: map<string, seq<Comment>>, x: string, s: set<string>) {
    forall c :: c in Get(m, x) ==> c.id in s
  }

  /** Every marked id that has left the queue has all its children marked. */
  ghost predicate Settled(m: map<string, seq<Comment>>, st: Search) {
    forall x :: x in st.visited && x !in st.queue ==> KidsIn(m, x, st.visited)
  }

  lemma {:induction false} ExploreGrows(m: map<string, seq<Comment>>, universe: set<string>, st: Search)
    requires st.visited <= universe && KidsWithin(m, universe)
    ensures st.visited <= Explore(m, universe, st) <= universe
    decreases |universe - st.visited|, |st.queue|
  {
    if st.queue != [] {
      var rest := Search(st.visited, st.queue[1..]);
      var next := Enqueue(rest, Get(m, st.queue[0]));
      EnqueueSpec(rest, Get(m, st.queue[0]));
      if next.visited != st.visited {
        GrowthShrinks(universe, st.visited, next.visited);
      }
      ExploreGrows(m, universe, next);
    }
  }

  /** One round of the loop keeps every id that left the queue settled. */
  lemma SettledStep(m: map<string, seq<Comment>>, st: Search)
    requires st.queue != [] && Settled(m, st)
    ensures Settled(m, Enqueue(Search(st.visited, st.queue[1..]), Get(m, st.queue[0])))
  {
    var id := st.queue[0];
    var rest := Search(st.visited, st.queue[1..]);
    var next := Enqueue(rest, Get(m, id));
    EnqueueSpec(rest, Get(m, id));
    forall x | x in next.visited && x !in next.queue ensures KidsIn(m, x, next.visited) {
      assert x !in next.queue[..|rest.queue|];
      assert x in st.visited;
      if x != id {
        assert x !in st.queue;
        assert KidsIn(m, x, st.visited);
      }
    }
  }

  /** When the loop ends, every marked id has all its children marked. */
  lemma {:induction false} ExploreClosed(m: map<string, seq<Comment>>, universe: set<string>, st: Search)
    requires st.visited <= universe && KidsWithin(m, universe) && Settled(m, st)
    ensures forall x :: x in Explore(m, universe, st) ==> KidsIn(m, x, Explore(m, universe, st))
    decreases |universe - st.visited|, |st.queue|
  {
    if st.queue != [] {
      var rest := Search(st.visited, st.queue[1..]);
      var next := Enqueue(rest, Get(m, st.queue[0]));
      EnqueueSpec(rest, Get(m, st.queue[0]));
      SettledStep(m, st);
      if next.visited != st.visited {
        GrowthShrinks(universe, st.visited, next.visited);
      }
      ExploreClosed(m, universe, next);
    }
  }

  /** The loop marks nothing outside a set that holds the marks so far and is closed under children. */
  lemma {:induction false} ExploreLeast(m: map<string, seq<Comment>>, universe: set<string>, st: Search, s: set<string>)
    requires st.visited <= universe && KidsWithin(m, universe)
    requires forall x :: x in st.queue ==> x in st.visited
    requires st.visited <= s && forall x :: x in s ==> KidsIn(m, x, s)
    ensures Explore(m, universe, st) <= s
    decreases |universe - st.visited|, |st.queue|
  {
    if st.queue != [] {
      var id := st.queue[0];
      var rest := Search(st.visited, st.queue[1..]);
      var next := Enqueue(rest, Get(m, id));
      EnqueueSpec(rest, Get(m, id));
      assert id in st.visited;
      forall x | x in next.queue ensures x in next.visited {
        if x !in next.queue[|rest.queue|..] {
          assert x in rest.queue;
        }
      }
      forall x | x in next.visited ensures x in s {
        if x !in st.visited {
          var c :| c in Get(m, id) && CommentId(c) == x;
          assert KidsIn(m, id, s);
        }
      }
      if next.visited != st.visited {
        GrowthShrinks(universe, st.visited, next.visited);
      }
      ExploreLeast(m, universe, next, s);
    }
  }

  /** No fetched comment with a truthy parent id in `s` is left out of `s`. */
  ghost predicate ClosedUnder(cs: seq<Comment>, s: set<string>) {
    forall c :: c in cs && HasParent(c) && c.parentId.value in s ==> c.id in s
  }

  /** For the children map of `cs`, closure under children is closure under the map. */
  lemma ClosedUnderMap(cs: seq<Comment>, s: set<string>)
    ensures ClosedUnder(cs, s) <==> forall x :: x in s ==> KidsIn(ChildrenMap(cs), x, s)
  {
    var m := ChildrenMap(cs);
    if ClosedUnder(cs, s) {
      forall x | x in s ensures KidsIn(m, x, s) {
        ChildrenMapSpec(cs, x);
        ChildrenOfMembers(cs, x);
      }
    }
    if forall x :: x in s ==> KidsIn(m, x, s) {
      forall c | c in cs && HasParent(c) && c.parentId.value in s ensures c.id in s {
        var x := c.parentId.value;
        ChildrenMapSpec(cs, x);
        ChildrenOfMembers(cs, x);
        assert KidsIn(m, x, s);
      }
    }
  }

  /**
   * The ids `deleteCommentRecursive` collects: the target, closed under
   * children, and only ids of fetched comments besides the target.
   */
  lemma ClosureSpec(cs: seq<Comment>, target: string)
    ensures target in Closure(cs, target)
    ensures ClosedUnder(cs, Closure(cs, target))
    ensures Closure(cs, target) <= {target} + Image(cs, CommentId)
  {
    var m := ChildrenMap(cs);
    var universe := {target} + Image(cs, CommentId);
    var st := Search({target}, [target]);
    KidsWithinUniverse(cs, target);
    ExploreGrows(m, universe, st);
    ExploreClosed(m, universe, st);
    ClosedUnderMap(cs, Closure(cs, target));
  }

  /** The closure is the least such set: it lies inside every set that contains the target and is closed under children. */
  lemma ClosureLeast(cs: seq<Comment>, target: string, s: set<string>)
    requires target in s && ClosedUnder(cs, s)
    ensures Closure(cs, target) <= s
  {
    var universe := {target} + Image(cs, CommentId);
    KidsWithinUniverse(cs, target);
    ClosedUnderMap(cs, s);
    ExploreLeast(ChildrenMap(cs), universe, Search({target}, [target]), s);
  }

  /** Every collected id is the target or the id of a fetched child of a collected id. */
  lemma ClosureDerived(cs: seq<Comment>, target: string)
    ensures forall x :: x in Closure(cs, target) ==>
              x == target || exists c :: c in cs && c.id == x && HasParent(c) && c.parentId.value in Closure(cs, target)
  {
    var r := Closure(cs, target);
    var derived := set x | x in r && (x == target || exists c :: c in cs && c.id == x && HasParent(c) && c.parentId.value in r);
    ClosureSpec(cs, target);
    assert ClosedUnder(cs, derived) by {
      forall c | c in cs && HasParent(c) && c.parentId.value in derived ensures c.id in derived {
        assert c.id in r;
      }
    }
    ClosureLeast(cs, target, derived);
  }

  // ------------------------------------------------- filter and delete loop

  /** `allComments.filter(comment => idsToDelete.has(comment.id))`. */
  function Keep(cs: seq<Comment>, ids: set<string>): seq<Comment>
    decreases |cs|
  {
    if cs == [] then []
    else (if cs[0].id in ids then [cs[0]] else []) + Keep(cs[1..], ids)
  }

  /** The filter keeps every comment whose id is selected, as often as it occurs, and nothing else. */
  lemma {:induction false} KeepCount(cs: seq<Comment>, ids: set<string>)
    ensures forall c :: multiset(Keep(cs, ids))[c] == if c.id in ids then multiset(cs)[c] else 0
    decreases |cs|
  {
    if cs != [] {
      KeepCount(cs[1..], ids);
      assert cs == [cs[0]] + cs[1..];
    }
  }

  /** The filter keeps fetch order: filtering a concatenation filters each part. */
  lemma {:induction false} KeepAppend(a: seq<Comment>, b: seq<Comment>, ids: set<string>)
    ensures Keep(a + b, ids) == Keep(a, ids) + Keep(b, ids)
    decreases |a|
  {
    if a != [] {
      KeepAppend(a[1..], b, ids);
      assert (a + b)[1..] == a[1..] + b;
    } else {
      assert a + b == b;
    }
  }

  /** Filtering by a set holding every id changes nothing. */
  lemma {:induction false} KeepAll(cs: seq<Comment>, ids: set<string>)
    requires forall c :: c in cs ==> c.id in ids
    ensures Keep(cs, ids) == cs
    decreases |cs|
  {
    if cs != [] {
      assert cs[0] in cs;
      assert forall c :: c in cs[1..] ==> c in cs;
      KeepAll(cs[1..], ids);
    }
  }

  /** One `deleteComment` call: the id and whether the call resolved. */
  datatype Attempt = Attempt(id: string, deleted: bool)

  /**
   * The `for ... of` loop with its inner `try`: one call per comment, in
   * order; a rejected call is skipped. Call `n` resolves iff `succeeds(n)`.
   */
  function DeleteInOrder(cs: seq<Comment>, succeeds: nat -> bool, n: nat): seq<Attempt>
    decreases |cs|
  {
    if cs == [] then []
    else [Attempt(cs[0].id, succeeds(n))] + DeleteInOrder(cs[1..], succeeds, n + 1)
  }

  function CommentIds(cs: seq<Comment>): seq<string> {
    seq(|cs|, i requires 0 <= i < |cs| => cs[i].id)
  }

  function AttemptIds(a: seq<Attempt>): seq<string> {
    seq(|a|, i requires 0 <= i < |a| => a[i].id)
  }

  /**
   * Whatever each call does, the loop attempts every comment once, in order,
   * and records for call `n + i` the answer of `succeeds(n + i)`.
   */
  lemma {:induction false} DeleteInOrderSpec(cs: seq<Comment>, succeeds: nat -> bool, n: nat)
    ensures |DeleteInOrder(cs, succeeds, n)| == |cs|
    ensures forall i :: 0 <= i < |cs| ==> DeleteInOrder(cs, succeeds, n)[i] == Attempt(cs[i].id, succeeds(n + i))
    ensures AttemptIds(DeleteInOrder(cs, succeeds, n)) == CommentIds(cs)
    decreases |cs|
  {
    var r := DeleteInOrder(cs, succeeds, n);
    if cs != [] {
      DeleteInOrderSpec(cs[1..], succeeds, n + 1);
      forall i | 1 <= i < |cs| ensures r[i] == Attempt(cs[i].id, succeeds(n + i)) {
        assert r[i] == DeleteInOrder(cs[1..], succeeds, n + 1)[i - 1];
        assert cs[1..][i - 1] == cs[i];
      }
    }
    assert forall i :: 0 <= i < |cs| ==> AttemptIds(r)[i] == CommentIds(cs)[i];
  }

  // ---------------------------------------------------------- the two drivers

  /** The result of `getComments`: the comments, or a rejected promise. */
  datatype Fetch = Fetched(comments: seq<Comment>) | FetchFailed

  datatype Outcome = Done | Failed

  /** The deletes attempted, in order, and how the returned promise settles. */
  datatype Report = Report(attempts: seq<Attempt>, outcome: Outcome)

  /** `deleteCommentRecursive(postId, target)`. */
  function DeleteCommentRecursive(fetch: Fetch, target: string, succeeds: nat -> bool): (r: Report)
    ensures r.outcome == Failed <==> fetch.FetchFailed?
    ensures fetch.FetchFailed? || fetch.comments == [] ==> r.attempts == []
  {
    match fetch
    case FetchFailed => Report([], Failed)
    case Fetched(cs) =>
      if cs == [] then Report([], Done)
      else Report(DeleteInOrder(Keep(cs, Closure(cs, target)), succeeds, 0), Done)
  }

  /** `deleteAllComments(postId)`: a failed fetch is swallowed. */
  function DeleteAllComments(fetch: Fetch, succeeds: nat -> bool): (r: Report)
    ensures r.outcome == Done
    ensures fetch.FetchFailed? || fetch.comments == [] ==> r.attempts == []
  {
    match fetch
    case FetchFailed => Report([], Done)
    case Fetched(cs) =>
      if cs == [] then Report([], Done)
      else Report(DeleteInOrder(cs, succeeds, 0), Done)
  }

  /**
   * After a successful fetch, `deleteCommentRecursive` attempts exactly the
   * fetched comments whose id is collected, in fetch order, and resolves
   * whatever the individual calls do; call `i` reports `succeeds(i)`.
   */
  lemma DeleteCommentRecursiveAttempts(cs: seq<Comment>, target: string, succeeds: nat -> bool)
    ensures DeleteCommentRecursive(Fetched(cs), target, succeeds).outcome == Done
    ensures AttemptIds(DeleteCommentRecursive(Fetched(cs), target, succeeds).attempts)
         == CommentIds(Keep(cs, Closure(cs, target)))
    ensures forall c :: c in cs ==>
              (c.id in AttemptIds(DeleteCommentRecursive(Fetched(cs), target, succeeds).attempts) <==> c.id in Closure(cs, target))
    ensures forall i :: 0 <= i < |DeleteCommentRecursive(Fetched(cs), target, succeeds).attempts| ==>
              DeleteCommentRecursive(Fetched(cs), target, succeeds).attempts[i].deleted == succeeds(i)
  {
    var kept := Keep(cs, Closure(cs, target));
    DeleteInOrderSpec(kept, succeeds, 0);
    if cs == [] {
      assert kept == [];
    }
    KeptIds(cs, Closure(cs, target));
  }

  /** A fetched comment's id survives the filter exactly when it is selected. */
  lemma KeptIds(cs: seq<Comment>, ids: set<string>)
    ensures forall c :: c in cs ==> (c.id in CommentIds(Keep(cs, ids)) <==> c.id in ids)
  {
    var kept := Keep(cs, ids);
    KeepCount(cs, ids);
    forall c | c in cs ensures c.id in CommentIds(kept) <==> c.id in ids {
      if c.id in ids {
        assert multiset(kept)[c] > 0;
        var i :| 0 <= i < |kept| && kept[i] == c;
        assert CommentIds(kept)[i] == c.id;
      }
      if c.id in CommentIds(kept) {
        var i :| 0 <= i < |kept| && CommentIds(kept)[i] == c.id;
        assert multiset(kept)[kept[i]] > 0;
      }
    }
  }

  /** Filtering a list with unique ids keeps them unique. */
  lemma {:induction false} KeepUnique(cs: seq<Comment>, ids: set<string>)
    requires UniqueIds(cs)
    ensures UniqueIds(Keep(cs, ids))
    decreases |cs|
  {
    if cs != [] {
      UniqueTail(cs);
      KeepUnique(cs[1..], ids);
      KeepCount(cs[1..], ids);
      forall d | d in Keep(cs[1..], ids) ensures d.id != cs[0].id {
        assert d in multiset(Keep(cs[1..], ids));
      }
      ConsUnique(cs[0], cs[0].id in ids, Keep(cs[1..], ids));
    }
  }

  /** With unique fetched ids, `deleteCommentRecursive` calls delete on each id at most once. */
  lemma DeleteCommentRecursiveOnce(cs: seq<Comment>, target: string, succeeds: nat -> bool)
    requires UniqueIds(cs)
    ensures var a := DeleteCommentRecursive(Fetched(cs), target, succeeds).attempts;
            forall i, j :: 0 <= i < |a| && 0 <= j < |a| && i != j ==> a[i].id != a[j].id
  {
    var kept := Keep(cs, Closure(cs, target));
    var a := DeleteCommentRecursive(Fetched(cs), target, succeeds).attempts;
    DeleteInOrderSpec(kept, succeeds, 0);
    KeepUnique(cs, Closure(cs, target));
    if cs == [] {
      assert kept == [];
    }
    forall i, j | 0 <= i < |a| && 0 <= j < |a| && i != j ensures a[i].id != a[j].id {
      assert a[i].id == CommentId(kept[i]) && a[j].id == CommentId(kept[j]);
    }
  }

  /** After a successful fetch, `deleteAllComments` attempts every fetched comment, in fetch order. */
  lemma DeleteAllCommentsAttempts(cs: seq<Comment>, succeeds: nat -> bool)
    ensures AttemptIds(DeleteAllComments(Fetched(cs), succeeds).attempts) == CommentIds(cs)
    ensures forall i :: 0 <= i < |cs| ==> DeleteAllComments(Fetched(cs), succeeds).attempts[i].deleted == succeeds(i)
  {
    assert DeleteAllComments(Fetched(cs), succeeds).attempts == DeleteInOrder(cs, succeeds, 0);
    DeleteInOrderSpec(cs, succeeds, 0);
  }

  /**
   * The two drivers part ways on a failed fetch: `deleteCommentRecursive`
   * rejects, `deleteAllComments` resolves; neither attempts a delete.
   */
  lemma FetchFailureDiffers(target: string, succeeds: nat -> bool)
    ensures DeleteCommentRecursive(FetchFailed, target, succeeds) == Report([], Failed)
    ensures DeleteAllComments(FetchFailed, succeeds) == Report([], Done)
  {
  }

  /** The four-comment thread of the unit tests: a parent, two replies, and a reply to the first reply. */
  function ExampleThread(): seq<Comment> {
    [Comment("1", "Parent", "User 1", "avatar1.jpg", 1, None),
     Comment("2", "Child 1", "User 2", "avatar2.jpg", 2, Some("1")),
     Comment("3", "Child 2", "User 3", "avatar3.jpg", 3, Some("1")),
     Comment("4", "Grandchild", "User 4", "avatar4.jpg", 4, Some("2"))]
  }

  /** Deleting the parent of the example thread attempts all four comments, in fetch order. */
  lemma CascadeExample(succeeds: nat -> bool)
    ensures AttemptIds(DeleteCommentRecursive(Fetched(ExampleThread()), "1", succeeds).attempts) == ["1", "2", "3", "4"]
  {
    var cs := ExampleThread();
    assert DeleteCommentRecursive(Fetched(cs), "1", succeeds).attempts == DeleteInOrder(cs, succeeds, 0) by {
      assert cs != [];
      ExampleKept();
    }
    DeleteInOrderSpec(cs, succeeds, 0);
    ExampleIds();
  }

  lemma ExampleIds()
    ensures CommentIds(ExampleThread()) == ["1", "2", "3", "4"]
  {
  }

  /** Every comment of the example thread descends from comment `1`, so the filter keeps all of them. */
  lemma ExampleKept()
    ensures Keep(ExampleThread(), Closure(ExampleThread(), "1")) == ExampleThread()
  {
    var cs := ExampleThread();
    var r := Closure(cs, "1");
    ClosureSpec(cs, "1");
    assert "2" in r by {
      assert cs[1] in cs && HasParent(cs[1]) && cs[1].parentId.value == "1";
    }
    assert "3" in r by {
      assert cs[2] in cs && HasParent(cs[2]) && cs[2].parentId.value == "1";
    }
    assert "4" in r by {
      assert cs[3] in cs && HasParent(cs[3]) && cs[3].parentId.value == "2";
    }
    forall c | c in cs ensures c.id in r {
      var i :| 0 <= i < 4 && cs[i] == c;
    }
    KeepAll(cs, r);
  }
}
