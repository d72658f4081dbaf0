/**
 * The records the REST API exchanges (`Post`, `Comment` in src/types/index.ts)
 * and the two selections of a flat comment list every part of the model uses.
 *
 * Timestamps: the source orders by `new Date(createdAt).getTime()`; here
 * `createdAt` already is that integer, so date parsing is not modelled.
 * Strings are sequences of Unicode scalar values (Dafny's `char`); the one
 * place that measures a string, the post card, encodes it to UTF-16 code
 * units first (post_card.dfy).
 */
module Types {
  import opened Collections

  datatype Option<+T> = None | Some(value: T)

  /** `parentId` is `null` (None) for a top-level comment, otherwise the id of the comment it replies to. */
  datatype Comment = Comment(
    id: string,
    content: string,
    name: string,
    avatar: string,
    createdAt: int,
    parentId: Option<string>)

  datatype Post = Post(
    id: string,
    title: string,
    content: string,
    name: string,
    avatar: string,
    createdAt: int)

  /** The `'newest' | 'oldest'` order the posts page offers. */
  datatype SortOrder = Newest | Oldest

  function CommentId(c: Comment): string { c.id }
  function CommentTime(c: Comment): int { c.createdAt }
  function PostId(p: Post): string { p.id }
  function PostTime(p: Post): int { p.createdAt }

  /** No two comments of the list share an id (the backend's promise). */
  ghost predicate UniqueIds(cs: seq<Comment>) {
    DistinctBy(cs, CommentId)
  }

  /** The comments with a `null` parent, in list order. */
  function TopLevel(cs: seq<Comment>): (r: seq<Comment>)
    ensures |r| <= |cs|
    decreases |cs|
  {
    if cs == [] then []
    else (if cs[0].parentId == None then [cs[0]] else []) + TopLevel(cs[1..])
  }

  /** The comments whose `parentId` is `id`, in list order. */
  function RepliesTo(cs: seq<Comment>, id: string): (r: seq<Comment>)
    ensures |r| <= |cs|
    decreases |cs|
  {
    if cs == [] then []
    else (if cs[0].parentId == Some(id) then [cs[0]] else []) + RepliesTo(cs[1..], id)
  }

  /** `TopLevel` keeps exactly the null-parent comments. */
  lemma {:induction false} TopLevelMembers(cs: seq<Comment>)
    ensures forall c :: c in TopLevel(cs) <==> c in cs && c.parentId == None
    decreases |cs|
  {
    if cs != [] {
      TopLevelMembers(cs[1..]);
      assert forall c :: c in cs <==> c == cs[0] || c in cs[1..];
    }
  }

  /** `RepliesTo` keeps exactly the comments naming `id` as parent. */
  lemma {:induction false} RepliesToMembers(cs: seq<Comment>, id: string)
    ensures forall c :: c in RepliesTo(cs, id) <==> c in cs && c.parentId == Some(id)
    decreases |cs|
  {
    if cs != [] {
      RepliesToMembers(cs[1..], id);
      assert forall c :: c in cs <==> c == cs[0] || c in cs[1..];
    }
  }

  /** The first comment of the list with id `id` (`commentMap.get(id)` when ids are unique). */
  function FindById(cs: seq<Comment>, id: string): (r: Option<Comment>)
    decreases |cs|
  {
    if cs == [] then None
    else if cs[0].id == id then Some(cs[0])
    else FindById(cs[1..], id)
  }

  /**
   * A found comment is in the list and carries the id; the lookup fails only
   * when no comment of the list carries the id.
   */
  lemma {:induction false} FindByIdSpec(cs: seq<Comment>, id: string)
    ensures FindById(cs, id).Some? ==> FindById(cs, id).value in cs && FindById(cs, id).value.id == id
    ensures FindById(cs, id).None? <==> forall c :: c in cs ==> c.id != id
    decreases |cs|
  {
    if cs != [] {
      FindByIdSpec(cs[1..], id);
      assert forall c :: c in cs ==> c == cs[0] || c in cs[1..];
    }
  }

  /** With unique ids, looking up the id of a listed comment finds that comment. */
  lemma FindListed(cs: seq<Comment>, c: Comment)
    requires UniqueIds(cs) && c in cs
    ensures FindById(cs, c.id) == Some(c)
  {
    var r := FindById(cs, c.id);
    FindByIdSpec(cs, c.id);
    SameIdSameComment(cs, r.value, c);
  }

  /** Dropping the head of a list keeps its ids unique. */
  lemma UniqueTail(cs: seq<Comment>)
    requires UniqueIds(cs) && cs != []
    ensures UniqueIds(cs[1..])
    ensures forall c :: c in cs[1..] ==> c.id != cs[0].id
  {
    var t := cs[1..];
    forall i, j | 0 <= i < |t| && 0 <= j < |t| && i != j ensures t[i].id != t[j].id {
      assert t[i] == cs[i + 1] && t[j] == cs[j + 1];
    }
    forall c | c in t ensures c.id != cs[0].id {
      var i :| 0 <= i < |t| && t[i] == c;
      assert cs[i + 1] == c;
    }
  }

  /** With unique ids, a comment of the list is determined by its id. */
  lemma SameIdSameComment(cs: seq<Comment>, a: Comment, b: Comment)
    requires UniqueIds(cs) && a in cs && b in cs && a.id == b.id
    ensures a == b
  {
    var i :| 0 <= i < |cs| && cs[i] == a;
    var j :| 0 <= j < |cs| && cs[j] == b;
    assert CommentId(cs[i]) == CommentId(cs[j]);
  }

  lemma {:induction false} TopLevelUnique(cs: seq<Comment>)
    requires UniqueIds(cs)
    ensures UniqueIds(TopLevel(cs))
    decreases |cs|
  {
    if cs != [] {
      UniqueTail(cs);
      TopLevelUnique(cs[1..]);
      TopLevelMembers(cs[1..]);
      ConsUnique(cs[0], cs[0].parentId == None, TopLevel(cs[1..]));
    }
  }

  lemma {:induction false} RepliesToUnique(cs: seq<Comment>, id: string)
    requires UniqueIds(cs)
    ensures UniqueIds(RepliesTo(cs, id))
    decreases |cs|
  {
    if cs != [] {
      UniqueTail(cs);
      RepliesToUnique(cs[1..], id);
      RepliesToMembers(cs[1..], id);
      ConsUnique(cs[0], cs[0].parentId == Some(id), RepliesTo(cs[1..], id));
    }
  }

  lemma ConsUnique(c: Comment, keep: bool, t: seq<Comment>)
    requires UniqueIds(t)
    requires forall d :: d in t ==> d.id != c.id
    ensures UniqueIds((if keep then [c] else []) + t)
  {
    var r := (if keep then [c] else []) + t;
    if keep {
      forall i, j | 0 <= i < |r| && 0 <= j < |r| && i != j ensures r[i].id != r[j].id {
        if i > 0 && j > 0 {
          assert r[i] == t[i - 1] && r[j] == t[j - 1];
        } else if i == 0 {
          assert r[j] == t[j - 1] && t[j - 1] in t;
        } else {
          assert r[i] == t[i - 1] && t[i - 1] in t;
        }
      }
    } else {
      assert r == t;
    }
  }
}
