/**
 * `buildCommentTree` (src/utils/commentTree.ts): turns the flat comment list
 * of a post into the forest the post page renders.
 *
 * The source works on shared mutable nodes: pass 1 creates one node per id,
 * pass 2 pushes every comment either onto the root list (`parentId === null`)
 * or onto the `replies` of the node registered under its `parentId`, dropping
 * it when no such node exists; finally every sibling list reachable from the
 * roots is sorted newest first. Here the two passes compute `Links` (the root
 * list and one reply list per registered id), and the forest is grown from
 * the roots, each reply list sorted as it is reached. Growth carries fuel
 * `|cs|`, which is never exhausted when ids are unique (comment_tree_shape.dfy).
 */
module CommentTree {
  import opened Collections
  import opened Types
  import opened StableSort

  /** `CommentWithReplies`: a comment with its fields unchanged, plus its replies. */
  datatype Node = Node(comment: Comment, replies: seq<Node>)

  /** `sortByDate` under the stable `Array.prototype.sort`: newest first, ties in list order. */
  function NewestFirst(s: seq<Comment>): (r: seq<Comment>)
    ensures |r| == |s|
  {
    SortByKeyDesc(s, CommentTime)
  }

  /** A newest-first sort is a permutation, ordered by time, with ties in list order. */
  lemma NewestFirstSpec(s: seq<Comment>)
    ensures multiset(NewestFirst(s)) == multiset(s)
    ensures NonIncreasing(NewestFirst(s), CommentTime)
    ensures forall k :: WithKey(NewestFirst(s), CommentTime, k) == WithKey(s, CommentTime, k)
  {
    SortByKeyDescSpec(s, CommentTime);
  }

  /**
   * Sorting newest first twice is sorting once: the root list, which the
   * source sorts before `sortReplies` sorts it again, ends up the same.
   */
  lemma NewestFirstTwice(s: seq<Comment>)
    ensures NewestFirst(NewestFirst(s)) == NewestFirst(s)
  {
    NewestFirstSpec(s);
    SortSorted(NewestFirst(s), CommentTime);
  }

  /** The state of the two passes: the root list and the reply list of every registered id. */
  datatype Links = Links(roots: seq<Comment>, replies: map<string, seq<Comment>>)

  /** Pass 1: every id of the input gets a node with no replies yet. */
  function FreshNodes(cs: seq<Comment>): (m: map<string, seq<Comment>>)
    ensures m.Keys == Image(cs, CommentId)
    ensures forall id :: id in m ==> m[id] == []
  {
    var ids := set c | c in cs :: c.id;
    map id | id in ids :: []
  }

  /** One step of pass 2. */
  function Attach(l: Links, c: Comment): Links {
    match c.parentId
    case None => l.(roots := l.roots + [c])
    case Some(p) =>
      if p in l.replies then l.(replies := l.replies[p := l.replies[p] + [c]])
      else l
  }

  /** Pass 2, over the comments in list order. */
  function AttachAll(l: Links, s: seq<Comment>): Links
    decreases |s|
  {
    if s == [] then l else AttachAll(Attach(l, s[0]), s[1..])
  }

  function Link(cs: seq<Comment>): Links {
    AttachAll(Links([], FreshNodes(cs)), cs)
  }

  /** Pass 2 appends the null-parent comments, in list order, to the roots. */
  lemma {:induction false} AttachAllRoots(l: Links, s: seq<Comment>)
    ensures AttachAll(l, s).roots == l.roots + TopLevel(s)
    decreases |s|
  {
    if s == [] {
      assert l.roots + [] == l.roots;
    } else {
      AttachAllRoots(Attach(l, s[0]), s[1..]);
      assert TopLevel(s) == (if s[0].parentId == None then [s[0]] else []) + TopLevel(s[1..]);
    }
  }

  /** Pass 2 creates no reply list and removes none. */
  lemma {:induction false} AttachAllKeys(l: Links, s: seq<Comment>)
    ensures AttachAll(l, s).replies.Keys == l.replies.Keys
    decreases |s|
  {
    if s != [] {
      AttachAllKeys(Attach(l, s[0]), s[1..]);
    }
  }

  /** Pass 2 appends the replies to a registered id, in list order, to that id's list. */
  lemma {:induction false} AttachAllReplies(l: Links, s: seq<Comment>, id: string)
    requires id in l.replies
    ensures id in AttachAll(l, s).replies
    ensures AttachAll(l, s).replies[id] == l.replies[id] + RepliesTo(s, id)
    decreases |s|
  {
    if s == [] {
      assert l.replies[id] + [] == l.replies[id];
    } else {
      var l' := Attach(l, s[0]);
      var here: seq<Comment> := if s[0].parentId == Some(id) then [s[0]] else [];
      assert id in l'.replies && l'.replies[id] == l.replies[id] + here;
      AttachAllReplies(l', s[1..], id);
      assert RepliesTo(s, id) == here + RepliesTo(s[1..], id);
      assert (l.replies[id] + here) + RepliesTo(s[1..], id) == l.replies[id] + (here + RepliesTo(s[1..], id));
    }
  }

  /**
   * After both passes the root list is exactly the null-parent comments, and
   * the reply list of every input id is exactly the comments naming it as
   * parent, both in list order. A comment whose parent id names no input
   * comment is in no list: it is dropped.
   */
  lemma LinkSpec(cs: seq<Comment>)
    ensures Link(cs).roots == TopLevel(cs)
    ensures Link(cs).replies.Keys == Image(cs, CommentId)
    ensures forall id :: id in Link(cs).replies ==> Link(cs).replies[id] == RepliesTo(cs, id)
  {
    var l0 := Links([], FreshNodes(cs));
    AttachAllRoots(l0, cs);
    AttachAllKeys(l0, cs);
    assert [] + TopLevel(cs) == TopLevel(cs);
    forall id | id in Link(cs).replies ensures Link(cs).replies[id] == RepliesTo(cs, id) {
      AttachAllReplies(l0, cs, id);
      assert [] + RepliesTo(cs, id) == RepliesTo(cs, id);
    }
  }

  /** `commentMap.get(id)?.replies`, empty for an id no node was created for. */
  function RepliesOf(l: Links, id: string): seq<Comment> {
    if id in l.replies then l.replies[id] else []
  }

  /** The node of `c` with its replies, expanded `fuel` levels deep. */
  function Grow(l: Links, c: Comment, fuel: nat): (n: Node)
    ensures n.comment == c
    decreases fuel, 0, 0
  {
    Node(c, if fuel == 0 then [] else Forest(l, NewestFirst(RepliesOf(l, c.id)), fuel - 1))
  }

  /** The nodes of the comments of `s`, in the order of `s`. */
  function Forest(l: Links, s: seq<Comment>, fuel: nat): (f: seq<Node>)
    ensures |f| == |s|
    decreases fuel, 1
  {
    seq(|s|, i requires 0 <= i < |s| => Grow(l, s[i], fuel))
  }

  /** A grown forest carries exactly the comments it was grown from, in order. */
  lemma ForestLabels(l: Links, s: seq<Comment>, fuel: nat)
    ensures Labels(Forest(l, s, fuel)) == s
  {
  }

  /** The comments carried by a sibling list, in order. */
  function Labels(f: seq<Node>): (r: seq<Comment>)
    ensures |r| == |f|
  {
    seq(|f|, i requires 0 <= i < |f| => f[i].comment)
  }

  /** Entry `i` of a sibling list's labels is the comment of its entry `i`. */
  lemma LabelsIndex(f: seq<Node>, i: nat)
    requires i < |f|
    ensures Labels(f)[i] == f[i].comment
  {
  }

  /** Entry `i` of a grown forest is the node grown from entry `i` of its list. */
  lemma ForestIndex(l: Links, s: seq<Comment>, fuel: nat, i: nat)
    requires i < |s|
    ensures |Forest(l, s, fuel)| == |s|
    ensures Forest(l, s, fuel)[i] == Grow(l, s[i], fuel)
  {
  }

  /** `buildCommentTree(comments)`. */
  function BuildCommentTree(cs: seq<Comment>): (r: seq<Node>)
    ensures |r| == |Link(cs).roots|
  {
    var l := Link(cs);
    Forest(l, NewestFirst(l.roots), |cs|)
  }

  /**
   * The top level holds exactly the comments whose parent is `null`, each
   * with its fields unchanged, newest first with ties in list order; an empty
   * input gives an empty forest.
   */
  lemma BuildTopLevel(cs: seq<Comment>)
    ensures cs == [] ==> BuildCommentTree(cs) == []
    ensures |BuildCommentTree(cs)| == |TopLevel(cs)|
    ensures multiset(Labels(BuildCommentTree(cs))) == multiset(TopLevel(cs))
    ensures forall c :: c in Labels(BuildCommentTree(cs)) ==> c in cs && c.parentId == None
    ensures NonIncreasing(Labels(BuildCommentTree(cs)), CommentTime)
    ensures forall k :: WithKey(Labels(BuildCommentTree(cs)), CommentTime, k) == WithKey(TopLevel(cs), CommentTime, k)
  {
    LinkSpec(cs);
    var l := Link(cs);
    ForestLabels(l, NewestFirst(l.roots), |cs|);
    NewestFirstSpec(l.roots);
    TopLevelMembers(cs);
    forall c | c in Labels(BuildCommentTree(cs)) ensures c in cs && c.parentId == None {
      assert c in multiset(TopLevel(cs));
    }
  }
}
