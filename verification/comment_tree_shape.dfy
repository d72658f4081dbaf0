/**
 * Where `buildCommentTree` puts each comment. A comment is reachable at depth
 * `d` when following its parent ids `d` times through the input ends at
 * a comment whose parent is `null`. With unique ids the forest holds exactly
 * the reachable comments, each once, at its depth, under its parent, with
 * every sibling list a newest-first stable sort of the comments naming that
 * parent; orphans, their descendants and comments on a parent cycle are absent.
 */
module CommentTreeShape {
  import opened Collections
  import opened Types
  import opened StableSort
  import opened CommentTree

  /** The comment `c` names as its parent, looked up by id in `cs`. */
  function ParentIn(cs: seq<Comment>, c: Comment): Option<Comment> {
    match c.parentId
    case None => None
    case Some(p) => FindById(cs, p)
  }

  /** A parent found is a listed comment whose id `c` names. */
  lemma ParentInSpec(cs: seq<Comment>, c: Comment)
    ensures ParentIn(cs, c).Some? ==> ParentIn(cs, c).value in cs && c.parentId == Some(ParentIn(cs, c).value.id)
  {
    if c.parentId.Some? {
      FindByIdSpec(cs, c.parentId.value);
    }
  }

  /** Following `c`'s parent ids `d` times inside `cs` ends at a null-parent comment. */
  ghost predicate RootedAt(cs: seq<Comment>, c: Comment, d: nat)
    decreases d
  {
    if d == 0 then c.parentId == None
    else ParentIn(cs, c).Some? && RootedAt(cs, ParentIn(cs, c).value, d - 1)
  }

  /** With unique ids, the listed comment `c` names by id is its parent. */
  lemma ParentNamed(cs: seq<Comment>, c: Comment, q: Comment)
    requires UniqueIds(cs) && q in cs && c.parentId == Some(q.id)
    ensures ParentIn(cs, c) == Some(q)
  {
    FindListed(cs, q);
  }

  /** A comment whose parent is reachable at depth `d` is reachable at depth `d + 1`. */
  lemma RootedStep(cs: seq<Comment>, c: Comment, parent: Comment, d: nat)
    requires ParentIn(cs, c) == Some(parent) && RootedAt(cs, parent, d)
    ensures RootedAt(cs, c, d + 1)
  {
  }

  /** A comment reaches a null-parent comment at one depth only. */
  lemma {:induction false} DepthUnique(cs: seq<Comment>, c: Comment, d1: nat, d2: nat)
    requires RootedAt(cs, c, d1) && RootedAt(cs, c, d2)
    ensures d1 == d2
    decreases d1
  {
    if d1 > 0 && d2 > 0 {
      DepthUnique(cs, ParentIn(cs, c).value, d1 - 1, d2 - 1);
    }
  }

  /** The chain from the null-parent ancestor down to `c`; entry `i` sits at depth `i`. */
  ghost function Ancestry(cs: seq<Comment>, c: Comment, d: nat): (chain: seq<Comment>)
    requires c in cs && RootedAt(cs, c, d)
    ensures |chain| == d + 1
    ensures forall i :: 0 <= i < |chain| ==> chain[i] in cs && RootedAt(cs, chain[i], i)
    decreases d
  {
    if d == 0 then [c]
    else ParentInSpec(cs, c); Ancestry(cs, ParentIn(cs, c).value, d - 1) + [c]
  }

  /** A reachable comment sits less than `|cs|` levels deep: growth fuel `|cs|` suffices. */
  lemma DepthBound(cs: seq<Comment>, c: Comment, d: nat)
    requires UniqueIds(cs) && c in cs && RootedAt(cs, c, d)
    ensures d < |cs|
  {
    var chain := Ancestry(cs, c, d);
    forall i, j | 0 <= i < |chain| && 0 <= j < |chain| && i != j
      ensures CommentId(chain[i]) != CommentId(chain[j])
    {
      if chain[i].id == chain[j].id {
        SameIdSameComment(cs, chain[i], chain[j]);
        DepthUnique(cs, chain[i], i, j);
      }
    }
    DistinctImageCard(chain, CommentId);
    assert Image(chain, CommentId) <= Image(cs, CommentId);
    SubsetCard(Image(chain, CommentId), Image(cs, CommentId));
    ImageCardBound(cs, CommentId);
  }

  /** A path names a node: an index into the top level, then one index per level of replies. */
  ghost predicate IsPath(f: seq<Node>, p: seq<nat>)
    decreases |p|
  {
    && |p| > 0
    && p[0] < |f|
    && (|p| == 1 || IsPath(f[p[0]].replies, p[1..]))
  }

  ghost function NodeAt(f: seq<Node>, p: seq<nat>): Node
    requires IsPath(f, p)
    decreases |p|
  {
    if |p| == 1 then f[p[0]] else NodeAt(f[p[0]].replies, p[1..])
  }

  /** A path extends by one index into the replies of the node it names. */
  lemma {:induction false} PathExtend(f: seq<Node>, p: seq<nat>, j: nat)
    requires IsPath(f, p) && j < |NodeAt(f, p).replies|
    ensures IsPath(f, p + [j]) && NodeAt(f, p + [j]) == NodeAt(f, p).replies[j]
    decreases |p|
  {
    var q := p + [j];
    assert q[0] == p[0];
    if |p| == 1 {
      assert q[1..] == [j];
    } else {
      assert q[1..] == p[1..] + [j];
      PathExtend(f[p[0]].replies, p[1..], j);
    }
  }

  lemma LastSplit(p: seq<nat>)
    requires |p| > 0
    ensures p == p[..|p| - 1] + [p[|p| - 1]]
  {
  }

  /** A path of two or more indices names a reply of the node its prefix names. */
  lemma {:induction false} PathSplit(f: seq<Node>, p: seq<nat>)
    requires IsPath(f, p) && |p| >= 2
    ensures IsPath(f, p[..|p| - 1])
    ensures p[|p| - 1] < |NodeAt(f, p[..|p| - 1]).replies|
    ensures NodeAt(f, p) == NodeAt(f, p[..|p| - 1]).replies[p[|p| - 1]]
    decreases |p|
  {
    var q := p[..|p| - 1];
    if |p| > 2 {
      PathSplit(f[p[0]].replies, p[1..]);
      assert p[1..][..|p| - 2] == q[1..];
    } else {
      assert q == [p[0]];
    }
  }

  lemma GrowReplies(l: Links, c: Comment, fuel: nat)
    ensures Grow(l, c, fuel).comment == c
    ensures fuel == 0 ==> Grow(l, c, fuel).replies == []
    ensures fuel > 0 ==> Grow(l, c, fuel).replies == Forest(l, NewestFirst(RepliesOf(l, c.id)), fuel - 1)
    ensures Labels(Grow(l, c, fuel).replies) == if fuel == 0 then [] else NewestFirst(RepliesOf(l, c.id))
  {
    if fuel > 0 {
      ForestLabels(l, NewestFirst(RepliesOf(l, c.id)), fuel - 1);
    }
  }

  /**
   * Inside a grown forest a path is never longer than the fuel allows, a
   * one-index path names the listed comment, and the node a path names lists
   * the newest-first replies its comment has in `l` unless the fuel ran out there.
   */
  lemma {:induction false} ForestPath(l: Links, s: seq<Comment>, fuel: nat, p: seq<nat>)
    requires IsPath(Forest(l, s, fuel), p)
    ensures |p| - 1 <= fuel
    ensures |p| == 1 ==> NodeAt(Forest(l, s, fuel), p).comment == s[p[0]]
    ensures Labels(NodeAt(Forest(l, s, fuel), p).replies)
         == if |p| - 1 == fuel then [] else NewestFirst(RepliesOf(l, NodeAt(Forest(l, s, fuel), p).comment.id))
    decreases |p|
  {
    ForestIndex(l, s, fuel, p[0]);
    GrowReplies(l, s[p[0]], fuel);
    if |p| > 1 {
      ForestPath(l, NewestFirst(RepliesOf(l, s[p[0]].id)), fuel - 1, p[1..]);
    }
  }

  /** Every reply list of `l` holds input comments naming the list's id as their parent. */
  ghost predicate Faithful(cs: seq<Comment>, l: Links) {
    forall id, k :: k in RepliesOf(l, id) ==> k in cs && k.parentId == Some(id)
  }

  lemma LinkFaithful(cs: seq<Comment>)
    ensures Faithful(cs, Link(cs))
  {
    forall id, k | k in RepliesOf(Link(cs), id) ensures k in cs && k.parentId == Some(id) {
      assert k in RepliesTo(cs, id) by {
        LinkSpec(cs);
      }
      RepliesToMembers(cs, id);
    }
  }

  /** The reply list grown under a reachable comment holds input comments one level deeper. */
  lemma KidsRooted(cs: seq<Comment>, l: Links, x: Comment, d: nat)
    requires UniqueIds(cs) && Faithful(cs, l) && x in cs && RootedAt(cs, x, d)
    ensures forall k :: k in NewestFirst(RepliesOf(l, x.id)) ==> k in cs && RootedAt(cs, k, d + 1)
  {
    FindListed(cs, x);
    NewestFirstSpec(RepliesOf(l, x.id));
    forall k | k in NewestFirst(RepliesOf(l, x.id)) ensures k in cs && RootedAt(cs, k, d + 1) {
      assert k in multiset(RepliesOf(l, x.id));
      RootedStep(cs, k, x, d);
    }
  }

  /** The top-level list is made of input comments reachable at depth 0. */
  lemma RootsRooted(cs: seq<Comment>)
    ensures forall x :: x in NewestFirst(Link(cs).roots) ==> x in cs && RootedAt(cs, x, 0)
  {
    LinkSpec(cs);
    NewestFirstSpec(TopLevel(cs));
    TopLevelMembers(cs);
    forall x | x in NewestFirst(Link(cs).roots) ensures x in cs && RootedAt(cs, x, 0) {
      assert x in multiset(TopLevel(cs));
    }
  }

  /** Below a list of comments reachable at depth `d`, every node is reachable at its own depth. */
  lemma {:induction false} ForestRooted(cs: seq<Comment>, l: Links, s: seq<Comment>, fuel: nat, d: nat, p: seq<nat>, depth: nat)
    requires UniqueIds(cs) && Faithful(cs, l)
    requires forall x :: x in s ==> x in cs && RootedAt(cs, x, d)
    requires IsPath(Forest(l, s, fuel), p) && depth == d + |p| - 1
    ensures NodeAt(Forest(l, s, fuel), p).comment in cs
    ensures RootedAt(cs, NodeAt(Forest(l, s, fuel), p).comment, depth)
    decreases |p|
  {
    var x := s[p[0]];
    ForestIndex(l, s, fuel, p[0]);
    if |p| == 1 {
      assert x in s;
    } else {
      KidsRooted(cs, l, x, d);
      ForestRooted(cs, l, NewestFirst(RepliesOf(l, x.id)), fuel - 1, d + 1, p[1..], depth);
    }
  }

  /**
   * Each node of the forest carries an input comment with its fields unchanged,
   * reachable at the depth of the node.
   */
  lemma NodeRooted(cs: seq<Comment>, p: seq<nat>)
    requires UniqueIds(cs) && IsPath(BuildCommentTree(cs), p)
    ensures NodeAt(BuildCommentTree(cs), p).comment in cs
    ensures RootedAt(cs, NodeAt(BuildCommentTree(cs), p).comment, |p| - 1)
  {
    var l := Link(cs);
    var roots := NewestFirst(l.roots);
    assert IsPath(Forest(l, roots, |cs|), p);
    RootsRooted(cs);
    LinkFaithful(cs);
    ForestRooted(cs, l, roots, |cs|, 0, p, |p| - 1);
  }

  /**
   * The replies of every node are exactly the input comments naming it as
   * parent: a permutation of them, newest first, with equal timestamps in
   * input order, no comment twice.
   */
  lemma NodePlacement(cs: seq<Comment>, p: seq<nat>)
    requires UniqueIds(cs) && IsPath(BuildCommentTree(cs), p)
    ensures var n := NodeAt(BuildCommentTree(cs), p);
            && multiset(Labels(n.replies)) == multiset(RepliesTo(cs, n.comment.id))
            && NonIncreasing(Labels(n.replies), CommentTime)
            && (forall k :: WithKey(Labels(n.replies), CommentTime, k)
                         == WithKey(RepliesTo(cs, n.comment.id), CommentTime, k))
            && DistinctBy(Labels(n.replies), CommentId)
  {
    var l := Link(cs);
    var f := BuildCommentTree(cs);
    LinkSpec(cs);
    var n := NodeAt(f, p);
    NodeRooted(cs, p);
    DepthBound(cs, n.comment, |p| - 1);
    ForestPath(l, NewestFirst(l.roots), |cs|, p);
    assert n.comment.id in l.replies;
    assert Labels(n.replies) == NewestFirst(RepliesTo(cs, n.comment.id));
    NewestFirstSpec(RepliesTo(cs, n.comment.id));
    RepliesToUnique(cs, n.comment.id);
    SortKeepsDistinct(RepliesTo(cs, n.comment.id), CommentTime, CommentId);
  }

  /** A comment counted among a sibling list's labels is carried by one of its nodes. */
  lemma LabelIndex(f: seq<Node>, c: Comment) returns (j: nat)
    requires c in multiset(Labels(f))
    ensures j < |f| && f[j].comment == c
  {
    assert c in Labels(f);
    j :| 0 <= j < |Labels(f)| && Labels(f)[j] == c;
    LabelsIndex(f, j);
  }

  /** Every reachable input comment appears in the forest at its depth; `p` is where. */
  lemma {:induction false} RootedAppears(cs: seq<Comment>, c: Comment, d: nat) returns (p: seq<nat>)
    requires UniqueIds(cs) && c in cs && RootedAt(cs, c, d)
    ensures IsPath(BuildCommentTree(cs), p) && |p| == d + 1
    ensures NodeAt(BuildCommentTree(cs), p).comment == c
    decreases d
  {
    var f := BuildCommentTree(cs);
    if d == 0 {
      var roots := NewestFirst(TopLevel(cs));
      assert c in multiset(Labels(f)) by {
        LinkSpec(cs);
        assert f == Forest(Link(cs), roots, |cs|);
        ForestLabels(Link(cs), roots, |cs|);
        NewestFirstSpec(TopLevel(cs));
        TopLevelMembers(cs);
        assert c in multiset(TopLevel(cs));
      }
      var i := LabelIndex(f, c);
      p := [i];
    } else {
      var parent := ParentIn(cs, c).value;
      ParentInSpec(cs, c);
      var q := RootedAppears(cs, parent, d - 1);
      var n := NodeAt(f, q);
      assert c in multiset(Labels(n.replies)) by {
        NodePlacement(cs, q);
        RepliesToMembers(cs, parent.id);
        assert c in RepliesTo(cs, parent.id);
      }
      var j := LabelIndex(n.replies, c);
      PathExtend(f, q, j);
      p := q + [j];
    }
  }

  /**
   * An input comment appears in the forest if and only if its parent chain
   * reaches a null-parent comment of the input; every node carries an input comment.
   */
  lemma AppearsIffRooted(cs: seq<Comment>, c: Comment)
    requires UniqueIds(cs)
    ensures (exists p: seq<nat> :: IsPath(BuildCommentTree(cs), p) && NodeAt(BuildCommentTree(cs), p).comment == c)
        ==> c in cs && exists d: nat :: RootedAt(cs, c, d)
    ensures (c in cs && exists d: nat :: RootedAt(cs, c, d))
        ==> exists p: seq<nat> :: IsPath(BuildCommentTree(cs), p) && NodeAt(BuildCommentTree(cs), p).comment == c
  {
    var f := BuildCommentTree(cs);
    if exists p: seq<nat> :: IsPath(f, p) && NodeAt(f, p).comment == c {
      var p: seq<nat> :| IsPath(f, p) && NodeAt(f, p).comment == c;
      NodeRooted(cs, p);
      var d: nat := |p| - 1;
      assert c in cs && RootedAt(cs, c, d);
    }
    if c in cs && exists d: nat :: RootedAt(cs, c, d) {
      var d: nat :| RootedAt(cs, c, d);
      var p := RootedAppears(cs, c, d);
      assert IsPath(f, p) && NodeAt(f, p).comment == c;
    }
  }

  /** The reply at index `j` of a node names that node's comment as its parent. */
  lemma ReplyNamesParent(cs: seq<Comment>, q: seq<nat>, j: nat)
    requires UniqueIds(cs) && IsPath(BuildCommentTree(cs), q)
    requires j < |NodeAt(BuildCommentTree(cs), q).replies|
    ensures NodeAt(BuildCommentTree(cs), q).comment in cs
    ensures NodeAt(BuildCommentTree(cs), q).replies[j].comment.parentId
         == Some(NodeAt(BuildCommentTree(cs), q).comment.id)
  {
    var m := NodeAt(BuildCommentTree(cs), q);
    NodeRooted(cs, q);
    NodePlacement(cs, q);
    LabelsIndex(m.replies, j);
    RepliesToMembers(cs, m.comment.id);
    assert m.replies[j].comment in multiset(RepliesTo(cs, m.comment.id));
  }

  /** Two nodes of one sibling list never carry the same comment. */
  lemma SiblingsDistinct(cs: seq<Comment>, q: seq<nat>, j1: nat, j2: nat)
    requires UniqueIds(cs) && IsPath(BuildCommentTree(cs), q)
    requires j1 < |NodeAt(BuildCommentTree(cs), q).replies| && j2 < |NodeAt(BuildCommentTree(cs), q).replies|
    requires NodeAt(BuildCommentTree(cs), q).replies[j1].comment == NodeAt(BuildCommentTree(cs), q).replies[j2].comment
    ensures j1 == j2
  {
    var m := NodeAt(BuildCommentTree(cs), q);
    NodePlacement(cs, q);
    LabelsIndex(m.replies, j1);
    LabelsIndex(m.replies, j2);
    assert CommentId(Labels(m.replies)[j1]) == CommentId(Labels(m.replies)[j2]);
  }

  /** Two top-level nodes never carry the same comment. */
  lemma RootsDistinct(cs: seq<Comment>, p1: seq<nat>, p2: seq<nat>)
    requires UniqueIds(cs)
    requires IsPath(BuildCommentTree(cs), p1) && IsPath(BuildCommentTree(cs), p2)
    requires |p1| == 1 && |p2| == 1
    requires NodeAt(BuildCommentTree(cs), p1).comment == NodeAt(BuildCommentTree(cs), p2).comment
    ensures p1 == p2
  {
    var l := Link(cs);
    LinkSpec(cs);
    var roots := NewestFirst(TopLevel(cs));
    ForestPath(l, roots, |cs|, p1);
    ForestPath(l, roots, |cs|, p2);
    TopLevelUnique(cs);
    SortKeepsDistinct(TopLevel(cs), CommentTime, CommentId);
    assert CommentId(roots[p1[0]]) == CommentId(roots[p2[0]]);
    assert p1 == [p1[0]] && p2 == [p2[0]];
  }

  /**
   * No comment appears twice: two paths naming nodes with the same comment are
   * the same path.
   */
  lemma {:induction false} AppearsOnce(cs: seq<Comment>, p1: seq<nat>, p2: seq<nat>)
    requires UniqueIds(cs)
    requires IsPath(BuildCommentTree(cs), p1) && IsPath(BuildCommentTree(cs), p2)
    requires NodeAt(BuildCommentTree(cs), p1).comment == NodeAt(BuildCommentTree(cs), p2).comment
    ensures p1 == p2
    decreases |p1|
  {
    var f := BuildCommentTree(cs);
    var c := NodeAt(f, p1).comment;
    assert |p1| == |p2| by {
      NodeRooted(cs, p1);
      NodeRooted(cs, p2);
      DepthUnique(cs, c, |p1| - 1, |p2| - 1);
    }
    if |p1| == 1 {
      RootsDistinct(cs, p1, p2);
    } else {
      var q1, q2 := p1[..|p1| - 1], p2[..|p2| - 1];
      var j1, j2 := p1[|p1| - 1], p2[|p2| - 1];
      PathSplit(f, p1);
      PathSplit(f, p2);
      ReplyNamesParent(cs, q1, j1);
      ReplyNamesParent(cs, q2, j2);
      SameIdSameComment(cs, NodeAt(f, q1).comment, NodeAt(f, q2).comment);
      AppearsOnce(cs, q1, q2);
      SiblingsDistinct(cs, q1, j1, j2);
      LastSplit(p1);
      LastSplit(p2);
    }
  }

  /** A comment whose parent id names no input comment is unreachable, so absent from the forest. */
  lemma OrphanUnreachable(cs: seq<Comment>, c: Comment, d: nat)
    requires c.parentId.Some? && c.parentId.value !in Image(cs, CommentId)
    ensures !RootedAt(cs, c, d)
  {
    if d > 0 {
      forall x | x in cs ensures x.id != c.parentId.value {
        assert CommentId(x) in Image(cs, CommentId);
      }
      FindByIdSpec(cs, c.parentId.value);
    }
  }

  /** Below an unreachable comment nothing is reachable either: descendants of orphans are absent. */
  lemma UnreachableBelow(cs: seq<Comment>, parent: Comment, c: Comment)
    requires UniqueIds(cs) && parent in cs && c.parentId == Some(parent.id)
    requires forall d: nat :: !RootedAt(cs, parent, d)
    ensures forall d: nat :: !RootedAt(cs, c, d)
  {
    FindListed(cs, parent);
    forall d: nat ensures !RootedAt(cs, c, d) {
      if d > 0 {
        assert !RootedAt(cs, parent, d - 1);
      }
    }
  }

  /**
   * Comments whose parent ids go round a cycle (each names the next as
   * its parent, the last names the first) are unreachable at every depth.
   */
  lemma {:induction false} CycleUnreachable(cs: seq<Comment>, cycle: seq<Comment>, d: nat)
    requires UniqueIds(cs) && |cycle| > 0
    requires forall i :: 0 <= i < |cycle| ==> cycle[i] in cs
    requires forall i :: 0 <= i < |cycle| - 1 ==> cycle[i].parentId == Some(cycle[i + 1].id)
    requires cycle[|cycle| - 1].parentId == Some(cycle[0].id)
    ensures forall i :: 0 <= i < |cycle| ==> !RootedAt(cs, cycle[i], d)
    decreases d
  {
    if d > 0 {
      CycleUnreachable(cs, cycle, d - 1);
      forall i | 0 <= i < |cycle| ensures !RootedAt(cs, cycle[i], d) {
        var j := if i + 1 < |cycle| then i + 1 else 0;
        ParentNamed(cs, cycle[i], cycle[j]);
        assert !RootedAt(cs, cycle[j], d - 1);
      }
    } else {
      forall i | 0 <= i < |cycle| ensures cycle[i].parentId != None {
        if i < |cycle| - 1 {
          assert cycle[i].parentId == Some(cycle[i + 1].id);
        }
      }
    }
  }
}
