# Comment threads, cascade deletes and the post feed of a small social network

A Dafny model of the parts of the social-network web client that compute
something, with proofs of what they promise:

- `buildCommentTree` (src/utils/commentTree.ts) turns the flat comment list
  of a post into the forest the post page shows: top-level comments, each
  with its replies, every sibling list newest first.
- `deleteCommentRecursive` and `deleteAllComments` (src/services/api.ts)
  fetch the comments of a post and delete either one comment with all its
  descendants (found breadth first through a parent-to-children map) or all
  of them, one call at a time, skipping over calls that fail. `getPosts`
  contributes the query parameters it sends.
- The posts page (src/pages/PostsList.tsx) decides from the last page loaded
  whether to fetch another, and merges all loaded pages into one list
  without repeated ids, sorted by time in the chosen direction.
- A post card (src/components/PostCard.tsx) shows content longer than 200
  UTF-16 code units cut to its first 200 code units, followed by `...`.

Files and modules:

| file | module | contents |
|---|---|---|
| collections.dfy | `Collections` | distinctness, images of sequences, set sizes |
| stable_sort.dfy | `StableSort` | the stable sort by an integer key used by every sort in the client |
| types.dfy | `Types` | `Comment`, `Post`, the sort order, and the null-parent and reply selections |
| comment_tree.dfy | `CommentTree` | the two passes of `buildCommentTree` and the sorted forest |
| comment_tree_shape.dfy | `CommentTreeShape` | where each comment ends up in the forest |
| api.dfy | `Api` | `getPosts` parameters, the children map, the breadth-first closure, the two bulk deletes |
| posts_list.dfy | `PostsList` | the next-page rule and `allPosts` |
| post_card.dfy | `PostCard` | the content preview |

Modelling choices:

- Timestamps are integers. The client orders by `new Date(createdAt).getTime()`,
  and the model's `createdAt` already holds that number.
- Strings are Dafny strings, i.e. sequences of Unicode scalar values. Ids
  and other fields are only compared for equality, which does not depend on
  the encoding.
- The post card is the one place that measures and cuts a string. JavaScript
  does both in UTF-16 code units, so the model first encodes the content to
  UTF-16 (`PostCard.Utf16`).
  - A character above U+FFFF counts as two units.
  - A cut can split a surrogate pair (`PostCard.SplitPairExample`).
- The network is an input. `getComments` returns a `Fetch`: the comments, or
  `FetchFailed` for a rejected promise. `succeeds(k)` says whether the `k`-th
  `deleteComment` call (counting from 0) resolves. A bulk delete's observable
  result is a `Report`: the calls made, in order, with their outcome, and
  whether the returned promise resolves (`Done`) or rejects (`Failed`).
- `Array.prototype.sort` is stable (required since ECMAScript 2019). Each
  comparator in the client subtracts two timestamps. So each sort is a stable
  sort by one integer key; the ascending one sorts by the negated key.
- `buildCommentTree` links shared mutable nodes and sorts reply lists in
  place. The model first computes the root list and each registered id's
  reply list, then grows the forest from the roots. Growth is limited to
  `|cs|` levels, which `CommentTreeShape.DepthBound` shows is never reached
  when ids are unique.
- `buildCommentTree` sorts the root list twice: once directly and once more
  inside `sortReplies`. The model sorts it once. A stable sort leaves a sorted
  list unchanged (`StableSort.SortSorted`, `CommentTree.NewestFirstTwice`),
  so the result is the same.
- The tree is specified against comments "rooted at depth d": following
  parent ids d times through the input ends at a comment whose parent is
  `null`.
- The cascade's id set is specified as the least set that contains the target
  and is closed under "is the parent of". A comment's parent counts only when
  its `parentId` is truthy, as in `if (comment.parentId)`.
- The breadth-first loop is a total function. Every round either marks a new
  id among the target and the fetched ids, or shortens the queue. So the loop
  ends even when parent ids form a cycle.
- The two modules treat a `parentId` of `""` differently.
  - `buildCommentTree` checks `parentId === null`, so a comment with parent
    `""` is attached to a comment whose id is `""`, if there is one.
  - The cascade delete tests truthiness, so such a comment is nobody's child.
  - `Api.ChildrenAreReplies` states the difference exactly.

## Model

| member | source | states |
|---|---|---|
| Types.TopLevelMembers | src/utils/commentTree.ts:21-23 | the root list holds exactly the input comments whose parent is `null` |
| Types.RepliesToMembers | src/utils/commentTree.ts:24-32 | a reply list holds exactly the input comments naming that id as parent |
| Types.FindByIdSpec | src/utils/commentTree.ts:26-27 | a lookup by id finds an input comment carrying that id, and fails exactly when no input comment carries it |
| Types.FindListed | src/utils/commentTree.ts:13-15 | with unique ids, the node registered under a comment's id is that comment |
| StableSort.SortByKeyDescSpec | src/utils/commentTree.ts:37-41 | sorting permutes its input, orders it largest key first, and keeps equal keys in input order |
| StableSort.SortKeepsDistinct | src/utils/commentTree.ts:41-44 | sorting never makes two entries share an id |
| StableSort.SortSorted | src/utils/commentTree.ts:41-52 | sorting a list that is already in order leaves it unchanged |
| CommentTree.NewestFirstSpec | src/utils/commentTree.ts:37-44 | a sibling list is sorted newest first, stably, losing and adding nothing |
| CommentTree.NewestFirstTwice | src/utils/commentTree.ts:41-52 | sorting the root list again inside `sortReplies` changes nothing |
| CommentTree.AttachAllRoots | src/utils/commentTree.ts:18-23 | pass 2 appends the null-parent comments to the roots in input order |
| CommentTree.AttachAllReplies | src/utils/commentTree.ts:24-32 | pass 2 appends the replies of a registered id to its list in input order |
| CommentTree.AttachAllKeys | src/utils/commentTree.ts:24-32 | pass 2 registers no new id and removes none |
| CommentTree.LinkSpec | src/utils/commentTree.ts:12-34 | after both passes, the roots are the null-parent comments, every input id is registered, and each registered id's list is its replies |
| CommentTree.ForestLabels | src/utils/commentTree.ts:43-52 | a sibling list carries exactly the comments it was built from, in order |
| CommentTree.BuildTopLevel | src/utils/commentTree.ts:8-54 | the top level is the null-parent comments with fields unchanged, newest first, ties in input order; an empty input gives an empty forest |
| CommentTreeShape.ParentInSpec | src/utils/commentTree.ts:26-27 | the parent found for a comment is an input comment carrying the named id |
| CommentTreeShape.DepthBound | src/utils/commentTree.ts:43-52 | with unique ids, a rooted comment lies fewer than `|cs|` levels deep |
| CommentTreeShape.NodeRooted | src/utils/commentTree.ts:13-34 | every node carries an input comment, rooted at the node's depth |
| CommentTreeShape.NodePlacement | src/utils/commentTree.ts:24-52 | each node's replies are a stable newest-first permutation of the comments naming it, with no comment twice |
| CommentTreeShape.AppearsIffRooted | src/utils/commentTree.ts:18-34 | a comment appears in the forest if and only if it is an input comment whose parent chain reaches a null parent |
| CommentTreeShape.RootedAppears | src/utils/commentTree.ts:18-52 | a comment rooted at depth d is found at a path of length d + 1 |
| CommentTreeShape.ReplyNamesParent | src/utils/commentTree.ts:24-31 | every reply names its node's comment as its parent |
| CommentTreeShape.SiblingsDistinct | src/utils/commentTree.ts:24-32 | one sibling list never carries a comment twice |
| CommentTreeShape.RootsDistinct | src/utils/commentTree.ts:21-23 | the top level never carries a comment twice |
| CommentTreeShape.AppearsOnce | src/utils/commentTree.ts:13-34 | a comment is found at one path at most |
| CommentTreeShape.OrphanUnreachable | src/utils/commentTree.ts:26-27 | a comment whose parent id names no input comment is rooted at no depth, so it is dropped |
| CommentTreeShape.UnreachableBelow | src/utils/commentTree.ts:24-32 | the children of a dropped comment are dropped too |
| CommentTreeShape.CycleUnreachable | src/utils/commentTree.ts:24-32 | comments whose parent ids form a cycle are rooted at no depth |
| Api.GetPostsQuery | src/services/api.ts:16-22 | page and limit are passed through, the sort field is always `createdAt`, and the order is `desc` exactly for newest and `asc` exactly for oldest |
| Api.GetPostsDefaults | src/services/api.ts:16 | called without arguments, `getPosts` asks for page 1, limit 10, sorted by `createdAt`, `desc` |
| Api.ChildrenMapSpec | src/services/api.ts:95-102 | looking an id up in the children map gives its children in fetch order, and an absent id gives none |
| Api.ChildrenOfMembers | src/services/api.ts:97-100 | the children of an id are exactly the fetched comments with that truthy parent id |
| Api.ChildrenAreReplies | src/services/api.ts:97 | the children map agrees with the tree's reply lists for every id but `""` |
| Api.EnqueueSpec | src/services/api.ts:112-117 | visiting children marks every child, marks nothing else, keeps the queue as a prefix, and queues each newly marked id |
| Api.ExploreGrows | src/services/api.ts:108-118 | the loop only adds ids and adds none outside the target and fetched ids |
| Api.ExploreClosed | src/services/api.ts:108-118 | when the queue is empty, every marked id has all its children marked |
| Api.ExploreLeast | src/services/api.ts:108-118 | the loop marks nothing outside any set that holds the marks so far and is closed under children |
| Api.ClosureSpec | src/services/api.ts:104-118 | the id set contains the target, is closed under children, and holds only the target and fetched ids |
| Api.ClosureLeast | src/services/api.ts:104-118 | the id set lies inside every set that contains the target and is closed under children |
| Api.ClosureDerived | src/services/api.ts:104-118 | every id in the set is the target or a fetched child of an id in the set |
| Api.KeepCount | src/services/api.ts:121 | the filter keeps each comment with a selected id as often as it occurs, and nothing else |
| Api.KeepAppend | src/services/api.ts:121 | the filter keeps fetch order |
| Api.KeepAll | src/services/api.ts:121 | filtering by a set that holds every id changes nothing |
| Api.KeptIds | src/services/api.ts:121 | a fetched comment's id survives the filter exactly when it is selected |
| Api.DeleteInOrderSpec | src/services/api.ts:124-131 | one call per comment, in order, each recording its own outcome; a failed call does not stop the rest |
| Api.DeleteCommentRecursive | src/services/api.ts:82-136 | the promise rejects exactly when the fetch fails; a failed or empty fetch makes no calls |
| Api.DeleteCommentRecursiveAttempts | src/services/api.ts:120-131 | after a fetch, the calls go to exactly the fetched comments in the id set, in fetch order; the promise resolves whatever the calls do |
| Api.DeleteCommentRecursiveOnce | src/services/api.ts:112-131 | with unique fetched ids, delete is called on each id at most once |
| Api.DeleteAllComments | src/services/api.ts:139-161 | the promise always resolves; a failed or empty fetch makes no calls |
| Api.DeleteAllCommentsAttempts | src/services/api.ts:148-156 | after a fetch, one call per fetched comment, in fetch order, each recording its own outcome |
| Api.FetchFailureDiffers | src/services/api.ts:132-160 | on a failed fetch the cascade rejects and the bulk delete resolves, neither making a call |
| Api.CascadeExample | src/services/__tests__/api.test.ts:476-535 | deleting the parent of the four-comment test thread calls delete on `1`, `2`, `3`, `4`, in that order |
| PostsList.NextPageParam | src/pages/PostsList.tsx:41-44 | a next page exists exactly when the last page holds 10 posts, and its number exceeds the number of pages loaded |
| PostsList.PagesConsecutive | src/pages/PostsList.tsx:40-45 | starting from page 1, the page asked for after k full pages is page k + 1 |
| PostsList.LastPageDecides | src/pages/PostsList.tsx:41-44 | a short last page ends the fetching; a full one asks for page `allPages.length + 1` |
| PostsList.FlattenAppend | src/pages/PostsList.tsx:51 | flattening goes page by page: the posts of earlier pages come first, each page in its own order |
| PostsList.FlattenOne | src/pages/PostsList.tsx:51 | a single page flattens to itself |
| PostsList.FlattenSpec | src/pages/PostsList.tsx:51 | the flattened list has the posts of all pages and nothing else, and its length is the pages' total |
| PostsList.PutIds | src/pages/PostsList.tsx:54 | setting a known id keeps the key order; a new id is appended |
| PostsList.PutValues | src/pages/PostsList.tsx:54 | after setting a post, its id holds that post and every other entry is unchanged |
| PostsList.DedupeIds | src/pages/PostsList.tsx:53-55 | the merged list's ids are the input's distinct ids in order of first occurrence |
| PostsList.DedupeLast | src/pages/PostsList.tsx:53-55 | each merged entry is the last post with its id |
| PostsList.DedupeDistinct | src/pages/PostsList.tsx:53-55 | no two merged entries share an id |
| PostsList.DedupeIdSet | src/pages/PostsList.tsx:53-55 | the merged ids are exactly the input ids |
| PostsList.DedupeLength | src/pages/PostsList.tsx:53-55 | the merged list is never longer than its input |
| PostsList.SortPostsSpec | src/pages/PostsList.tsx:57-61 | the sort permutes, orders by time newest or oldest first as chosen, and keeps equal times in incoming order |
| PostsList.AllPosts | src/pages/PostsList.tsx:50-62 | a query with no data yet gives an empty list |
| PostsList.AllPostsContents | src/pages/PostsList.tsx:50-62 | `allPosts` has every loaded id exactly once, with the post loaded last under it, and is no longer than the pages together |
| PostsList.AllPostsOrder | src/pages/PostsList.tsx:57-61 | `allPosts` is ordered by time in the chosen direction; equal times keep the order of first occurrence |
| PostCard.Utf16RoundTrip | src/components/PostCard.tsx:16-17 | the UTF-16 encoding of the content loses nothing: decoding it gives the content back |
| PostCard.Utf16Append | src/components/PostCard.tsx:16-17 | the encoding of a concatenation is the concatenation of the encodings |
| PostCard.TruncatedContent | src/components/PostCard.tsx:15-18 | content of at most 200 code units is unchanged; longer content becomes 203 code units ending in `...`; the result never exceeds 203 and starts with the first min(length, 200) code units |
| PostCard.ShortPreviewShowsAll | src/components/PostCard.tsx:15-18 | content of at most 200 code units is shown in full, and the preview reads back as the content |
| PostCard.TruncateIdempotent | src/components/PostCard.tsx:15-18 | truncating a preview again changes nothing |
| PostCard.TruncateForgetsTail | src/components/PostCard.tsx:15-18 | two long contents share a preview exactly when their first 200 code units agree, and two short contents only when they are equal |
| PostCard.LongContentExample | src/components/__tests__/PostCard.test.tsx:32-51 | 300 `a`s become 200 `a`s followed by `...` |
| PostCard.EmojiContentExample | src/components/PostCard.tsx:16-17 | 150 emoji are 300 code units, and the preview is the first 100 emoji followed by `...` |
| PostCard.SplitPairExample | src/components/PostCard.tsx:16-17 | after one `a` and 150 emoji, the cut leaves a lone high surrogate before `...`, which no longer decodes |

## Left out

- Duplicate comment ids in `buildCommentTree` are not modelled. The client then shares one node between several places. Every tree property above assumes unique ids, as the backend promises.
- Tree growth has fuel `|cs|`. `CommentTreeShape.DepthBound` shows the fuel is never exhausted under unique ids, so nothing is cut off.
- `if (!parent.replies)` in `buildCommentTree` cannot fire, because pass 1 gives every node an empty list. It is not modelled.
- HTTP, axios and the promise machinery are not modelled. `getComments` is a `Fetch` and `deleteComment` is the `succeeds` oracle. `getPosts` is modelled only as the query it sends.
- A `null` response body from `getComments` is not modelled. It takes the same early return as an empty list, which is modelled.
- `console.warn` logging is not modelled. It has no effect on the result.
- Date parsing is not modelled. `new Date(...).getTime()` is taken as already done, so invalid dates and their `NaN` comparisons are out of scope.
- How React displays a preview that ends in a lone surrogate is not modelled. The preview is a sequence of code units.
- The React components are not modelled: rendering, the intersection observer, forms, toasts, the query cache and routing.
