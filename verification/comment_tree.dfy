/** The comment-tree helper of the comments query: a flat list of comments
    becomes a forest in which each comment's node lists the nodes of its
    replies. Nodes are shared references in the source; here a node is
    named by its comment id, and `replies` lists those names. */
module CommentTree {
  import opened Js
  import Comments
  import Publications

  /** The two fields of a formatted comment the helper reads. */
  datatype FlatComment = FlatComment(id: string, parent: Value)

  datatype Node = Node(comment: FlatComment, replies: seq<string>)

  /** `roots` names the root nodes in order; `nodes` is the id-keyed map. */
  datatype Forest = Forest(roots: seq<string>, nodes: map<string, Node>)

  // ---------------------------------------------------------------------
  // Reference definitions, each read off the list from its end

  function Ids(cs: seq<FlatComment>): set<string> {
    set i | 0 <= i < |cs| :: cs[i].id
  }

  function Init(cs: seq<FlatComment>): seq<FlatComment>
    requires cs != []
  {
    cs[..|cs| - 1]
  }

  function Last(cs: seq<FlatComment>): FlatComment
    requires cs != []
  {
    cs[|cs| - 1]
  }

  /** A comment is a root when its parent id is falsy. */
  predicate IsRoot(c: FlatComment) {
    !Truthy(c.parent)
  }

  /** `c` goes into the replies of the node named `k`. */
  predicate IsChildOf(c: FlatComment, k: string) {
    Truthy(c.parent) && c.parent == Str(k)
  }

  /** `c` names a parent, and that parent is one of `keys`. */
  predicate ParentIn(c: FlatComment, keys: set<string>) {
    Truthy(c.parent) && c.parent.Str? && c.parent.s in keys
  }

  /** The ids of the root comments, in list order. */
  function RootIds(cs: seq<FlatComment>): seq<string> {
    if cs == [] then [] else RootIds(Init(cs)) + (if IsRoot(Last(cs)) then [Last(cs).id] else [])
  }

  /** The ids of the replies to `k`, in list order. */
  function ChildIds(cs: seq<FlatComment>, k: string): seq<string> {
    if cs == [] then [] else ChildIds(Init(cs), k) + (if IsChildOf(Last(cs), k) then [Last(cs).id] else [])
  }

  /** The ids of the comments attached under some node named in `keys`. */
  function AttachedIn(cs: seq<FlatComment>, keys: set<string>): seq<string> {
    if cs == [] then [] else AttachedIn(Init(cs), keys) + (if ParentIn(Last(cs), keys) then [Last(cs).id] else [])
  }

  /** The ids of the comments whose parent is not among `keys`. */
  function DroppedIn(cs: seq<FlatComment>, keys: set<string>): seq<string> {
    if cs == [] then []
    else DroppedIn(Init(cs), keys) + (if !IsRoot(Last(cs)) && !ParentIn(Last(cs), keys) then [Last(cs).id] else [])
  }

  /** The comment a node is built from: `Map.set` keeps the last one with
      that id (`LastWithIdIsLast`). */
  function LastWithId(cs: seq<FlatComment>, k: string): (c: FlatComment)
    requires k in Ids(cs)
    ensures c.id == k && c in cs
  {
    if Last(cs).id == k then Last(cs)
    else
      assert k in Ids(Init(cs)) by {
        var i :| 0 <= i < |cs| && cs[i].id == k;
        assert Init(cs)[i].id == k;
      }
      LastWithId(Init(cs), k)
  }

  /** The comment `LastWithId` picks is the last one with that id: when
      `cs[j]` has id `k` and no later comment does, it is `cs[j]`. */
  lemma {:induction false} LastWithIdIsLast(cs: seq<FlatComment>, k: string, j: nat)
    requires j < |cs| && cs[j].id == k
    requires forall i :: j < i < |cs| ==> cs[i].id != k
    ensures LastWithId(cs, k) == cs[j]
    decreases |cs|
  {
    if j < |cs| - 1 {
      assert Last(cs).id != k by { assert Last(cs) == cs[|cs| - 1]; }
      assert Init(cs)[j] == cs[j];
      forall i | j < i < |Init(cs)| ensures Init(cs)[i].id != k {
        assert Init(cs)[i] == cs[i];
      }
      LastWithIdIsLast(Init(cs), k, j);
    }
  }

  lemma IdsOfPrefix(cs: seq<FlatComment>, i: nat)
    requires i < |cs|
    ensures Ids(cs[..i + 1]) == Ids(cs[..i]) + {cs[i].id}
  {
    var a, b := cs[..i], cs[..i + 1];
    forall x | x in Ids(b) ensures x in Ids(a) + {cs[i].id} {
      var j :| 0 <= j < |b| && b[j].id == x;
      if j < i { assert a[j].id == x; }
    }
    forall x | x in Ids(a) ensures x in Ids(b) {
      var j :| 0 <= j < |a| && a[j].id == x;
      assert b[j].id == x;
    }
    assert b[i].id == cs[i].id;
  }

  // ---------------------------------------------------------------------
  // The helper

  /** `_organizeCommentsHierarchically(comments)`: the first pass makes a
      node per id, the second pushes each comment onto its parent's
      replies, or onto the roots when it has no parent; a comment whose
      parent is not in the list lands nowhere. */
  method Organize(cs: seq<FlatComment>) returns (f: Forest)
    ensures f.nodes.Keys == Ids(cs)
    ensures forall k :: k in f.nodes ==> f.nodes[k].comment == LastWithId(cs, k)
    ensures f.roots == RootIds(cs)
    ensures forall k :: k in f.nodes ==> f.nodes[k].replies == ChildIds(cs, k)
  {
    var nodes: map<string, Node> := map[];
    var i := 0;
    while i < |cs|
      invariant 0 <= i <= |cs|
      invariant nodes.Keys == Ids(cs[..i])
      invariant forall k :: k in nodes ==> nodes[k] == Node(LastWithId(cs[..i], k), [])
    {
      IdsOfPrefix(cs, i);
      assert Init(cs[..i + 1]) == cs[..i];
      nodes := nodes[cs[i].id := Node(cs[i], [])];
      i := i + 1;
    }
    assert cs[..|cs|] == cs;

    var roots: seq<string> := [];
    var j := 0;
    while j < |cs|
      invariant 0 <= j <= |cs|
      invariant nodes.Keys == Ids(cs)
      invariant roots == RootIds(cs[..j])
      invariant forall k :: k in nodes ==> nodes[k] == Node(LastWithId(cs, k), ChildIds(cs[..j], k))
    {
      var c := cs[j];
      assert Init(cs[..j + 1]) == cs[..j] && Last(cs[..j + 1]) == c;
      if Truthy(c.parent) {
        if c.parent.Str? && c.parent.s in nodes {
          var p := nodes[c.parent.s];
          nodes := nodes[c.parent.s := p.(replies := p.replies + [c.id])];
        }
      } else {
        roots := roots + [c.id];
      }
      j := j + 1;
    }
    assert cs[..|cs|] == cs;
    f := Forest(roots, nodes);
  }

  // ---------------------------------------------------------------------
  // Counting: every comment is a root, a reply, or dropped

  /** Root, attached or dropped: each comment is exactly one of these. */
  lemma {:induction false} Partition(cs: seq<FlatComment>, keys: set<string>)
    ensures |RootIds(cs)| + |AttachedIn(cs, keys)| + |DroppedIn(cs, keys)| == |cs|
    decreases |cs|
  {
    if cs != [] {
      Partition(Init(cs), keys);
    }
  }

  /** All the replies lists of the nodes named by `ks`, one after another. */
  function AllReplies(cs: seq<FlatComment>, ks: seq<string>): seq<string> {
    if ks == [] then [] else ChildIds(cs, ks[0]) + AllReplies(cs, ks[1..])
  }

  ghost predicate Distinct(ks: seq<string>) {
    forall i, j :: 0 <= i < j < |ks| ==> ks[i] != ks[j]
  }

  /** Adding one comment adds one entry to the replies lists of distinct
      keys exactly when its parent is one of them. */
  lemma {:induction false} AllRepliesStep(cs: seq<FlatComment>, ks: seq<string>)
    requires cs != [] && Distinct(ks)
    ensures |AllReplies(cs, ks)| == |AllReplies(Init(cs), ks)| + B(ParentIn(Last(cs), set k | k in ks))
    decreases |ks|
  {
    if ks != [] {
      assert Distinct(ks[1..]) by {
        forall i, j | 0 <= i < j < |ks[1..]| ensures ks[1..][i] != ks[1..][j] {
          assert ks[1..][i] == ks[i + 1] && ks[1..][j] == ks[j + 1];
        }
      }
      AllRepliesStep(cs, ks[1..]);
      var c := Last(cs);
      var rest := set k | k in ks[1..];
      assert (set k | k in ks) == {ks[0]} + rest;
      if IsChildOf(c, ks[0]) {
        assert ks[0] !in rest by {
          forall j | 0 <= j < |ks[1..]| ensures ks[1..][j] != ks[0] {
            assert ks[1..][j] == ks[j + 1];
          }
        }
      }
    }
  }

  /** The replies lists of the nodes named by distinct `ks` hold exactly as
      many entries as there are comments attached under those nodes. */
  lemma {:induction false} AllRepliesCount(cs: seq<FlatComment>, ks: seq<string>)
    requires Distinct(ks)
    ensures |AllReplies(cs, ks)| == |AttachedIn(cs, set k | k in ks)|
    decreases |cs|
  {
    if cs == [] {
      EmptyReplies(ks);
    } else {
      AllRepliesCount(Init(cs), ks);
      AllRepliesStep(cs, ks);
    }
  }

  lemma {:induction false} EmptyReplies(ks: seq<string>)
    ensures AllReplies([], ks) == []
    decreases |ks|
  {
    if ks != [] {
      EmptyReplies(ks[1..]);
    }
  }

  /** The forest does not hold more comments than the list: its roots and
      the replies of all its nodes together number the list's length less
      the dropped comments. `ks` lists the node keys, each once. */
  lemma ForestCount(cs: seq<FlatComment>, f: Forest, ks: seq<string>)
    requires f.nodes.Keys == Ids(cs) && f.roots == RootIds(cs)
    requires forall k :: k in f.nodes ==> f.nodes[k].replies == ChildIds(cs, k)
    requires Distinct(ks) && (set k | k in ks) == f.nodes.Keys
    ensures |f.roots| + |AllReplies(cs, ks)| + |DroppedIn(cs, Ids(cs))| == |cs|
    ensures |f.roots| + |AllReplies(cs, ks)| <= |cs|
  {
    AllRepliesCount(cs, ks);
    Partition(cs, Ids(cs));
  }

  /** With distinct comment ids, each comment gets its own node. */
  lemma {:induction false} DistinctIdsOneNodeEach(cs: seq<FlatComment>)
    requires forall i, j :: 0 <= i < j < |cs| ==> cs[i].id != cs[j].id
    ensures |Ids(cs)| == |cs|
    decreases |cs|
  {
    if cs != [] {
      var n := |cs| - 1;
      DistinctIdsOneNodeEach(Init(cs));
      IdsOfPrefix(cs, n);
      assert cs[..n + 1] == cs && cs[..n] == Init(cs);
      forall i | 0 <= i < n ensures Init(cs)[i].id != cs[n].id {
        assert Init(cs)[i] == cs[i];
      }
    }
  }

  // ---------------------------------------------------------------------
  // A well-formed publication loses no comment

  /** The list `execute` builds, as written: it reads `comment.parentId`,
      a property a comment does not have (its getter is `parentCommentId`),
      so every formatted comment has an `undefined` parent. */
  function FormattedAsWritten(cs: seq<Comments.Comment>): (r: seq<FlatComment>)
    ensures |r| == |cs|
    ensures forall i :: 0 <= i < |cs| ==> r[i] == FlatComment(cs[i].id, Undefined)
  {
    seq(|cs|, i requires 0 <= i < |cs| => FlatComment(cs[i].id, Undefined))
  }

  /** A list in which no comment names a parent is all roots, and no node
      gets a reply. */
  lemma {:induction false} NoParentsAllRoots(cs: seq<FlatComment>)
    requires forall i :: 0 <= i < |cs| ==> IsRoot(cs[i])
    ensures |RootIds(cs)| == |cs|
    ensures forall k :: ChildIds(cs, k) == []
    decreases |cs|
  {
    if cs != [] {
      assert forall i :: 0 <= i < |Init(cs)| ==> Init(cs)[i] == cs[i];
      NoParentsAllRoots(Init(cs));
      assert IsRoot(Last(cs));
    }
  }

  /** As written, organizing a publication's comments makes every comment a
      root and gives no node a reply, whatever parents the comments have. */
  lemma RepliesBecomeRootsAsWritten(cs: seq<Comments.Comment>)
    ensures |RootIds(FormattedAsWritten(cs))| == |cs|
    ensures forall k :: ChildIds(FormattedAsWritten(cs), k) == []
  {
    NoParentsAllRoots(FormattedAsWritten(cs));
  }

  /** There are never more roots than comments. */
  lemma {:induction false} RootsAtMostComments(cs: seq<FlatComment>)
    ensures |RootIds(cs)| <= |cs|
    decreases |cs|
  {
    if cs != [] {
      RootsAtMostComments(Init(cs));
    }
  }

  /** A comment naming a parent is not a root, so the roots are fewer than
      the comments. */
  lemma {:induction false} ReplyNotRoot(cs: seq<FlatComment>, i: nat)
    requires i < |cs| && !IsRoot(cs[i])
    ensures |RootIds(cs)| < |cs|
    decreases |cs|
  {
    if i < |cs| - 1 {
      assert Init(cs)[i] == cs[i];
      ReplyNotRoot(Init(cs), i);
    } else {
      RootsAtMostComments(Init(cs));
    }
  }

  /** A reply is listed in the replies of the node its parent id names. */
  lemma {:induction false} ReplyListedUnderParent(cs: seq<FlatComment>, i: nat, k: string)
    requires i < |cs| && IsChildOf(cs[i], k)
    ensures cs[i].id in ChildIds(cs, k)
    decreases |cs|
  {
    if i < |cs| - 1 {
      assert Init(cs)[i] == cs[i];
      ReplyListedUnderParent(Init(cs), i, k);
    }
  }

  /** The list the helper is evidently meant to receive: each comment's id
      and its `parentCommentId`. */
  function Flatten(cs: seq<Comments.Comment>): (r: seq<FlatComment>)
    ensures |r| == |cs|
    ensures forall i :: 0 <= i < |cs| ==> r[i] == FlatComment(cs[i].id, cs[i].parentCommentId)
  {
    seq(|cs|, i requires 0 <= i < |cs| => FlatComment(cs[i].id, cs[i].parentCommentId))
  }

  /** Read through `parentCommentId`, a reply is listed under its parent and
      is not a root. */
  lemma FlattenKeepsReplies(cs: seq<Comments.Comment>, i: nat)
    requires i < |cs| && Truthy(cs[i].parentCommentId) && cs[i].parentCommentId.Str?
    ensures cs[i].id in ChildIds(Flatten(cs), cs[i].parentCommentId.s)
    ensures |RootIds(Flatten(cs))| < |cs|
  {
    ReplyListedUnderParent(Flatten(cs), i, cs[i].parentCommentId.s);
    ReplyNotRoot(Flatten(cs), i);
  }

  lemma {:induction false} NoneDroppedWhenParentsResolve(cs: seq<FlatComment>, keys: set<string>)
    requires forall i :: 0 <= i < |cs| ==> IsRoot(cs[i]) || ParentIn(cs[i], keys)
    ensures DroppedIn(cs, keys) == []
    decreases |cs|
  {
    if cs != [] {
      assert forall i :: 0 <= i < |Init(cs)| ==> Init(cs)[i] == cs[i];
      NoneDroppedWhenParentsResolve(Init(cs), keys);
    }
  }

  /** Every reply of a well-formed publication points at one of its
      comments, so organizing its comments drops none: the roots and the
      replies account for every comment. */
  lemma WfPublicationDropsNothing(p: Publications.Publication)
    requires Publications.Wf(p)
    ensures DroppedIn(Flatten(p.comments), Ids(Flatten(p.comments))) == []
    ensures |Ids(Flatten(p.comments))| == |p.comments|
  {
    var cs := Flatten(p.comments);
    assert Ids(cs) == Publications.CommentIds(p.comments) by {
      forall x | x in Publications.CommentIds(p.comments) ensures x in Ids(cs) {
        var i :| 0 <= i < |p.comments| && p.comments[i].id == x;
        assert cs[i].id == x;
      }
    }
    forall i | 0 <= i < |cs| ensures IsRoot(cs[i]) || ParentIn(cs[i], Ids(cs)) {
      assert Publications.ParentResolves(p.comments, p.comments[i].parentCommentId);
    }
    NoneDroppedWhenParentsResolve(cs, Ids(cs));
    DistinctIdsOneNodeEach(cs);
  }
}
