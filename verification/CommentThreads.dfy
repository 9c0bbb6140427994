/** Comment threads: a flat list of comments becomes a forest of shared nodes, and
    the rule for posting a comment is what makes that forest whole. */
module CommentThreads {
  import opened Wrappers
  import Text

  datatype Comment = Comment(id: string, loanId: string, authorAddress: string, content: string,
                             parentId: Option<string>)

  class Node {
    const comment: Comment
    var replies: seq<Node>

    constructor (comment: Comment)
      ensures this.comment == comment && replies == []
    {
      this.comment := comment;
      replies := [];
    }
  }

  // ---- what the forest should be ----

  ghost predicate DistinctIds(comments: seq<Comment>) {
    forall i, j :: 0 <= i < j < |comments| ==> comments[i].id != comments[j].id
  }

  predicate IsReplyTo(c: Comment, id: string) {
    id != "" && c.parentId == Some(id)
  }

  function IdsOf(comments: seq<Comment>): set<string> {
    set i | 0 <= i < |comments| :: comments[i].id
  }

  /** The comment names a parent that is in the list. */
  predicate HasParent(c: Comment, ids: set<string>) {
    c.parentId.Some? && c.parentId.value != "" && c.parentId.value in ids
  }

  /** The replies to `id`, in list order. */
  function Replies(comments: seq<Comment>, id: string): seq<Comment> {
    if comments == [] then []
    else
      var n := |comments| - 1;
      Replies(comments[..n], id) + if IsReplyTo(comments[n], id) then [comments[n]] else []
  }

  /** The comments without a parent in the list, in list order. */
  function Roots(comments: seq<Comment>, ids: set<string>): seq<Comment> {
    if comments == [] then []
    else
      var n := |comments| - 1;
      Roots(comments[..n], ids) + if HasParent(comments[n], ids) then [] else [comments[n]]
  }

  lemma LastOfBoth(a: seq<Comment>, b: seq<Comment>, id: string, ids: set<string>)
    requires b != []
    ensures var n := |b| - 1;
            var reply := if IsReplyTo(b[n], id) then [b[n]] else [];
            var root := if HasParent(b[n], ids) then [] else [b[n]];
            && Replies(b, id) == Replies(b[..n], id) + reply
            && Replies(a + b, id) == Replies(a + b[..n], id) + reply
            && Roots(b, ids) == Roots(b[..n], ids) + root
            && Roots(a + b, ids) == Roots(a + b[..n], ids) + root
  {
    var n := |b| - 1;
    assert (a + b)[..|a| + n] == a + b[..n] && (a + b)[|a| + n] == b[n];
  }

  lemma Joined<T>(x: seq<T>, y: seq<T>, z: seq<T>)
    ensures x + y + z == x + (y + z)
    ensures x + [] == x
  {
  }

  /** Replies and roots keep the order of the list. */
  lemma {:induction false} OrderIsKept(a: seq<Comment>, b: seq<Comment>, id: string, ids: set<string>)
    ensures Replies(a + b, id) == Replies(a, id) + Replies(b, id)
    ensures Roots(a + b, ids) == Roots(a, ids) + Roots(b, ids)
    decreases |b|
  {
    if b == [] {
      Joined(a, [], []);
      Joined(Replies(a, id), [], []);
      Joined(Roots(a, ids), [], []);
    } else {
      var n := |b| - 1;
      LastOfBoth(a, b, id, ids);
      OrderIsKept(a, b[..n], id, ids);
      Joined(Replies(a, id), Replies(b[..n], id), if IsReplyTo(b[n], id) then [b[n]] else []);
      Joined(Roots(a, ids), Roots(b[..n], ids), if HasParent(b[n], ids) then [] else [b[n]]);
    }
  }

  /** A single comment is a reply to the one it names, and a root if that one is not listed. */
  lemma OneComment(c: Comment, id: string, ids: set<string>)
    ensures Replies([c], id) == if id != "" && c.parentId == Some(id) then [c] else []
    ensures Roots([c], ids) == if c.parentId.Some? && c.parentId.value != "" && c.parentId.value in ids then [] else [c]
  {
    assert [c][..0] == [];
  }

  // ---- the builder ----

  /** `ns` are the nodes of these comments, in order. */
  ghost predicate Shows(ns: seq<Node>, nodes: map<string, Node>, comments: seq<Comment>) {
    |ns| == |comments| && forall i :: 0 <= i < |ns| ==> comments[i].id in nodes && ns[i] == nodes[comments[i].id]
  }

  /** Every comment of the list has its own node. */
  ghost predicate Mapped(nodes: map<string, Node>, comments: seq<Comment>) {
    && nodes.Keys == IdsOf(comments)
    && (forall i :: 0 <= i < |comments| ==> comments[i].id in nodes && nodes[comments[i].id].comment == comments[i])
    && forall a, b :: a in nodes && b in nodes && a != b ==> nodes[a] != nodes[b]
  }

  lemma {:induction false} RepliesAreListed(comments: seq<Comment>, id: string)
    ensures forall i :: 0 <= i < |Replies(comments, id)| ==>
              Replies(comments, id)[i] in comments && IsReplyTo(Replies(comments, id)[i], id)
    decreases |comments|
  {
    if comments != [] {
      RepliesAreListed(comments[..|comments| - 1], id);
    }
  }

  lemma {:induction false} RootsAreListed(comments: seq<Comment>, ids: set<string>)
    ensures forall i :: 0 <= i < |Roots(comments, ids)| ==>
              Roots(comments, ids)[i] in comments && !HasParent(Roots(comments, ids)[i], ids)
    decreases |comments|
  {
    if comments != [] {
      RootsAreListed(comments[..|comments| - 1], ids);
    }
  }

  /** After the first `n` comments, the replies of `id` are those among them. */
  ghost predicate Linked(nodes: map<string, Node>, comments: seq<Comment>, n: nat, id: string)
    requires n <= |comments| && id in nodes
    reads nodes.Values
  {
    Shows(nodes[id].replies, nodes, Replies(comments[..n], id))
  }

  ghost predicate AllLinked(nodes: map<string, Node>, comments: seq<Comment>, n: nat)
    requires n <= |comments|
    reads nodes.Values
  {
    forall id {:trigger Linked(nodes, comments, n, id)} :: id in nodes ==> Linked(nodes, comments, n, id)
  }

  /** The finished forest: each comment has a node, and the node's replies are the
      nodes of the comment's replies in list order. */
  ghost predicate IsThread(nodes: map<string, Node>, comments: seq<Comment>)
    reads nodes.Values
  {
    Mapped(nodes, comments) && AllLinked(nodes, comments, |comments|)
  }

  method BuildThread(comments: seq<Comment>) returns (roots: seq<Node>, nodes: map<string, Node>, total: nat)
    requires DistinctIds(comments)
    ensures forall id :: id in nodes ==> fresh(nodes[id])
    ensures IsThread(nodes, comments) && Shows(roots, nodes, Roots(comments, IdsOf(comments)))
    ensures total == |comments|
  {
    nodes := map[];
    roots := [];
    for i := 0 to |comments|
      invariant forall id :: id in nodes ==> fresh(nodes[id]) && nodes[id].replies == []
      invariant Mapped(nodes, comments[..i])
    {
      var node := new Node(comments[i]);
      MappedStep(nodes, comments, i, node);
      nodes := nodes[comments[i].id := node];
    }
    assert comments[..|comments|] == comments;
    for i := 0 to |comments|
      invariant forall id :: id in nodes ==> fresh(nodes[id])
      invariant Mapped(nodes, comments)
      invariant AllLinked(nodes, comments, i)
      invariant Shows(roots, nodes, Roots(comments[..i], IdsOf(comments)))
    {
      roots := Place(nodes, roots, comments, i);
    }
    total := |comments|;
  }

  /** `map.get(key).replies.push(node)`: no other node changes. */
  method Push(nodes: map<string, Node>, key: string, node: Node)
    requires key in nodes && forall a, b :: a in nodes && b in nodes && a != b ==> nodes[a] != nodes[b]
    modifies nodes.Values
    ensures forall id :: id in nodes ==>
              nodes[id].replies == if id == key then old(nodes[id].replies) + [node] else old(nodes[id].replies)
  {
    var parent := nodes[key];
    parent.replies := parent.replies + [node];
  }

  /** One round of the second loop: the comment's node goes under its parent, or to the roots. */
  method Place(nodes: map<string, Node>, roots: seq<Node>, comments: seq<Comment>, i: nat) returns (roots': seq<Node>)
    requires i < |comments| && Mapped(nodes, comments)
    requires AllLinked(nodes, comments, i)
    requires Shows(roots, nodes, Roots(comments[..i], IdsOf(comments)))
    modifies nodes.Values
    ensures AllLinked(nodes, comments, i + 1)
    ensures Shows(roots', nodes, Roots(comments[..i + 1], IdsOf(comments)))
  {
    var c := comments[i];
    RootsStep(nodes, comments, i, roots);
    ghost var after := NextReplies(nodes, comments, i);
    if c.parentId.Some? && c.parentId.value != "" && c.parentId.value in nodes {
      Push(nodes, c.parentId.value, nodes[c.id]);
      roots' := roots;
    } else {
      roots' := roots + [nodes[c.id]];
    }
    forall id | id in nodes ensures Linked(nodes, comments, i + 1, id) {
      assert nodes[id].replies == after[id];
    }
  }

  /** What each node's replies must be after comment `i`. */
  lemma NextReplies(nodes: map<string, Node>, comments: seq<Comment>, i: nat) returns (after: map<string, seq<Node>>)
    requires i < |comments| && comments[i].id in nodes
    requires AllLinked(nodes, comments, i)
    ensures forall id :: id in nodes ==>
              id in after && Shows(after[id], nodes, Replies(comments[..i + 1], id))
    ensures forall id :: id in nodes ==>
              after[id] == if IsReplyTo(comments[i], id) then nodes[id].replies + [nodes[comments[i].id]]
                           else nodes[id].replies
  {
    after := map id | id in nodes ::
      if IsReplyTo(comments[i], id) then nodes[id].replies + [nodes[comments[i].id]] else nodes[id].replies;
    forall id | id in nodes ensures Shows(after[id], nodes, Replies(comments[..i + 1], id)) {
      assert Linked(nodes, comments, i, id);
      RepliesStep(nodes, comments, id, i, nodes[id].replies);
    }
  }

  lemma RepliesStep(nodes: map<string, Node>, comments: seq<Comment>, id: string, i: nat, ns: seq<Node>)
    requires i < |comments| && comments[i].id in nodes && Shows(ns, nodes, Replies(comments[..i], id))
    ensures Shows(if IsReplyTo(comments[i], id) then ns + [nodes[comments[i].id]] else ns,
                  nodes, Replies(comments[..i + 1], id))
  {
    assert comments[..i + 1][..i] == comments[..i];
  }

  lemma RootsStep(nodes: map<string, Node>, comments: seq<Comment>, i: nat, ns: seq<Node>)
    requires i < |comments| && comments[i].id in nodes && Shows(ns, nodes, Roots(comments[..i], IdsOf(comments)))
    ensures Shows(if HasParent(comments[i], IdsOf(comments)) then ns else ns + [nodes[comments[i].id]],
                  nodes, Roots(comments[..i + 1], IdsOf(comments)))
  {
    assert comments[..i + 1][..i] == comments[..i];
  }

  lemma MappedStep(nodes: map<string, Node>, comments: seq<Comment>, i: nat, node: Node)
    requires DistinctIds(comments) && i < |comments| && Mapped(nodes, comments[..i])
    requires node.comment == comments[i] && forall id :: id in nodes ==> nodes[id] != node
    ensures Mapped(nodes[comments[i].id := node], comments[..i + 1])
  {
    var nodes' := nodes[comments[i].id := node];
    forall id ensures id in nodes' <==> id in IdsOf(comments[..i + 1]) {
      if id in IdsOf(comments[..i]) {
        var j :| 0 <= j < i && comments[..i][j].id == id;
        assert comments[..i + 1][j].id == id;
      }
      assert comments[..i + 1][i].id == comments[i].id;
    }
    assert forall j :: 0 <= j < i ==> comments[..i + 1][j] == comments[..i][j];
  }

  // ---- reading the forest ----

  /** Every parent in the list has a smaller rank than its replies. */
  ghost predicate Ranked(comments: seq<Comment>, rank: map<string, nat>) {
    forall i :: 0 <= i < |comments| ==>
      comments[i].id in rank &&
      forall j :: 0 <= j < |comments| && IsReplyTo(comments[i], comments[j].id) ==>
        comments[j].id in rank && rank[comments[j].id] < rank[comments[i].id]
  }

  /** A comment, what is below it, and what comes after. */
  function Written(c: Comment, below: seq<Comment>, after: seq<Comment>): seq<Comment> {
    [c] + below + after
  }

  /** The comments met when a list of nodes is written out, each followed by its
      replies, to at most `depth` levels. */
  ghost function Walk(ns: seq<Node>, depth: nat, region: set<Node>): seq<Comment>
    reads region
    decreases depth, |ns|
  {
    if ns == [] || depth == 0 then []
    else
      Written(ns[0].comment,
              if ns[0] in region then Walk(ns[0].replies, depth - 1, region) else [],
              Walk(ns[1..], depth, region))
  }

  /** The same on the list itself. */
  function Preorder(comments: seq<Comment>, cs: seq<Comment>, depth: nat): seq<Comment>
    decreases depth, |cs|
  {
    if cs == [] || depth == 0 then []
    else Written(cs[0], Preorder(comments, Replies(comments, cs[0].id), depth - 1), Preorder(comments, cs[1..], depth))
  }

  ghost predicate AllListed(comments: seq<Comment>, cs: seq<Comment>) {
    cs == [] || (cs[0] in comments && AllListed(comments, cs[1..]))
  }

  lemma {:induction false} AllListedMeans(comments: seq<Comment>, cs: seq<Comment>)
    requires forall i :: 0 <= i < |cs| ==> cs[i] in comments
    ensures AllListed(comments, cs)
  {
    if cs != [] {
      AllListedMeans(comments, cs[1..]);
    }
  }

  lemma {:induction false} WalkIsPreorder(nodes: map<string, Node>, region: set<Node>, comments: seq<Comment>,
                                          ns: seq<Node>, cs: seq<Comment>, depth: nat)
    requires region == nodes.Values && IsThread(nodes, comments) && Shows(ns, nodes, cs) && AllListed(comments, cs)
    ensures Walk(ns, depth, region) == Preorder(comments, cs, depth)
    decreases depth, |ns|
  {
    if ns != [] && depth > 0 {
      var node := nodes[cs[0].id];
      NodeOf(nodes, comments, cs[0]);
      WalkIsPreorder(nodes, region, comments, node.replies, Replies(comments, cs[0].id), depth - 1);
      WalkIsPreorder(nodes, region, comments, ns[1..], cs[1..], depth);
      SameStep(ns, region, comments, cs, depth);
    }
  }

  lemma SameStep(ns: seq<Node>, region: set<Node>, comments: seq<Comment>, cs: seq<Comment>, depth: nat)
    requires ns != [] && cs != [] && depth > 0 && ns[0] in region && ns[0].comment == cs[0]
    requires Walk(ns[0].replies, depth - 1, region) == Preorder(comments, Replies(comments, cs[0].id), depth - 1)
    requires Walk(ns[1..], depth, region) == Preorder(comments, cs[1..], depth)
    ensures Walk(ns, depth, region) == Preorder(comments, cs, depth)
  {
    PreorderStep(comments, cs, depth);
    assert Walk(ns, depth, region)
        == Written(ns[0].comment, Walk(ns[0].replies, depth - 1, region), Walk(ns[1..], depth, region));
  }

  lemma PreorderStep(comments: seq<Comment>, cs: seq<Comment>, depth: nat)
    requires cs != [] && depth > 0
    ensures Preorder(comments, cs, depth)
         == Written(cs[0], Preorder(comments, Replies(comments, cs[0].id), depth - 1),
                    Preorder(comments, cs[1..], depth))
  {
  }

  lemma NodeOf(nodes: map<string, Node>, comments: seq<Comment>, c: Comment)
    requires IsThread(nodes, comments) && c in comments
    ensures c.id in nodes && nodes[c.id].comment == c && nodes[c.id] in nodes.Values
    ensures Shows(nodes[c.id].replies, nodes, Replies(comments, c.id))
    ensures AllListed(comments, Replies(comments, c.id))
  {
    var k :| 0 <= k < |comments| && comments[k] == c;
    assert Linked(nodes, comments, |comments|, c.id);
    assert comments[..|comments|] == comments;
    RepliesAreListed(comments, c.id);
    AllListedMeans(comments, Replies(comments, c.id));
  }

  // ---- ancestry ----

  /** The parent of a comment that has one. */
  function Parent(comments: seq<Comment>, d: Comment): (p: Comment)
    requires HasParent(d, IdsOf(comments))
    ensures p in comments && IsReplyTo(d, p.id)
  {
    ParentExists(comments, d);
    if comments[|comments| - 1].id == d.parentId.value then comments[|comments| - 1]
    else Parent(comments[..|comments| - 1], d)
  }

  lemma ParentExists(comments: seq<Comment>, d: Comment)
    requires HasParent(d, IdsOf(comments))
    ensures comments != []
    ensures comments[|comments| - 1].id != d.parentId.value ==> HasParent(d, IdsOf(comments[..|comments| - 1]))
  {
    var i :| 0 <= i < |comments| && comments[i].id == d.parentId.value;
    if i < |comments| - 1 {
      assert comments[..|comments| - 1][i].id == d.parentId.value;
    }
  }

  /** `c` is `d` or one of its ancestors. */
  ghost predicate Above(comments: seq<Comment>, rank: map<string, nat>, c: Comment, d: Comment)
    requires Ranked(comments, rank) && d in comments
    decreases rank[d.id]
  {
    c == d || (HasParent(d, IdsOf(comments)) && Above(comments, rank, c, Parent(comments, d)))
  }

  lemma {:induction false} AboveRank(comments: seq<Comment>, rank: map<string, nat>, c: Comment, d: Comment)
    requires Ranked(comments, rank) && d in comments && Above(comments, rank, c, d)
    ensures c in comments && rank[c.id] <= rank[d.id]
    decreases rank[d.id]
  {
    if c != d {
      AboveRank(comments, rank, c, Parent(comments, d));
    }
  }

  /** How many of `cs` are `d` or above it. */
  ghost function CountAbove(comments: seq<Comment>, rank: map<string, nat>, cs: seq<Comment>, d: Comment): nat
    requires Ranked(comments, rank) && d in comments
  {
    if cs == [] then 0
    else (if Above(comments, rank, cs[0], d) then 1 else 0) + CountAbove(comments, rank, cs[1..], d)
  }

  /** Counting at `d` is counting `d` itself and counting at its parent. */
  lemma {:induction false} CountAtParent(comments: seq<Comment>, rank: map<string, nat>, cs: seq<Comment>, d: Comment)
    requires Ranked(comments, rank) && d in comments
    ensures CountAbove(comments, rank, cs, d)
         == multiset(cs)[d]
            + if HasParent(d, IdsOf(comments)) then CountAbove(comments, rank, cs, Parent(comments, d)) else 0
  {
    if cs != [] {
      CountAtParent(comments, rank, cs[1..], d);
      assert cs == [cs[0]] + cs[1..];
      if HasParent(d, IdsOf(comments)) && cs[0] == d && Above(comments, rank, d, Parent(comments, d)) {
        AboveRank(comments, rank, d, Parent(comments, d));
        assert false;
      }
    }
  }

  lemma {:induction false} MultiplicityOfListed(comments: seq<Comment>, d: Comment)
    requires DistinctIds(comments) && d in comments
    ensures multiset(comments)[d] == 1
  {
    var n := |comments| - 1;
    assert comments == comments[..n] + [comments[n]];
    if comments[n] == d {
      assert d !in comments[..n];
    } else {
      assert DistinctIds(comments[..n]);
      MultiplicityOfListed(comments[..n], d);
    }
  }

  lemma {:induction false} MultiplicityInReplies(comments: seq<Comment>, id: string, d: Comment)
    ensures multiset(Replies(comments, id))[d] == if IsReplyTo(d, id) then multiset(comments)[d] else 0
    decreases |comments|
  {
    if comments != [] {
      var n := |comments| - 1;
      assert comments == comments[..n] + [comments[n]];
      MultiplicityInReplies(comments[..n], id, d);
    }
  }

  lemma {:induction false} MultiplicityInRoots(comments: seq<Comment>, ids: set<string>, d: Comment)
    ensures multiset(Roots(comments, ids))[d] == if HasParent(d, ids) then 0 else multiset(comments)[d]
    decreases |comments|
  {
    if comments != [] {
      var n := |comments| - 1;
      assert comments == comments[..n] + [comments[n]];
      MultiplicityInRoots(comments[..n], ids, d);
    }
  }

  /** Exactly one reply to `c` leads to a comment strictly below it, and none to any other. */
  lemma {:induction false} OneReplyLeads(comments: seq<Comment>, rank: map<string, nat>, c: Comment, d: Comment)
    requires DistinctIds(comments) && Ranked(comments, rank) && c in comments && d in comments
    ensures CountAbove(comments, rank, Replies(comments, c.id), d)
         == if c != d && Above(comments, rank, c, d) then 1 else 0
    decreases rank[d.id]
  {
    CountAtParent(comments, rank, Replies(comments, c.id), d);
    MultiplicityInReplies(comments, c.id, d);
    MultiplicityOfListed(comments, d);
    if HasParent(d, IdsOf(comments)) {
      var p := Parent(comments, d);
      OneReplyLeads(comments, rank, c, p);
      assert IsReplyTo(d, c.id) <==> p == c by {
        SameIdSameComment(comments, p, c);
      }
      if c == d && Above(comments, rank, c, p) {
        AboveRank(comments, rank, c, p);
        assert false;
      }
    } else {
      ListedHasId(comments, c);
    }
  }

  lemma SameIdSameComment(comments: seq<Comment>, a: Comment, b: Comment)
    requires DistinctIds(comments) && a in comments && b in comments
    ensures a.id == b.id <==> a == b
  {
    var i :| 0 <= i < |comments| && comments[i] == a;
    var j :| 0 <= j < |comments| && comments[j] == b;
  }

  lemma ListedHasId(comments: seq<Comment>, c: Comment)
    requires c in comments
    ensures c.id in IdsOf(comments)
  {
    var i :| 0 <= i < |comments| && comments[i] == c;
  }

  /** Exactly one root leads to each comment. */
  lemma {:induction false} OneRootLeads(comments: seq<Comment>, rank: map<string, nat>, d: Comment)
    requires DistinctIds(comments) && Ranked(comments, rank) && d in comments
    ensures CountAbove(comments, rank, Roots(comments, IdsOf(comments)), d) == 1
    decreases rank[d.id]
  {
    CountAtParent(comments, rank, Roots(comments, IdsOf(comments)), d);
    MultiplicityInRoots(comments, IdsOf(comments), d);
    MultiplicityOfListed(comments, d);
    if HasParent(d, IdsOf(comments)) {
      OneRootLeads(comments, rank, Parent(comments, d));
    }
  }

  /** Deep enough to write out all of these comments and everything below them. */
  ghost predicate Reaches(comments: seq<Comment>, rank: map<string, nat>, cs: seq<Comment>, depth: nat, bound: nat) {
    cs == [] ||
    (cs[0] in comments && cs[0].id in rank && rank[cs[0].id] + depth > bound
     && Reaches(comments, rank, cs[1..], depth, bound))
  }

  lemma {:induction false} ReachesIf(comments: seq<Comment>, rank: map<string, nat>, cs: seq<Comment>, depth: nat,
                                     bound: nat)
    requires forall i :: 0 <= i < |cs| ==> cs[i] in comments && cs[i].id in rank && rank[cs[i].id] + depth > bound
    ensures Reaches(comments, rank, cs, depth, bound)
  {
    if cs != [] {
      ReachesIf(comments, rank, cs[1..], depth, bound);
    }
  }

  lemma ReachesReplies(comments: seq<Comment>, rank: map<string, nat>, c: Comment, depth: nat, bound: nat)
    requires Ranked(comments, rank) && c in comments && rank[c.id] + depth > bound && depth > 0
    ensures Reaches(comments, rank, Replies(comments, c.id), depth - 1, bound)
  {
    var replies := Replies(comments, c.id);
    RepliesAreListed(comments, c.id);
    forall i | 0 <= i < |replies|
      ensures replies[i] in comments && replies[i].id in rank && rank[replies[i].id] + (depth - 1) > bound
    {
      ReplyRanksHigher(comments, rank, c, replies[i]);
    }
    ReachesIf(comments, rank, replies, depth - 1, bound);
  }

  lemma CountThree(c: Comment, a: seq<Comment>, b: seq<Comment>, d: Comment)
    ensures multiset(Written(c, a, b))[d] == (if c == d then 1 else 0) + multiset(a)[d] + multiset(b)[d]
  {
  }

  /** Written out, a comment occurs once for every node it is below. */
  lemma {:induction false} PreorderCounts(comments: seq<Comment>, rank: map<string, nat>, cs: seq<Comment>,
                                          depth: nat, d: Comment, bound: nat)
    requires DistinctIds(comments) && Ranked(comments, rank) && d in comments
    requires Reaches(comments, rank, cs, depth, bound) && forall c :: c in comments ==> rank[c.id] <= bound
    ensures multiset(Preorder(comments, cs, depth))[d] == CountAbove(comments, rank, cs, d)
    decreases depth, |cs|
  {
    if cs != [] {
      var c, rest := cs[0], cs[1..];
      var replies := Replies(comments, c.id);
      assert depth > 0;
      ReachesReplies(comments, rank, c, depth, bound);
      PreorderCounts(comments, rank, replies, depth - 1, d, bound);
      PreorderCounts(comments, rank, rest, depth, d, bound);
      CountStep(comments, rank, cs, d, Preorder(comments, replies, depth - 1), Preorder(comments, rest, depth));
      PreorderStep(comments, cs, depth);
    } else {
      assert Preorder(comments, cs, depth) == [];
    }
  }

  lemma CountStep(comments: seq<Comment>, rank: map<string, nat>, cs: seq<Comment>, d: Comment,
                  below: seq<Comment>, after: seq<Comment>)
    requires DistinctIds(comments) && Ranked(comments, rank) && d in comments && cs != [] && cs[0] in comments
    requires multiset(below)[d] == CountAbove(comments, rank, Replies(comments, cs[0].id), d)
    requires multiset(after)[d] == CountAbove(comments, rank, cs[1..], d)
    ensures multiset(Written(cs[0], below, after))[d] == CountAbove(comments, rank, cs, d)
  {
    OneReplyLeads(comments, rank, cs[0], d);
    CountThree(cs[0], below, after, d);
    assert cs[0] == d ==> Above(comments, rank, cs[0], d);
  }

  lemma ReplyRanksHigher(comments: seq<Comment>, rank: map<string, nat>, c: Comment, r: Comment)
    requires Ranked(comments, rank) && c in comments && r in comments && IsReplyTo(r, c.id)
    ensures c.id in rank && r.id in rank && rank[c.id] < rank[r.id]
  {
    var i :| 0 <= i < |comments| && comments[i] == c;
    var j :| 0 <= j < |comments| && comments[j] == r;
  }

  lemma {:induction false} PreorderIsListed(comments: seq<Comment>, cs: seq<Comment>, depth: nat)
    requires forall i :: 0 <= i < |cs| ==> cs[i] in comments
    ensures forall c :: c in Preorder(comments, cs, depth) ==> c in comments
    decreases depth, |cs|
  {
    if cs != [] && depth > 0 {
      RepliesAreListed(comments, cs[0].id);
      PreorderIsListed(comments, Replies(comments, cs[0].id), depth - 1);
      PreorderIsListed(comments, cs[1..], depth);
    }
  }

  /** Nothing is lost and nothing is duplicated: written out from its roots, to any depth
      that exceeds every rank, the forest holds each comment of the list exactly once. */
  lemma ForestHoldsEachCommentOnce(comments: seq<Comment>, rank: map<string, nat>, bound: nat, depth: nat)
    requires DistinctIds(comments) && Ranked(comments, rank)
    requires (forall c :: c in comments ==> rank[c.id] <= bound) && depth > bound
    ensures multiset(Preorder(comments, Roots(comments, IdsOf(comments)), depth)) == multiset(comments)
  {
    var roots := Roots(comments, IdsOf(comments));
    RootsAreListed(comments, IdsOf(comments));
    ReachesIf(comments, rank, roots, depth, bound);
    var written := Preorder(comments, roots, depth);
    PreorderIsListed(comments, roots, depth);
    forall d ensures multiset(written)[d] == multiset(comments)[d] {
      if d in comments {
        PreorderCounts(comments, rank, roots, depth, d, bound);
        OneRootLeads(comments, rank, d);
        MultiplicityOfListed(comments, d);
      } else {
        assert d !in multiset(written) && d !in multiset(comments);
      }
    }
  }

  // ---- only ranked lists are whole ----

  /** A written comment is one of those written out, or a reply to one written a level above. */
  lemma {:induction false} WrittenBelow(comments: seq<Comment>, cs: seq<Comment>, depth: nat, c: Comment)
    returns (parent: Comment)
    requires c in Preorder(comments, cs, depth)
    ensures depth > 0 && (c in cs || (parent in Preorder(comments, cs, depth - 1) && c in Replies(comments, parent.id)))
    decreases depth, |cs|
  {
    var first, replies := cs[0], Replies(comments, cs[0].id);
    PreorderStep(comments, cs, depth);
    if depth > 1 {
      PreorderStep(comments, cs, depth - 1);
    }
    if c == first {
      parent := first;
    } else if c in Preorder(comments, replies, depth - 1) {
      parent := WrittenBelow(comments, replies, depth - 1, c);
      if c in replies {
        parent := first;
      }
    } else {
      parent := WrittenBelow(comments, cs[1..], depth, c);
    }
  }

  lemma {:induction false} WrittenDeeper(comments: seq<Comment>, cs: seq<Comment>, depth: nat, deeper: nat, c: Comment)
    requires c in Preorder(comments, cs, depth) && depth <= deeper
    ensures c in Preorder(comments, cs, deeper)
    decreases depth, |cs|
  {
    if c in Preorder(comments, Replies(comments, cs[0].id), depth - 1) {
      WrittenDeeper(comments, Replies(comments, cs[0].id), depth - 1, deeper - 1, c);
    } else if c != cs[0] {
      WrittenDeeper(comments, cs[1..], depth, deeper, c);
    }
  }

  /** The least depth, if `depth` is enough, at which a comment is written. */
  function Level(comments: seq<Comment>, cs: seq<Comment>, depth: nat, c: Comment): nat {
    if depth == 0 || c !in Preorder(comments, cs, depth - 1) then depth else Level(comments, cs, depth - 1, c)
  }

  lemma {:induction false} LevelMeans(comments: seq<Comment>, cs: seq<Comment>, depth: nat, c: Comment)
    requires c in Preorder(comments, cs, depth)
    ensures c in Preorder(comments, cs, Level(comments, cs, depth, c))
    ensures forall d: nat :: c in Preorder(comments, cs, d) ==> Level(comments, cs, depth, c) <= d
  {
    if depth > 0 && c in Preorder(comments, cs, depth - 1) {
      LevelMeans(comments, cs, depth - 1, c);
    } else {
      forall d: nat | c in Preorder(comments, cs, d) ensures depth <= d {
        if d < depth {
          WrittenDeeper(comments, cs, d, depth - 1, c);
        }
      }
    }
  }

  /** Where a reply is written, the comment it names is written a level above. */
  lemma ParentIsAbove(comments: seq<Comment>, roots: seq<Comment>, depth: nat, c: Comment, p: Comment)
    requires DistinctIds(comments) && p in comments && IsReplyTo(c, p.id)
    requires c !in roots && AllListed(comments, roots) && c in Preorder(comments, roots, depth)
    ensures depth > 0 && p in Preorder(comments, roots, depth - 1)
  {
    var parent := WrittenUnder(comments, roots, depth, c);
    WrittenIsListed(comments, roots, depth - 1, parent);
    OneParent(comments, c, parent, p);
  }

  lemma WrittenUnder(comments: seq<Comment>, roots: seq<Comment>, depth: nat, c: Comment) returns (parent: Comment)
    requires c in Preorder(comments, roots, depth) && c !in roots
    ensures depth > 0 && parent in Preorder(comments, roots, depth - 1) && c in Replies(comments, parent.id)
  {
    parent := WrittenBelow(comments, roots, depth, c);
  }

  lemma OneParent(comments: seq<Comment>, c: Comment, parent: Comment, p: Comment)
    requires DistinctIds(comments) && parent in comments && p in comments
    requires c in Replies(comments, parent.id) && IsReplyTo(c, p.id)
    ensures parent == p
  {
    RepliesAreListed(comments, parent.id);
    SameIdSameComment(comments, parent, p);
  }

  /** A comment whose parent is listed is no root. */
  lemma ParentIsListed(comments: seq<Comment>, roots: seq<Comment>, c: Comment, p: Comment)
    requires p in comments && IsReplyTo(c, p.id) && roots == Roots(comments, IdsOf(comments))
    ensures c !in roots
  {
    ListedHasId(comments, p);
    RootsAreListed(comments, IdsOf(comments));
  }

  lemma {:induction false} ListedOne(comments: seq<Comment>, cs: seq<Comment>, c: Comment)
    requires AllListed(comments, cs) && c in cs
    ensures c in comments
  {
    if c != cs[0] {
      ListedOne(comments, cs[1..], c);
    }
  }

  lemma WrittenIsListed(comments: seq<Comment>, roots: seq<Comment>, depth: nat, c: Comment)
    requires AllListed(comments, roots) && c in Preorder(comments, roots, depth)
    ensures c in comments
  {
    forall i | 0 <= i < |roots| ensures roots[i] in comments {
      ListedOne(comments, roots, roots[i]);
    }
    PreorderIsListed(comments, roots, depth);
  }

  /** So a reply is first written deeper. */
  lemma ReplyIsDeeper(comments: seq<Comment>, roots: seq<Comment>, depth: nat, c: Comment, p: Comment)
    requires DistinctIds(comments) && p in comments && IsReplyTo(c, p.id)
    requires roots == Roots(comments, IdsOf(comments))
    requires c in Preorder(comments, roots, depth) && p in Preorder(comments, roots, depth)
    ensures Level(comments, roots, depth, p) < Level(comments, roots, depth, c)
  {
    LevelMeans(comments, roots, depth, c);
    LevelMeans(comments, roots, depth, p);
    ParentIsListed(comments, roots, c, p);
    RootsAreListed(comments, IdsOf(comments));
    AllListedMeans(comments, roots);
    ParentIsAbove(comments, roots, Level(comments, roots, depth, c), c, p);
  }

  /** A list that is written out whole at some depth can be ranked. */
  lemma WholeIsRanked(comments: seq<Comment>, depth: nat) returns (rank: map<string, nat>)
    requires DistinctIds(comments)
    requires forall c :: c in comments ==> c in Preorder(comments, Roots(comments, IdsOf(comments)), depth)
    ensures Ranked(comments, rank)
  {
    var roots := Roots(comments, IdsOf(comments));
    rank := map id | id in IdsOf(comments) :: Level(comments, roots, depth, WithId(comments, id));
    forall c | c in comments ensures c.id in rank && rank[c.id] == Level(comments, roots, depth, c) {
      ListedHasId(comments, c);
      SameIdSameComment(comments, c, WithId(comments, c.id));
    }
    forall c, p | c in comments && p in comments && IsReplyTo(c, p.id) ensures rank[p.id] < rank[c.id] {
      ReplyIsDeeper(comments, roots, depth, c, p);
    }
  }

  function WithId(comments: seq<Comment>, id: string): (c: Comment)
    requires id in IdsOf(comments)
    ensures c in comments && c.id == id
  {
    comments[Position(comments, id)]
  }

  ghost predicate WholeAt(comments: seq<Comment>, depth: nat) {
    multiset(Preorder(comments, Roots(comments, IdsOf(comments)), depth)) == multiset(comments)
  }

  lemma {:induction false} RankIsBounded(comments: seq<Comment>, rank: map<string, nat>) returns (bound: nat)
    requires forall c :: c in comments ==> c.id in rank
    ensures forall c :: c in comments ==> rank[c.id] <= bound
  {
    if comments == [] {
      bound := 0;
    } else {
      bound := RankIsBounded(comments[1..], rank);
      bound := bound + rank[comments[0].id];
      assert forall c :: c in comments <==> c == comments[0] || c in comments[1..];
    }
  }

  lemma RanksAreDefined(comments: seq<Comment>, rank: map<string, nat>)
    requires Ranked(comments, rank)
    ensures forall c :: c in comments ==> c.id in rank
  {
  }

  lemma WholeGivesRank(comments: seq<Comment>, depth: nat)
    requires DistinctIds(comments) && WholeAt(comments, depth)
    ensures exists rank :: Ranked(comments, rank)
  {
    var written := Preorder(comments, Roots(comments, IdsOf(comments)), depth);
    forall c | c in comments ensures c in written {
      assert c in multiset(comments);
    }
    var rank := WholeIsRanked(comments, depth);
  }

  lemma RankGivesWhole(comments: seq<Comment>, rank: map<string, nat>)
    requires DistinctIds(comments) && Ranked(comments, rank)
    ensures exists depth: nat :: WholeAt(comments, depth)
  {
    RanksAreDefined(comments, rank);
    var bound := RankIsBounded(comments, rank);
    WholeBeyond(comments, rank, bound, bound + 1);
  }

  lemma WholeBeyond(comments: seq<Comment>, rank: map<string, nat>, bound: nat, depth: nat)
    requires DistinctIds(comments) && Ranked(comments, rank)
    requires (forall c :: c in comments ==> rank[c.id] <= bound) && depth > bound
    ensures WholeAt(comments, depth)
  {
    ForestHoldsEachCommentOnce(comments, rank, bound, depth);
  }

  /** Exactly the acyclic lists make whole forests: at some depth everything is written
      out once, if and only if parents can be ranked below their replies. */
  lemma WholeExactlyWhenRanked(comments: seq<Comment>)
    requires DistinctIds(comments)
    ensures (exists depth: nat :: WholeAt(comments, depth)) <==> exists rank :: Ranked(comments, rank)
  {
    if depth: nat :| WholeAt(comments, depth) {
      WholeGivesRank(comments, depth);
    }
    if rank :| Ranked(comments, rank) {
      RankGivesWhole(comments, rank);
    }
  }

  // ---- the rule for posting ----

  datatype PostResult = Posted(comment: Comment) | Rejected

  /** `POST /:id/comments` after authorisation: a parent must exist and belong to the same
      loan; an empty parent means none. `newId` is the identifier the database hands out. */
  function PostComment(store: seq<Comment>, loanId: string, authorAddress: string, content: string,
                       parentId: Option<string>, newId: string): PostResult
  {
    if authorAddress == "" || Text.Trim(content) == "" || |content| > 5000 then Rejected
    else if parentId.Some? && parentId.value != "" && !ParentFound(store, loanId, parentId.value) then Rejected
    else
      var parent := if parentId.Some? && parentId.value != "" then parentId else None;
      Posted(Comment(newId, loanId, authorAddress, Text.Trim(content), parent))
  }

  predicate ParentFound(store: seq<Comment>, loanId: string, id: string) {
    exists i :: 0 <= i < |store| && store[i].id == id && store[i].loanId == loanId
  }

  /** A post is refused exactly if the author is missing, the text is blank or over 5000
      characters long, or a parent is named that is no comment of the same loan. */
  lemma PostIsRejectedExactlyWhen(store: seq<Comment>, loanId: string, authorAddress: string, content: string,
                                  parentId: Option<string>, newId: string)
    ensures PostComment(store, loanId, authorAddress, content, parentId, newId) == Rejected <==>
            || authorAddress == "" || Text.AllSpace(content) || |content| > 5000
            || (parentId != None && parentId != Some("")
                && forall i :: 0 <= i < |store| ==> store[i].id != parentId.value || store[i].loanId != loanId)
  {
    if Text.AllSpace(content) {
      Text.TrimPadded(content, "", "");
      assert content + "" + "" == content;
    } else if Text.Trim(content) == "" {
      var before, after := Text.TrimSplits(content);
    }
  }

  /** An accepted comment keeps its loan, author and parent, an empty parent being none, and
      its text without the white space around it. */
  lemma PostedCommentKeeps(store: seq<Comment>, loanId: string, authorAddress: string, content: string,
                           parentId: Option<string>, newId: string)
    requires PostComment(store, loanId, authorAddress, content, parentId, newId).Posted?
    ensures var c := PostComment(store, loanId, authorAddress, content, parentId, newId).comment;
            && c.id == newId && c.loanId == loanId && c.authorAddress == authorAddress
            && c.parentId == (if parentId == Some("") then None else parentId)
            && c.content != "" && !Text.IsSpace(c.content[0]) && !Text.IsSpace(c.content[|c.content| - 1])
            && exists before, after ::
                 Text.AllSpace(before) && Text.AllSpace(after) && content == before + c.content + after
  {
    var before, after := Text.TrimSplits(content);
  }

  /** Everything ever posted, in the order of creation; identifiers are new and not empty. */
  ghost predicate Reachable(store: seq<Comment>) {
    store == [] ||
    var n := |store| - 1;
    && Reachable(store[..n])
    && store[n].id != "" && (forall i :: 0 <= i < n ==> store[i].id != store[n].id)
    && exists author, content, parentId ::
         PostComment(store[..n], store[n].loanId, author, content, parentId, store[n].id) == Posted(store[n])
  }

  lemma {:induction false} IdsAreDistinct(store: seq<Comment>)
    requires Reachable(store)
    ensures DistinctIds(store)
    decreases |store|
  {
    if store != [] {
      var n := |store| - 1;
      IdsAreDistinct(store[..n]);
      assert forall i :: 0 <= i < n ==> store[..n][i] == store[i];
    }
  }

  lemma LastFollowsTheRule(store: seq<Comment>)
    requires Reachable(store) && store != []
    ensures var n := |store| - 1; var p := store[n].parentId;
            store[n].id != "" && p != Some("") && (p.Some? ==> ParentFound(store[..n], store[n].loanId, p.value))
  {
    var n := |store| - 1;
    var author, content, parentId :|
      PostComment(store[..n], store[n].loanId, author, content, parentId, store[n].id) == Posted(store[n]);
  }

  /** In every reachable store identifiers are distinct, and a comment's parent was
      posted before it, for the same loan. */
  lemma {:induction false} ParentsComeFirst(store: seq<Comment>, i: nat)
    requires Reachable(store) && i < |store|
    ensures DistinctIds(store) && store[i].id != "" && store[i].parentId != Some("")
    ensures store[i].parentId.Some? ==> ParentFound(store[..i], store[i].loanId, store[i].parentId.value)
    decreases |store|
  {
    var n := |store| - 1;
    IdsAreDistinct(store);
    if i == n {
      LastFollowsTheRule(store);
    } else {
      ParentsComeFirst(store[..n], i);
      assert store[..n][..i] == store[..i] && store[..n][i] == store[i];
    }
  }

  /** The list a loan's page shows: its comments in any order, such as by creation
      time with ties broken arbitrarily. */
  ghost predicate IsListingOf(comments: seq<Comment>, store: seq<Comment>, loanId: string) {
    && DistinctIds(comments)
    && forall c :: c in comments <==> c in store && c.loanId == loanId
  }

  /** The order of creation ranks every listing. */
  lemma ListingIsRanked(comments: seq<Comment>, store: seq<Comment>, loanId: string) returns (rank: map<string, nat>)
    requires Reachable(store) && IsListingOf(comments, store, loanId)
    ensures Ranked(comments, rank) && forall c :: c in comments ==> rank[c.id] < |store|
  {
    rank := map id | id in IdsOf(store) :: Position(store, id);
    forall c | c in comments ensures c.id in rank && rank[c.id] < |store| {
      ListedHasId(store, c);
    }
    forall c, p | c in comments && p in comments && IsReplyTo(c, p.id) ensures rank[p.id] < rank[c.id] {
      ParentIsEarlier(store, c, p.id);
    }
  }

  lemma ParentIsEarlier(store: seq<Comment>, c: Comment, parent: string)
    requires Reachable(store) && c in store && IsReplyTo(c, parent)
    ensures parent in IdsOf(store) && c.id in IdsOf(store) && Position(store, parent) < Position(store, c.id)
  {
    var i :| 0 <= i < |store| && store[i] == c;
    ParentsComeFirst(store, i);
    var j :| 0 <= j < i && store[..i][j].id == parent;
    PositionIs(store, i);
    PositionIs(store, j);
  }

  lemma PositionIs(store: seq<Comment>, i: nat)
    requires DistinctIds(store) && i < |store|
    ensures store[i].id in IdsOf(store) && Position(store, store[i].id) == i
  {
  }

  function Position(store: seq<Comment>, id: string): (i: nat)
    requires id in IdsOf(store)
    ensures i < |store| && store[i].id == id
  {
    if store[0].id == id then 0
    else
      assert id in IdsOf(store[1..]) by {
        var j :| 0 <= j < |store| && store[j].id == id;
        assert store[1..][j - 1].id == id;
      }
      1 + Position(store[1..], id)
  }

  /** On any listing of a loan whose comments were all posted under the rule, a comment is
      a root exactly when it has no parent, and the forest holds every comment of the
      listing exactly once, `total` of them. */
  lemma PostedThreadsAreWhole(comments: seq<Comment>, store: seq<Comment>, loanId: string)
    requires Reachable(store) && IsListingOf(comments, store, loanId)
    ensures forall c :: c in comments ==> (HasParent(c, IdsOf(comments)) <==> c.parentId.Some?)
    ensures multiset(Preorder(comments, Roots(comments, IdsOf(comments)), |store|)) == multiset(comments)
    ensures |Preorder(comments, Roots(comments, IdsOf(comments)), |store|)| == |comments|
  {
    var rank := ListingIsRanked(comments, store, loanId);
    forall c | c in comments ensures HasParent(c, IdsOf(comments)) <==> c.parentId.Some? {
      if c.parentId.Some? {
        var i :| 0 <= i < |store| && store[i] == c;
        ParentsComeFirst(store, i);
        var j :| 0 <= j < i && store[..i][j].id == c.parentId.value && store[..i][j].loanId == c.loanId;
        assert store[j] in comments;
        ListedHasId(comments, store[j]);
      }
    }
    assert comments != [] ==> comments[0] in comments && comments[0] in store;
    if store != [] {
      ForestHoldsEachCommentOnce(comments, rank, |store| - 1, |store|);
    }
    var written := Preorder(comments, Roots(comments, IdsOf(comments)), |store|);
    assert |written| == |multiset(written)| == |multiset(comments)|;
  }

  /** The nodes built for a listing, written out from the roots, are the listing. */
  lemma BuiltForestIsWhole(nodes: map<string, Node>, roots: seq<Node>, comments: seq<Comment>, store: seq<Comment>,
                           loanId: string)
    requires Reachable(store) && IsListingOf(comments, store, loanId)
    requires IsThread(nodes, comments) && Shows(roots, nodes, Roots(comments, IdsOf(comments)))
    ensures multiset(Walk(roots, |store|, nodes.Values)) == multiset(comments)
  {
    RootsAreListed(comments, IdsOf(comments));
    AllListedMeans(comments, Roots(comments, IdsOf(comments)));
    WalkIsPreorder(nodes, nodes.Values, comments, roots, Roots(comments, IdsOf(comments)), |store|);
    PostedThreadsAreWhole(comments, store, loanId);
  }

  /** The rule is needed: two comments that name each other are in no thread. */
  lemma MutualParentsAreLost(a: Comment, b: Comment, depth: nat)
    requires a.id != b.id && IsReplyTo(a, b.id) && IsReplyTo(b, a.id)
    ensures DistinctIds([a, b]) && Preorder([a, b], Roots([a, b], IdsOf([a, b])), depth) == []
  {
    var comments := [a, b];
    assert comments[0].id in IdsOf(comments) && comments[1].id in IdsOf(comments);
    assert comments[..1] == [a] && comments[..1][..0] == [];
    assert Roots(comments[..1], IdsOf(comments)) == [];
  }
}
