/** The dependency forest of a block: nearest conflicts, the graph that is built from them, and its roots. */
module Forest {
  import opened Refs
  import opened Wrappers

  type Block = seq<TransactionRefs>

  /** The greatest k below j that transaction i depends on. */
  function NearestBelow(block: Block, i: nat, j: nat): (r: Option<nat>)
    requires j <= i < |block|
    ensures r.Some? ==> r.value < j && DependsOn(block[i], block[r.value])
    ensures forall k :: (if r.Some? then r.value + 1 else 0) <= k < j ==> !DependsOn(block[i], block[k])
  {
    if j == 0 then None
    else if DependsOn(block[i], block[j - 1]) then Some(j - 1)
    else NearestBelow(block, i, j - 1)
  }

  function Parent(block: Block, i: nat): Option<nat>
    requires i < |block|
  {
    NearestBelow(block, i, i)
  }

  /** For every transaction the earlier one it is linked to, if any. */
  type Links = links: seq<Option<nat>> | forall i :: 0 <= i < |links| && links[i].Some? ==> links[i].value < i

  function LinksOf(block: Block): (links: Links)
    ensures |links| == |block|
    ensures forall i :: 0 <= i < |block| ==> links[i] == Parent(block, i)
  {
    seq(|block|, i requires 0 <= i < |block| => Parent(block, i))
  }

  /** Edges in the order in which they are added. */
  datatype Graph = Graph(nodes: nat, edges: seq<(nat, nat)>)

  function ParentEdge(links: Links, i: nat): seq<(nat, nat)>
    requires i < |links|
  {
    match links[i]
    case None => []
    case Some(p) => [(p, i)]
  }

  function EdgesFrom(links: Links, k: nat): seq<(nat, nat)>
    requires k <= |links|
    decreases |links| - k
  {
    if k == |links| then [] else EdgesFrom(links, k + 1) + ParentEdge(links, k)
  }

  function GraphOf(links: Links): Graph {
    Graph(|links|, EdgesFrom(links, 0))
  }

  /** Takes transactions from the back of the queue and links each to the last one before it that it depends on. */
  method BuildGraph(block: Block) returns (g: Graph)
    ensures g == GraphOf(LinksOf(block))
  {
    hide LinksOf, DependsOn;
    ghost var links := LinksOf(block);
    var edges: seq<(nat, nat)> := [];
    var queue := |block|;
    while queue > 0
      invariant 0 <= queue <= |block| && edges == EdgesFrom(links, queue)
    {
      queue := queue - 1;
      var j := queue;
      while j > 0
        invariant 0 <= j <= queue
        invariant edges == EdgesFrom(links, queue + 1)
        invariant links[queue] == NearestBelow(block, queue, j)
      {
        j := j - 1;
        if DependsOn(block[queue], block[j]) {
          edges := edges + [(j, queue)];
          break;
        }
      }
    }
    g := Graph(|block|, edges);
  }

  /** Neighbours in the order in which the graph lists them: the edge added last comes first. */
  function Successors(edges: seq<(nat, nat)>, u: nat): seq<nat> {
    if edges == [] then []
    else
      var last := edges[|edges| - 1];
      (if last.0 == u then [last.1] else []) + Successors(edges[..|edges| - 1], u)
  }

  /** The source of the last incoming edge that the graph lists, which is the first that was added. */
  function LastIncoming(edges: seq<(nat, nat)>, v: nat): Option<nat> {
    if edges == [] then None
    else
      var rest := LastIncoming(edges[..|edges| - 1], v);
      if rest.Some? then rest
      else if edges[|edges| - 1].1 == v then Some(edges[|edges| - 1].0)
      else None
  }

  function Children(links: Links, u: nat): seq<nat> {
    Successors(EdgesFrom(links, 0), u)
  }

  lemma SuccessorsStep(links: Links, k: nat, u: nat)
    requires k < |links|
    ensures Successors(EdgesFrom(links, k), u) ==
            (if links[k] == Some(u) then [k] else []) + Successors(EdgesFrom(links, k + 1), u)
  {
    var edges := EdgesFrom(links, k);
    if links[k].Some? {
      assert edges[..|edges| - 1] == EdgesFrom(links, k + 1);
    } else {
      assert edges == EdgesFrom(links, k + 1);
    }
  }

  lemma SuccessorsEnd(links: Links, u: nat)
    ensures Successors(EdgesFrom(links, |links|), u) == []
  {
  }

  lemma {:induction false} SuccessorsMember(links: Links, k: nat, u: nat, v: nat)
    requires k <= |links|
    ensures v in Successors(EdgesFrom(links, k), u) <==> k <= v < |links| && links[v] == Some(u)
    decreases |links| - k
  {
    hide Successors, EdgesFrom;
    if k == |links| {
      SuccessorsEnd(links, u);
    } else {
      SuccessorsMember(links, k + 1, u, v);
      SuccessorsStep(links, k, u);
      var own: seq<nat> := if links[k] == Some(u) then [k] else [];
      var rest := Successors(EdgesFrom(links, k + 1), u);
      assert v in own + rest <==> v in own || v in rest;
    }
  }

  predicate Ascending(vs: seq<nat>) {
    forall x, y :: 0 <= x < y < |vs| ==> vs[x] < vs[y]
  }

  lemma {:induction false} SuccessorsAscend(links: Links, k: nat, u: nat, x: nat, y: nat)
    requires k <= |links| && x < y < |Successors(EdgesFrom(links, k), u)|
    ensures Successors(EdgesFrom(links, k), u)[x] < Successors(EdgesFrom(links, k), u)[y]
    decreases |links| - k
  {
    hide Successors, EdgesFrom;
    if k == |links| {
      SuccessorsEnd(links, u);
    } else {
      SuccessorsStep(links, k, u);
      var rest := Successors(EdgesFrom(links, k + 1), u);
      if links[k] != Some(u) {
        SuccessorsAscend(links, k + 1, u, x, y);
      } else if x > 0 {
        SuccessorsAscend(links, k + 1, u, x - 1, y - 1);
      } else {
        SuccessorsMember(links, k + 1, u, rest[y - 1]);
      }
    }
  }

  /** The children of u are, in ascending order, the transactions whose nearest conflict u is. */
  lemma ChildrenAre(links: Links, u: nat)
    ensures forall v: nat :: v in Children(links, u) <==> v < |links| && links[v] == Some(u)
    ensures Ascending(Children(links, u))
  {
    forall v: nat ensures v in Children(links, u) <==> v < |links| && links[v] == Some(u) {
      SuccessorsMember(links, 0, u, v);
    }
    forall x, y | 0 <= x < y < |Children(links, u)| ensures Children(links, u)[x] < Children(links, u)[y] {
      SuccessorsAscend(links, 0, u, x, y);
    }
  }

  lemma {:induction false} LastIncomingIs(links: Links, k: nat, v: nat)
    requires k <= |links|
    ensures LastIncoming(EdgesFrom(links, k), v) == if k <= v < |links| then links[v] else None
    decreases |links| - k
  {
    if k < |links| {
      LastIncomingIs(links, k + 1, v);
      var edges := EdgesFrom(links, k);
      if links[k].Some? {
        assert edges[..|edges| - 1] == EdgesFrom(links, k + 1);
      } else {
        assert edges == EdgesFrom(links, k + 1);
      }
    }
  }

  lemma {:induction false} EdgesAre(links: Links, k: nat)
    requires k <= |links|
    ensures forall e :: e in EdgesFrom(links, k) ==> e.0 < e.1 < |links| && links[e.1] == Some(e.0)
    ensures forall v :: k <= v < |links| && links[v].Some? ==> (links[v].value, v) in EdgesFrom(links, k)
    decreases |links| - k
  {
    if k < |links| {
      EdgesAre(links, k + 1);
    }
  }

  // ---- Roots and depths ----

  function Root(links: Links, v: nat): (r: nat)
    requires v < |links|
    ensures r <= v && links[r] == None
  {
    match links[v]
    case None => v
    case Some(p) => Root(links, p)
  }

  function Depth(links: Links, v: nat): nat
    requires v < |links|
  {
    match links[v]
    case None => 0
    case Some(p) => Depth(links, p) + 1
  }

  /** a lies strictly above v. */
  predicate IsAncestor(links: Links, a: nat, v: nat)
    requires v < |links|
  {
    match links[v]
    case None => false
    case Some(p) => a == p || IsAncestor(links, a, p)
  }

  lemma {:induction false} AncestorFacts(links: Links, a: nat, v: nat)
    requires v < |links| && IsAncestor(links, a, v)
    ensures a < v && Root(links, a) == Root(links, v) && Depth(links, a) < Depth(links, v)
  {
    var p := links[v].value;
    if a != p {
      AncestorFacts(links, a, p);
    }
  }

  predicate IsPathUp(links: Links, path: seq<nat>) {
    forall i :: 0 <= i < |path| - 1 ==> path[i] < |links| && links[path[i]] == Some(path[i + 1])
  }

  /** a lies above v exactly if following the links from v leads to a. */
  lemma {:induction false} AncestorIsReached(links: Links, a: nat, v: nat)
    requires v < |links|
    ensures IsAncestor(links, a, v) <==>
            exists path :: |path| > 1 && path[0] == v && path[|path| - 1] == a && IsPathUp(links, path)
  {
    if links[v].Some? {
      AncestorIsReached(links, a, links[v].value);
    }
    if IsAncestor(links, a, v) {
      var p := links[v].value;
      if a == p {
        assert IsPathUp(links, [v, a]);
      } else {
        var rest :| |rest| > 1 && rest[0] == p && rest[|rest| - 1] == a && IsPathUp(links, rest);
        var path := [v] + rest;
        assert forall i :: 1 <= i < |path| - 1 ==> path[i] == rest[i - 1] && path[i + 1] == rest[i];
        assert IsPathUp(links, path);
      }
    }
    if path :| |path| > 1 && path[0] == v && path[|path| - 1] == a && IsPathUp(links, path) {
      assert path[0] < |links| && links[path[0]] == Some(path[1]);
      if |path| > 2 {
        var rest := path[1..];
        assert forall i :: 0 <= i < |rest| ==> rest[i] == path[i + 1];
        assert IsPathUp(links, rest);
      }
    }
  }

  /** Of two ancestors of one transaction, the deeper is the later. */
  lemma {:induction false} AncestorsAreAChain(links: Links, a: nat, b: nat, v: nat)
    requires v < |links| && IsAncestor(links, a, v) && IsAncestor(links, b, v)
    ensures a < v && b < v
    ensures a < b <==> Depth(links, a) < Depth(links, b)
    ensures a == b || IsAncestor(links, a, b) || IsAncestor(links, b, a)
  {
    AncestorFacts(links, a, v);
    AncestorFacts(links, b, v);
    var p := links[v].value;
    if a == p && b != p {
      AncestorFacts(links, b, p);
    } else if b == p && a != p {
      AncestorFacts(links, a, p);
    } else if a != p {
      AncestorsAreAChain(links, a, b, p);
    }
  }

  // ---- Finding the roots ----

  function Relabel(labels: seq<nat>, a: nat, b: nat, keep: nat): (r: seq<nat>)
    ensures |r| == |labels|
    ensures forall x :: 0 <= x < |labels| ==> r[x] == if labels[x] == a || labels[x] == b then keep else labels[x]
  {
    seq(|labels|, x requires 0 <= x < |labels| => if labels[x] == a || labels[x] == b then keep else labels[x])
  }

  /** Every label is a node of the same tree. */
  ghost predicate LabelsStayInTree(links: Links, labels: seq<nat>) {
    && |labels| == |links|
    && forall x :: 0 <= x < |links| ==> labels[x] < |links| && Root(links, labels[x]) == Root(links, x)
  }

  /** The first e edges join nodes with equal labels. */
  ghost predicate Joined(edges: seq<(nat, nat)>, labels: seq<nat>, e: nat)
    requires e <= |edges|
  {
    forall f :: 0 <= f < e ==>
        edges[f].0 < |labels| && edges[f].1 < |labels| && labels[edges[f].0] == labels[edges[f].1]
  }

  lemma RelabelJoins(edges: seq<(nat, nat)>, labels: seq<nat>, e: nat, keep: nat)
    requires e < |edges| && Joined(edges, labels, e) && edges[e].0 < |labels| && edges[e].1 < |labels|
    ensures Joined(edges, Relabel(labels, labels[edges[e].0], labels[edges[e].1], keep), e + 1)
  {
  }

  lemma RelabelStaysInTree(links: Links, labels: seq<nat>, a: nat, b: nat, keep: nat)
    requires LabelsStayInTree(links, labels) && a < |links| && b < |links| && Root(links, a) == Root(links, b)
    requires keep == labels[a] || keep == labels[b]
    ensures LabelsStayInTree(links, Relabel(labels, labels[a], labels[b], keep))
  {
    assert Root(links, labels[a]) == Root(links, labels[b]) == Root(links, keep);
  }

  /** Union-find over the edges, whichever representative it keeps: two nodes share a label iff they share a root. */
  method Components(g: Graph, ghost links: Links) returns (labels: seq<nat>)
    requires g == GraphOf(links)
    ensures LabelsStayInTree(links, labels)
    ensures forall x, y :: 0 <= x < |links| && 0 <= y < |links| ==>
        (labels[x] == labels[y] <==> Root(links, x) == Root(links, y))
  {
    EdgesAre(links, 0);
    labels := seq(g.nodes, x => x);
    for e := 0 to |g.edges|
      invariant LabelsStayInTree(links, labels)
      invariant Joined(g.edges, labels, e)
    {
      var (a, b) := g.edges[e];
      assert g.edges[e] in g.edges && Root(links, a) == Root(links, b);
      var keep := labels[a];
      if * {
        keep := labels[b];
      }
      RelabelJoins(g.edges, labels, e, keep);
      RelabelStaysInTree(links, labels, a, b, keep);
      labels := Relabel(labels, labels[a], labels[b], keep);
    }
    LabelsAreRoots(links, g.edges, labels);
  }

  lemma LabelsAreRoots(links: Links, edges: seq<(nat, nat)>, labels: seq<nat>)
    requires LabelsStayInTree(links, labels) && edges == EdgesFrom(links, 0)
    requires Joined(edges, labels, |edges|)
    ensures forall x, y :: 0 <= x < |links| && 0 <= y < |links| ==>
        (labels[x] == labels[y] <==> Root(links, x) == Root(links, y))
  {
    forall x, y | 0 <= x < |links| && 0 <= y < |links|
      ensures labels[x] == labels[y] <==> Root(links, x) == Root(links, y)
    {
      LabelOfRoot(links, edges, labels, x);
      LabelOfRoot(links, edges, labels, y);
    }
  }

  lemma {:induction false} LabelOfRoot(links: Links, edges: seq<(nat, nat)>, labels: seq<nat>, x: nat)
    requires |labels| == |links| && x < |links| && edges == EdgesFrom(links, 0)
    requires Joined(edges, labels, |edges|)
    ensures labels[x] == labels[Root(links, x)]
  {
    if links[x].Some? {
      var p := links[x].value;
      EdgesAre(links, 0);
      var f :| 0 <= f < |edges| && edges[f] == (p, x);
      LabelOfRoot(links, edges, labels, p);
    }
  }

  /** Climbs from one node of every component to its root: every parentless node is found exactly once. */
  method Roots(g: Graph, ghost links: Links) returns (roots: seq<nat>)
    requires g == GraphOf(links)
    ensures forall r: nat :: r in roots <==> r < |links| && links[r] == None
    ensures forall x, y :: 0 <= x < y < |roots| ==> roots[x] != roots[y]
  {
    hide LastIncoming, EdgesFrom, Relabel;
    var labels := Components(g, links);
    roots := [];
    for tag := 0 to g.nodes
      invariant forall r: nat :: r in roots <==> exists l: nat :: 0 <= l < tag && l in labels && Root(links, l) == r
      invariant forall x, y :: 0 <= x < y < |roots| ==> roots[x] != roots[y]
    {
      if tag in labels {
        var index := tag;
        LastIncomingIs(links, 0, index);
        while LastIncoming(g.edges, index).Some?
          invariant 0 <= index < |links| && Root(links, index) == Root(links, tag)
          invariant LastIncoming(g.edges, index) == links[index]
          decreases index
        {
          index := LastIncoming(g.edges, index).value;
          LastIncomingIs(links, 0, index);
        }
        forall r | r in roots ensures r != index {
          ghost var l: nat :| 0 <= l < tag && l in labels && Root(links, l) == r;
          RootsDiffer(links, labels, l, tag);
        }
        assert forall x :: 0 <= x < |roots| ==> roots[x] in roots;
        roots := roots + [index];
      }
    }
    forall r: nat | r < |links| && links[r] == None ensures r in roots {
      var l := labels[r];
      assert l in labels && Root(links, l) == Root(links, r) == r;
    }
  }

  lemma RootsDiffer(links: Links, labels: seq<nat>, l: nat, m: nat)
    requires LabelsStayInTree(links, labels) && l in labels && m in labels && l < |links| && m < |links| && l != m
    requires forall x, y :: 0 <= x < |links| && 0 <= y < |links| ==>
        (labels[x] == labels[y] <==> Root(links, x) == Root(links, y))
    ensures Root(links, l) != Root(links, m)
  {
    var x :| 0 <= x < |labels| && labels[x] == l;
    var y :| 0 <= y < |labels| && labels[y] == m;
  }
}
