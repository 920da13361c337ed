/** BasicTree: a first-child/next-sibling tree whose sibling elements are unique.
    Nodes live in an arena (a sequence addressed by index); a Java reference to a
    node is its index, and a null reference is None. */
module Tree {
  import opened Common
  import opened JStrings

  /** The id counter every node draws from (BasicTree.Node.idGen, process-wide). */
  class IdGen {
    var last: int

    constructor ()
      ensures last == -1
    {
      last := -1;
    }

    /** AtomicInteger.incrementAndGet, run by one thread at a time. */
    method IncrementAndGet() returns (id: int)
      modifies this
      ensures last == old(last) + 1 && id == last
    {
      last := last + 1;
      id := last;
    }
  }

  /** BasicTree.Node: links to first child, next sibling and parent, and the
      token-end flag and token types the dictionary stores on it. */
  datatype Node = Node(
    id: int,
    element: char,
    firstChild: Option<nat>,
    nextSibling: Option<nat>,
    parent: Option<nat>,
    isTokenEnd: bool,
    tokenTypes: seq<string>)

  /** The root's element, (char) -1. */
  const RootElement: char := '\U{FFFF}'

  /** The node carries the same id, element, token-end flag and types. */
  predicate SamePayload(a: Node, b: Node) {
    a.id == b.id && a.element == b.element && a.isTokenEnd == b.isTokenEnd && a.tokenTypes == b.tokenTypes
  }

  /** Every node's parent sits earlier in the arena, so parent chains end. */
  ghost predicate ParentsBefore(nodes: seq<Node>) {
    forall n :: 0 <= n < |nodes| && nodes[n].parent.Some? ==> nodes[n].parent.value < n
  }

  /** The number of ancestors of node n. */
  function DepthIn(nodes: seq<Node>, n: nat): nat
    requires n < |nodes| && ParentsBefore(nodes)
    decreases n
  {
    match nodes[n].parent
    case None => 0
    case Some(p) => 1 + DepthIn(nodes, p)
  }

  /** Depth only looks at the parent links on the path to the root. */
  lemma {:induction false} DepthFrame(a: seq<Node>, b: seq<Node>, n: nat)
    requires ParentsBefore(a) && ParentsBefore(b) && n < |a| && n < |b|
    requires forall i :: 0 <= i <= n ==> a[i].parent == b[i].parent
    ensures DepthIn(a, n) == DepthIn(b, n)
  {
    match a[n].parent
    case None =>
    case Some(p) => DepthFrame(a, b, p);
  }

  predicate NoDup(ts: seq<string>) {
    forall i, j :: 0 <= i < j < |ts| ==> ts[i] != ts[j]
  }

  /** Adding to the node's type set (a HashSet in the source). */
  function AppendType(ts: seq<string>, t: string): (r: seq<string>)
    ensures t in r
    ensures forall x :: x in r <==> x in ts || x == t
    ensures NoDup(ts) ==> NoDup(r)
    ensures t in ts ==> r == ts
  {
    if t in ts then ts else ts + [t]
  }

  /** getTypes: null for no types, otherwise the types joined with ",". */
  function TypesString(ts: seq<string>): Option<string>
  {
    if ts == [] then None else Some(Join(ts, ','))
  }

  /** Whatever order the types are joined in, cutting the string at its
      commas gives each type once and nothing else, provided no type
      holds a comma. */
  lemma TypesStringSplit(ts: seq<string>)
    requires ts != [] && NoDup(ts) && forall k :: 0 <= k < |ts| ==> ',' !in ts[k]
    ensures TypesString(ts).Some?
    ensures var ps := SplitAt(TypesString(ts).value, ',');
      && |ps| == |ts| && NoDup(ps) && forall x :: x in ps <==> x in ts
  {
    SplitJoin(ts, ',');
  }

  /** The child list of p: its children come after it and point back at it,
      firstChild is the head of the list, nextSibling links it in order and ends
      with null, and no two children carry the same element. */
  ghost predicate KidsOk(nodes: seq<Node>, children: seq<seq<nat>>, p: nat)
    requires p < |nodes| && |children| == |nodes|
  {
    var kids := children[p];
    && (forall k :: 0 <= k < |kids| ==> p < kids[k] < |nodes| && nodes[kids[k]].parent == Some(p))
    && nodes[p].firstChild == (if kids == [] then None else Some(kids[0]))
    && (forall i, j {:trigger kids[i], kids[j]} :: 0 <= i && j == i + 1 && j < |kids| ==>
          kids[i] < |nodes| && nodes[kids[i]].nextSibling == Some(kids[j]))
    && (kids != [] ==> kids[|kids| - 1] < |nodes| && nodes[kids[|kids| - 1]].nextSibling.None?)
    && (forall i, j :: 0 <= i < j < |kids| ==>
          kids[i] < |nodes| && kids[j] < |nodes| && nodes[kids[i]].element != nodes[kids[j]].element)
  }

  /** Node p itself: it is listed among its parent's children, and a node without
      a parent has no sibling. */
  ghost predicate SelfOk(nodes: seq<Node>, children: seq<seq<nat>>, p: nat)
    requires p < |nodes| && |children| == |nodes|
  {
    && (nodes[p].parent.Some? ==> nodes[p].parent.value < |nodes| && p in children[nodes[p].parent.value])
    && (nodes[p].parent.None? ==> nodes[p].nextSibling.None?)
  }

  /** Everything that holds around node p. */
  ghost predicate NodeOk(nodes: seq<Node>, children: seq<seq<nat>>, p: nat)
    requires p < |nodes| && |children| == |nodes|
  {
    KidsOk(nodes, children, p) && SelfOk(nodes, children, p)
  }

  /** The arena invariant: ids increase in creation order and never pass the
      generator, parents come before their children, and every node is NodeOk.
      The per-node facts are only unfolded where a proof names NodeOk for a node. */
  ghost predicate Shaped(nodes: seq<Node>, children: seq<seq<nat>>, lastId: int)
  {
    && |nodes| >= 1 && |children| == |nodes|
    && nodes[0].parent == None
    && ParentsBefore(nodes)
    && (forall i, j :: 0 <= i < j < |nodes| ==> nodes[i].id < nodes[j].id)
    && (forall i :: 0 <= i < |nodes| ==> nodes[i].id <= lastId)
    && (forall p {:trigger NodeOk(nodes, children, p)} :: 0 <= p < |nodes| ==> NodeOk(nodes, children, p))
  }

  /** The links, id and element are what the tree shape depends on. */
  predicate SameLinks(a: Node, b: Node) {
    a.id == b.id && a.element == b.element && a.firstChild == b.firstChild
    && a.nextSibling == b.nextSibling && a.parent == b.parent
  }

  /** Changing only token-end flags and types keeps the tree shape. */
  lemma ShapeKept(a: seq<Node>, b: seq<Node>, children: seq<seq<nat>>, lastId: int)
    requires Shaped(a, children, lastId) && |a| == |b|
    requires forall i :: 0 <= i < |a| ==> SameLinks(a[i], b[i])
    ensures Shaped(b, children, lastId)
  {
    assert ParentsBefore(b);
    forall p | 0 <= p < |b|
      ensures NodeOk(b, children, p)
    {
      assert NodeOk(a, children, p);
    }
  }

  /** Appending a detached node with a fresh id keeps the tree shape. */
  lemma ShapeGrow(a: seq<Node>, children: seq<seq<nat>>, lastId: int, x: Node)
    requires Shaped(a, children, lastId)
    requires x == Node(lastId + 1, x.element, None, None, None, false, [])
    ensures Shaped(a + [x], children + [[]], lastId + 1)
  {
    var b, ch := a + [x], children + [[]];
    assert forall i :: 0 <= i < |a| ==> b[i] == a[i];
    assert ParentsBefore(b);
    forall p | 0 <= p < |b|
      ensures NodeOk(b, ch, p)
    {
      if p < |a| {
        assert NodeOk(a, children, p);
        assert ch[p] == children[p];
        if a[p].parent.Some? {
          assert ch[a[p].parent.value] == children[a[p].parent.value];
        }
      }
    }
  }

  /** The arena after c is linked as p's last child: either p's firstChild or
      the last sibling's nextSibling points at c, and c's parent is p. */
  function LinkedNodes(a: seq<Node>, children: seq<seq<nat>>, p: nat, c: nat): seq<Node>
    requires p < |a| && c < |a| && |children| == |a|
    requires forall k :: 0 <= k < |children[p]| ==> children[p][k] < |a|
  {
    var b :=
      if children[p] == [] then a[p := a[p].(firstChild := Some(c))]
      else
        var last := children[p][|children[p]| - 1];
        a[last := a[last].(nextSibling := Some(c))];
    b[c := b[c].(parent := Some(p))]
  }

  /** b is a with c linked under p, field by field: only p's firstChild (when p
      had no children), the old last child's nextSibling and c's parent change. */
  ghost predicate LinkedFrom(a: seq<Node>, b: seq<Node>, children: seq<seq<nat>>, p: nat, c: nat)
    requires p < |a| && |children| == |a|
  {
    var kp := children[p];
    && |b| == |a|
    && (forall i :: 0 <= i < |a| ==> SamePayload(b[i], a[i]))
    && (forall i :: 0 <= i < |a| ==> b[i].parent == (if i == c then Some(p) else a[i].parent))
    && (forall i :: 0 <= i < |a| ==>
          b[i].firstChild == (if i == p && kp == [] then Some(c) else a[i].firstChild))
    && (forall i :: 0 <= i < |a| ==>
          b[i].nextSibling == (if kp != [] && i == kp[|kp| - 1] then Some(c) else a[i].nextSibling))
  }

  lemma LinkedNodesFrom(a: seq<Node>, children: seq<seq<nat>>, p: nat, c: nat)
    requires |children| == |a| && p < c < |a| && a[c].parent.None? && NodeOk(a, children, p)
    ensures LinkedFrom(a, LinkedNodes(a, children, p, c), children, p, c)
  {
    var kp := children[p];
    if kp != [] {
      assert a[kp[|kp| - 1]].parent == Some(p);
    }
  }

  /** The preconditions of a link: c comes after p, has no parent, and no child
      of p has c's element. */
  ghost predicate Linkable(a: seq<Node>, children: seq<seq<nat>>, lastId: int, p: nat, c: nat) {
    && Shaped(a, children, lastId)
    && p < c < |a| && a[c].parent.None?
    && (forall k :: 0 <= k < |children[p]| ==> children[p][k] < |a| && a[children[p][k]].element != a[c].element)
  }

  /** Linking changes no payload and no parent but c's, which becomes p, so c
      sits one level below p and p's own depth is unchanged. */
  lemma LinkedFacts(a: seq<Node>, children: seq<seq<nat>>, lastId: int, p: nat, c: nat)
    requires Linkable(a, children, lastId, p, c)
    ensures var b := LinkedNodes(a, children, p, c);
      && |b| == |a| && ParentsBefore(b)
      && b[c].parent == Some(p)
      && (forall i :: 0 <= i < |b| && i != c ==> b[i].parent == a[i].parent)
      && (forall i :: 0 <= i < |b| ==> SamePayload(b[i], a[i]))
      && DepthIn(b, c) == DepthIn(b, p) + 1
      && DepthIn(b, p) == DepthIn(a, p)
  {
    var b := LinkedNodes(a, children, p, c);
    assert NodeOk(a, children, p);
    assert ParentsBefore(b);
    DepthFrame(b, a, p);
  }

  /** Linking a detached later node under p, when no sibling shares its element,
      keeps the tree shape. */
  lemma ShapeLink(a: seq<Node>, children: seq<seq<nat>>, lastId: int, p: nat, c: nat)
    requires Linkable(a, children, lastId, p, c)
    ensures Shaped(LinkedNodes(a, children, p, c), children[p := children[p] + [c]], lastId)
  {
    var b := LinkedNodes(a, children, p, c);
    var ch := children[p := children[p] + [c]];
    assert NodeOk(a, children, p);
    LinkedNodesFrom(a, children, p, c);
    assert ParentsBefore(b);
    forall q | 0 <= q < |b|
      ensures NodeOk(b, ch, q)
    {
      assert NodeOk(a, children, q);
      if q == c {
        LinkChildNode(a, b, children, p, c);
      } else if q != p {
        LinkOtherNode(a, b, children, p, c, q);
      } else {
        assert NodeOk(a, children, c);
        LinkParentNode(a, b, children, p, c);
      }
    }
  }

  /** Every node other than p and c keeps its local shape. */
  lemma LinkOtherNode(a: seq<Node>, b: seq<Node>, children: seq<seq<nat>>, p: nat, c: nat, q: nat)
    requires |children| == |a| && p < c < |a| && a[c].parent.None? && q < |a| && q != p && q != c
    requires NodeOk(a, children, p) && NodeOk(a, children, q)
    requires LinkedFrom(a, b, children, p, c)
    ensures NodeOk(b, children[p := children[p] + [c]], q)
  {
    LinkOtherKids(a, b, children, p, c, q);
    var ch := children[p := children[p] + [c]];
    if a[q].parent.Some? {
      var g := a[q].parent.value;
      assert q in ch[g] by {
        var k :| 0 <= k < |children[g]| && children[g][k] == q;
        if g == p {
          assert ch[g][k] == q;
        }
      }
    }
  }

  lemma LinkOtherKids(a: seq<Node>, b: seq<Node>, children: seq<seq<nat>>, p: nat, c: nat, q: nat)
    requires |children| == |a| && p < c < |a| && a[c].parent.None? && q < |a| && q != p && q != c
    requires KidsOk(a, children, p) && KidsOk(a, children, q)
    requires LinkedFrom(a, b, children, p, c)
    ensures KidsOk(b, children[p := children[p] + [c]], q)
  {
    var ch := children[p := children[p] + [c]];
    var kp := children[p];
    var kids := children[q];
    assert ch[q] == kids;
    forall k | 0 <= k < |kids|
      ensures b[kids[k]].nextSibling == a[kids[k]].nextSibling
    {
      if kp != [] {
        assert a[kp[|kp| - 1]].parent == Some(p);
      }
    }
  }

  /** c, now under p, keeps its own children and is listed under p. */
  lemma LinkChildNode(a: seq<Node>, b: seq<Node>, children: seq<seq<nat>>, p: nat, c: nat)
    requires |children| == |a| && p < c < |a| && a[c].parent.None?
    requires NodeOk(a, children, p) && NodeOk(a, children, c)
    requires LinkedFrom(a, b, children, p, c)
    ensures NodeOk(b, children[p := children[p] + [c]], c)
  {
    var ch := children[p := children[p] + [c]];
    var kp := children[p];
    var kids := children[c];
    assert ch[c] == kids;
    assert ch[p][|kp|] == c;
    forall k | 0 <= k < |kids|
      ensures b[kids[k]].nextSibling == a[kids[k]].nextSibling
    {
      if kp != [] {
        assert a[kp[|kp| - 1]].parent == Some(p);
      }
    }
  }

  lemma LinkParentNode(a: seq<Node>, b: seq<Node>, children: seq<seq<nat>>, p: nat, c: nat)
    requires |children| == |a| && p < c < |a| && a[c].parent.None? && ParentsBefore(a)
    requires NodeOk(a, children, p) && NodeOk(a, children, c)
    requires forall k :: 0 <= k < |children[p]| ==> children[p][k] < |a| && a[children[p][k]].element != a[c].element
    requires LinkedFrom(a, b, children, p, c)
    ensures NodeOk(b, children[p := children[p] + [c]], p)
  {
    var ch := children[p := children[p] + [c]];
    var kp := children[p];
    var kids := ch[p];
    assert kids == kp + [c];
    forall k | 0 <= k < |kp|
      ensures b[kp[k]].parent == Some(p) && b[kp[k]].element == a[kp[k]].element
    {
    }
    forall i, j | 0 <= i && j == i + 1 && j < |kids|
      ensures kids[i] < |b| && b[kids[i]].nextSibling == Some(kids[j])
    {
      if j == |kp| {
        assert kids[i] == kp[|kp| - 1] && kids[j] == c;
      } else {
        assert kids[i] == kp[i] && kids[j] == kp[j];
        assert kp[i] != kp[|kp| - 1];
      }
    }
    assert p < c < |b| && b[c].parent == Some(p);
    if kp != [] {
      assert kp[|kp| - 1] != p;
      assert b[p].firstChild == a[p].firstChild;
    }
    assert b[p].parent == a[p].parent && b[p].nextSibling == a[p].nextSibling;
    if a[p].parent.Some? {
      var g := a[p].parent.value;
      assert g != p;
      assert ch[g] == children[g];
    }
    forall i, j | 0 <= i < j < |kids|
      ensures b[kids[i]].element != b[kids[j]].element
    {
      if j == |kp| {
        assert kids[i] == kp[i];
      } else {
        assert kids[i] == kp[i] && kids[j] == kp[j];
      }
    }
  }

  class BasicTree {
    const gen: IdGen
    var nodes: seq<Node>
    /** children[p] lists p's children in sibling order. */
    ghost var children: seq<seq<nat>>

    ghost predicate Valid()
      reads this, gen
    {
      Shaped(nodes, children, gen.last)
    }

    /** Some child of p carries element e. */
    ghost predicate HasChildWith(p: nat, e: char)
      reads this
      requires p < |children|
    {
      exists k :: 0 <= k < |children[p]| && children[p][k] < |nodes| && nodes[children[p][k]].element == e
    }

    /** A listed child witnesses its element among p's children. */
    lemma ListedChild(p: nat, v: nat)
      requires p < |children| && v in children[p] && v < |nodes|
      ensures HasChildWith(p, nodes[v].element)
    {
      var k :| 0 <= k < |children[p]| && children[p][k] == v;
    }

    /** A new tree: just the root. */
    constructor (gen: IdGen)
      modifies gen
      ensures this.gen == gen && Valid()
      ensures |nodes| == 1 && nodes[0].element == RootElement && children == [[]]
      ensures nodes[0].id == old(gen.last) + 1 && gen.last == nodes[0].id
    {
      this.gen := gen;
      var id := gen.IncrementAndGet();
      nodes := [Node(id, RootElement, None, None, None, false, [])];
      children := [[]];
    }

    /** getRoot. */
    function Root(): (r: nat)
      reads this, gen
      requires Valid()
      ensures r == 0 && r < |nodes| && nodes[r].parent.None? && DepthIn(nodes, r) == 0
    {
      0
    }

    /** find: walks the sibling chain of parent's children for element e. */
    method Find(parent: Option<nat>, e: char) returns (r: Option<nat>)
      requires Valid()
      requires parent.Some? ==> parent.value < |nodes|
      ensures parent.None? ==> r.None?
      ensures parent.Some? ==> (r.Some? <==> HasChildWith(parent.value, e))
      ensures r.Some? ==> r.value in children[parent.value] && r.value < |nodes| && nodes[r.value].element == e
    {
      if parent.None? {
        return None;
      }
      var p := parent.value;
      assert NodeOk(nodes, children, p);
      var child := nodes[p].firstChild;
      ghost var k := 0;
      while child.Some?
        invariant 0 <= k <= |children[p]|
        invariant child == (if k < |children[p]| then Some(children[p][k]) else None)
        invariant forall j :: 0 <= j < k ==> nodes[children[p][j]].element != e
        decreases |children[p]| - k
      {
        if nodes[child.value].element == e {
          return child;
        }
        child := nodes[child.value].nextSibling;
        k := k + 1;
      }
      return None;
    }

    /** createNode: a fresh, detached node with a new id. */
    method CreateNode(element: char) returns (n: nat)
      requires Valid()
      modifies this, gen
      ensures Valid()
      ensures n == old(|nodes|)
      ensures nodes == old(nodes) + [Node(gen.last, element, None, None, None, false, [])]
      ensures children == old(children) + [[]]
      ensures gen.last == old(gen.last) + 1
      ensures forall i :: 0 <= i < n ==> nodes[i].id < nodes[n].id
    {
      var id := gen.IncrementAndGet();
      n := |nodes|;
      ShapeGrow(nodes, children, gen.last - 1, Node(id, element, None, None, None, false, []));
      nodes := nodes + [Node(id, element, None, None, None, false, [])];
      children := children + [[]];
    }

    /** The sibling walk of createRelationShip: from p's first child along the
        nextSibling links to the last child. */
    method LastChild(p: nat) returns (s: nat)
      requires Valid() && p < |nodes| && children[p] != []
      ensures s == children[p][|children[p]| - 1]
    {
      assert NodeOk(nodes, children, p);
      s := nodes[p].firstChild.value;
      ghost var k := 0;
      while nodes[s].nextSibling.Some?
        invariant 0 <= k < |children[p]| && s == children[p][k]
        invariant k + 1 < |children[p]| ==> nodes[s].nextSibling == Some(children[p][k + 1])
        decreases |children[p]| - k
      {
        s := nodes[s].nextSibling.value;
        k := k + 1;
      }
    }

    /** createRelationShip: makes child the last child of parent. */
    method Link(parent: Option<nat>, child: Option<nat>) returns (r: Outcome)
      requires Valid()
      requires parent.Some? ==> parent.value < |nodes|
      requires child.Some? ==> child.value < |nodes|
      requires parent.Some? && child.Some? ==> parent.value < child.value
      modifies this
      ensures Valid()
      ensures |nodes| == old(|nodes|)
      ensures parent.None? ==> r == Fail(NullPointer)
      ensures parent.Some? && child.None? ==> r == Fail(NullPointer)
      ensures parent.Some? && child.Some? ==>
        r == (if old(nodes)[child.value].parent.Some? && old(nodes)[child.value].parent != parent
              then Fail(AlreadyHasParent)
              else if old(HasChildWith(parent.value, nodes[child.value].element))
              then Fail(DuplicateElement)
              else Pass)
      ensures r.Fail? ==> nodes == old(nodes) && children == old(children)
      ensures r.Pass? ==>
        && children == old(children)[parent.value := old(children)[parent.value] + [child.value]]
        && nodes[child.value].parent == parent
        && (forall i :: 0 <= i < |nodes| && i != child.value ==> nodes[i].parent == old(nodes)[i].parent)
        && (forall i :: 0 <= i < |nodes| ==> SamePayload(nodes[i], old(nodes)[i]))
        && DepthIn(nodes, child.value) == DepthIn(nodes, parent.value) + 1
        && DepthIn(nodes, parent.value) == DepthIn(old(nodes), parent.value)
    {
      if parent.None? {
        return Fail(NullPointer);
      }
      if child.None? {
        return Fail(NullPointer);
      }
      var p, c := parent.value, child.value;
      if nodes[c].parent.Some? && nodes[c].parent != Some(p) {
        return Fail(AlreadyHasParent);
      }
      var found := Find(Some(p), nodes[c].element);
      if found.Some? {
        return Fail(DuplicateElement);
      }
      assert NodeOk(nodes, children, p) && NodeOk(nodes, children, c);
      ghost var oldNodes, oldChildren := nodes, children;
      Attach(p, c);
      LinkedFacts(oldNodes, oldChildren, gen.last, p, c);
      return Pass;
    }

    /** The linking half of createRelationShip, once the checks have passed. */
    method Attach(p: nat, c: nat)
      requires Valid() && p < c < |nodes| && nodes[c].parent.None?
      requires !HasChildWith(p, nodes[c].element)
      modifies this
      ensures Valid()
      ensures Linkable(old(nodes), old(children), gen.last, p, c)
      ensures nodes == LinkedNodes(old(nodes), old(children), p, c)
      ensures children == old(children)[p := old(children)[p] + [c]]
    {
      assert NodeOk(nodes, children, p);
      assert Linkable(nodes, children, gen.last, p, c);
      ghost var oldNodes := nodes;
      if nodes[p].firstChild.None? {
        nodes := nodes[p := nodes[p].(firstChild := Some(c))];
      } else {
        var sibling := LastChild(p);
        nodes := nodes[sibling := nodes[sibling].(nextSibling := Some(c))];
      }
      nodes := nodes[c := nodes[c].(parent := Some(p))];
      assert nodes == LinkedNodes(oldNodes, children, p, c);
      ShapeLink(oldNodes, children, gen.last, p, c);
      children := children[p := children[p] + [c]];
    }

    /** getDepth: counts the ancestors by chasing parent links. */
    method GetDepth(n: nat) returns (d: nat)
      requires Valid() && n < |nodes|
      ensures d == DepthIn(nodes, n)
    {
      d := 0;
      var cur: Option<nat> := nodes[n].parent;
      while cur.Some?
        invariant cur.Some? ==> cur.value < |nodes|
        invariant d + (if cur.Some? then 1 + DepthIn(nodes, cur.value) else 0) == DepthIn(nodes, n)
        decreases if cur.Some? then cur.value + 1 else 0
      {
        d := d + 1;
        cur := nodes[cur.value].parent;
      }
    }

    /** setTokenEnd. */
    method SetTokenEnd(n: nat)
      requires Valid() && n < |nodes|
      modifies this
      ensures Valid() && children == old(children)
      ensures nodes == old(nodes)[n := old(nodes)[n].(isTokenEnd := true)]
    {
      ghost var before := nodes;
      nodes := nodes[n := nodes[n].(isTokenEnd := true)];
      ShapeKept(before, nodes, children, gen.last);
    }

    /** appendTokenType. */
    method AppendTokenType(n: nat, t: string)
      requires Valid() && n < |nodes|
      modifies this
      ensures Valid() && children == old(children)
      ensures nodes == old(nodes)[n := old(nodes)[n].(tokenTypes := AppendType(old(nodes)[n].tokenTypes, t))]
    {
      ghost var before := nodes;
      nodes := nodes[n := nodes[n].(tokenTypes := AppendType(nodes[n].tokenTypes, t))];
      ShapeKept(before, nodes, children, gen.last);
    }

    /** getTypes: null without types, the sole type for one, else the types joined with ",". */
    method GetTypes(n: nat) returns (r: Option<string>)
      requires Valid() && n < |nodes|
      ensures r == TypesString(nodes[n].tokenTypes)
      ensures |nodes[n].tokenTypes| == 0 ==> r.None?
      ensures |nodes[n].tokenTypes| == 1 ==> r == Some(nodes[n].tokenTypes[0])
      ensures |nodes[n].tokenTypes| > 1 ==> r.Some? && |r.value| >= 1 && ',' in r.value
    {
      var ts := nodes[n].tokenTypes;
      if |ts| == 0 {
        return None;
      }
      if |ts| == 1 {
        return Some(ts[0]);
      }
      var builder := "";
      for i := 0 to |ts|
        invariant builder == Terminated(ts[..i], ',')
      {
        TerminatedSnoc(ts[..i], ts[i], ',');
        assert ts[..i + 1] == ts[..i] + [ts[i]];
        builder := builder + ts[i] + ",";
      }
      assert ts[..|ts|] == ts;
      DropLastSeparator(ts, ',');
      assert Join(ts, ',') == ts[0] + [','] + Join(ts[1..], ',');
      return Some(builder[..|builder| - 1]);
    }
  }
}
