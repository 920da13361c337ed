/** Trie: the dictionary as a prefix tree over lower-cased characters, built on
    BasicTree, with a (parent, char) -> child cache that answers find. */
module Tries {
  import opened Common
  import opened JStrings
  import opened Tree

  /** The node reached from n by following w one character at a time through
      the cache, or None when some step is missing. */
  function WalkFrom(cache: map<(nat, char), nat>, n: nat, w: string): Option<nat>
  {
    if w == [] then Some(n)
    else
      match WalkFrom(cache, n, w[..|w| - 1])
      case None => None
      case Some(m) =>
        if (m, w[|w| - 1]) in cache then Some(cache[(m, w[|w| - 1])]) else None
  }

  /** One more character extends the walk by one cache step. */
  lemma WalkSnoc(cache: map<(nat, char), nat>, n: nat, w: string, c: char)
    ensures WalkFrom(cache, n, w + [c]) ==
      match WalkFrom(cache, n, w)
      case None => None
      case Some(m) => if (m, c) in cache then Some(cache[(m, c)]) else None
  {
    assert (w + [c])[..|w|] == w;
  }

  /** A walk that succeeds keeps its result when the cache only gains entries. */
  lemma {:induction false} WalkMono(c1: map<(nat, char), nat>, c2: map<(nat, char), nat>, n: nat, w: string)
    requires forall k :: k in c1 ==> k in c2 && c2[k] == c1[k]
    requires WalkFrom(c1, n, w).Some?
    ensures WalkFrom(c2, n, w) == WalkFrom(c1, n, w)
  {
    if w != [] {
      WalkMono(c1, c2, n, w[..|w| - 1]);
    }
  }

  /** A walk that succeeds also succeeds on every prefix of the word. */
  lemma {:induction false} WalkPrefix(cache: map<(nat, char), nat>, n: nat, w: string, i: nat)
    requires i <= |w| && WalkFrom(cache, n, w).Some?
    ensures WalkFrom(cache, n, w[..i]).Some?
    decreases |w| - i
  {
    if i < |w| {
      WalkPrefix(cache, n, w[..|w| - 1], i);
      assert w[..|w| - 1][..i] == w[..i];
    } else {
      assert w[..i] == w;
    }
  }

  /** A walk over the first i chars of w to p, followed by a cached step
      (p, w[i]) -> v, reaches v, in any cache that extends the one the walk was
      made in. */
  lemma WalkExtend(c1: map<(nat, char), nat>, c2: map<(nat, char), nat>, w: string, i: nat, p: nat)
    requires forall k :: k in c1 ==> k in c2 && c2[k] == c1[k]
    requires i < |w| && WalkFrom(c1, 0, w[..i]) == Some(p) && (p, w[i]) in c2
    ensures WalkFrom(c2, 0, w[..i + 1]) == Some(c2[(p, w[i])])
  {
    WalkMono(c1, c2, 0, w[..i]);
    assert w[..i + 1] == w[..i] + [w[i]];
    WalkSnoc(c2, 0, w[..i], w[i]);
  }

  /** A step missing from the cache after the walk over the first i chars of w
      means no smaller cache could walk all of w. */
  lemma WalkMissing(c1: map<(nat, char), nat>, c2: map<(nat, char), nat>, w: string, i: nat, p: nat)
    requires forall k :: k in c1 ==> k in c2 && c2[k] == c1[k]
    requires i < |w| && WalkFrom(c2, 0, w[..i]) == Some(p) && (p, w[i]) !in c2
    ensures WalkFrom(c1, 0, w).None?
  {
    if WalkFrom(c1, 0, w).Some? {
      WalkPrefix(c1, 0, w, i + 1);
      assert w[..i + 1] == w[..i] + [w[i]];
      WalkSnoc(c1, 0, w[..i], w[i]);
      WalkMono(c1, c2, 0, w[..i]);
    }
  }

  /** The child cached under (p, c), if any. */
  function Child(cache: map<(nat, char), nat>, p: nat, c: char): Option<nat>
  {
    if (p, c) in cache then Some(cache[(p, c)]) else None
  }

  /** Every cached child sits later in the arena than its parent, so a walk
      through the cache only moves forward. */
  ghost predicate Forward(cache: map<(nat, char), nat>, size: nat)
  {
    forall key :: key in cache ==> key.0 < cache[key] < size
  }

  /** The cache holds exactly the tree's parent-child edges: each entry
      (p, e) -> v is a child v of p carrying e, and each child is cached under
      its parent and its element. */
  ghost predicate CacheExact(cache: map<(nat, char), nat>, nodes: seq<Node>)
  {
    && (forall key :: key in cache ==>
          key.0 < |nodes| && cache[key] < |nodes|
          && nodes[cache[key]].parent == Some(key.0) && nodes[cache[key]].element == key.1)
    && (forall v {:trigger nodes[v].parent} :: 0 <= v < |nodes| && nodes[v].parent.Some? ==>
          (nodes[v].parent.value, nodes[v].element) in cache
          && cache[(nodes[v].parent.value, nodes[v].element)] == v)
  }

  /** The cache of a well-formed tree only moves forward. */
  lemma CacheForward(cache: map<(nat, char), nat>, nodes: seq<Node>, children: seq<seq<nat>>, lastId: int)
    requires Shaped(nodes, children, lastId) && CacheExact(cache, nodes)
    ensures Forward(cache, |nodes|)
  {
    forall key | key in cache
      ensures key.0 < cache[key] < |nodes|
    {
      assert nodes[cache[key]].parent == Some(key.0);
    }
  }

  /** A cached child is listed among its parent's children. */
  lemma CachedChild(cache: map<(nat, char), nat>, nodes: seq<Node>, children: seq<seq<nat>>, lastId: int, p: nat, e: char)
    requires Shaped(nodes, children, lastId) && CacheExact(cache, nodes) && (p, e) in cache
    ensures p < |nodes| && cache[(p, e)] < |nodes| && cache[(p, e)] in children[p]
    ensures nodes[cache[(p, e)]].element == e
  {
    assert NodeOk(nodes, children, cache[(p, e)]);
  }

  /** Appending a detached node keeps the cache exact. */
  lemma CacheGrow(cache: map<(nat, char), nat>, a: seq<Node>, x: Node)
    requires CacheExact(cache, a) && x.parent.None?
    ensures CacheExact(cache, a + [x])
  {
    assert forall i :: 0 <= i < |a| ==> (a + [x])[i] == a[i];
  }

  /** Linking c under p and caching (p, e) -> c keeps the cache exact. */
  lemma CacheLink(cache: map<(nat, char), nat>, a: seq<Node>, b: seq<Node>, p: nat, c: nat, e: char)
    requires CacheExact(cache, a) && |b| == |a| && p < |a| && c < |a|
    requires a[c].parent.None? && (p, e) !in cache
    requires b[c].parent == Some(p) && b[c].element == e
    requires forall i :: 0 <= i < |a| && i != c ==> b[i].parent == a[i].parent
    requires forall i :: 0 <= i < |a| ==> b[i].element == a[i].element
    ensures CacheExact(cache[(p, e) := c], b)
  {
    var cache' := cache[(p, e) := c];
    forall key | key in cache'
      ensures key.0 < |b| && cache'[key] < |b|
      ensures b[cache'[key]].parent == Some(key.0) && b[cache'[key]].element == key.1
    {
      if key != (p, e) {
        assert a[cache[key]].parent.Some?;
      }
    }
    forall v | 0 <= v < |b| && b[v].parent.Some?
      ensures (b[v].parent.value, b[v].element) in cache'
      ensures cache'[(b[v].parent.value, b[v].element)] == v
    {
      if v != c {
        assert b[v].parent == a[v].parent;
        var key := (a[v].parent.value, a[v].element);
        assert key in cache && cache[key] == v;
      }
    }
  }

  /** The cache only gains entries and the nodes only grow, each old node
      keeping its payload. */
  ghost predicate Kept(c1: map<(nat, char), nat>, n1: seq<Node>, c2: map<(nat, char), nat>, n2: seq<Node>)
  {
    && (forall k :: k in c1 ==> k in c2 && c2[k] == c1[k])
    && |n2| >= |n1|
    && (forall j :: 0 <= j < |n1| ==> SamePayload(n2[j], n1[j]))
  }

  lemma KeptTrans(c1: map<(nat, char), nat>, n1: seq<Node>, c2: map<(nat, char), nat>, n2: seq<Node>,
                  c3: map<(nat, char), nat>, n3: seq<Node>)
    requires Kept(c1, n1, c2, n2) && Kept(c2, n2, c3, n3)
    ensures Kept(c1, n1, c3, n3)
  {
  }

  /** The word w was added with type t: its walk from the root ends at a token
      end whose type set holds t. */
  ghost predicate Reaches(cache: map<(nat, char), nat>, nodes: seq<Node>, w: string, t: string)
  {
    var r := WalkFrom(cache, 0, w);
    r.Some? && r.value < |nodes| && nodes[r.value].isTokenEnd && t in nodes[r.value].tokenTypes
  }

  /** n2 keeps every node of n1 with its token-end flag and its types. */
  ghost predicate Grows(n1: seq<Node>, n2: seq<Node>) {
    && |n2| >= |n1|
    && (forall j :: 0 <= j < |n1| ==> (n1[j].isTokenEnd ==> n2[j].isTokenEnd))
    && (forall j, x :: 0 <= j < |n1| && x in n1[j].tokenTypes ==> x in n2[j].tokenTypes)
  }

  /** Nodes that keep their payloads grow in the sense of Grows. */
  lemma KeptGrows(c1: map<(nat, char), nat>, n1: seq<Node>, c2: map<(nat, char), nat>, n2: seq<Node>)
    requires Kept(c1, n1, c2, n2)
    ensures Grows(n1, n2)
  {
  }

  lemma GrowsTrans(n1: seq<Node>, n2: seq<Node>, n3: seq<Node>)
    requires Grows(n1, n2) && Grows(n2, n3)
    ensures Grows(n1, n3)
  {
  }

  /** An added word stays added when the cache only gains entries and the nodes grow. */
  lemma KeepReaches(c1: map<(nat, char), nat>, n1: seq<Node>, c2: map<(nat, char), nat>, n2: seq<Node>, w: string, t: string)
    requires Reaches(c1, n1, w, t) && Grows(n1, n2)
    requires forall k :: k in c1 ==> k in c2 && c2[k] == c1[k]
    ensures Reaches(c2, n2, w, t)
  {
    WalkMono(c1, c2, 0, w);
  }

  /** Every added word stays added when the cache only gains entries and the nodes grow. */
  lemma KeepAll(c1: map<(nat, char), nat>, n1: seq<Node>, c2: map<(nat, char), nat>, n2: seq<Node>, words: seq<(string, string)>)
    requires forall j :: 0 <= j < |words| ==> Reaches(c1, n1, words[j].0, words[j].1)
    requires Grows(n1, n2)
    requires forall k :: k in c1 ==> k in c2 && c2[k] == c1[k]
    ensures forall j :: 0 <= j < |words| ==> Reaches(c2, n2, words[j].0, words[j].1)
  {
    forall j | 0 <= j < |words|
      ensures Reaches(c2, n2, words[j].0, words[j].1)
    {
      KeepReaches(c1, n1, c2, n2, words[j].0, words[j].1);
    }
  }

  /** A word that reaches its type joins the words that already do. */
  lemma ReachesSnoc(cache: map<(nat, char), nat>, nodes: seq<Node>, words: seq<(string, string)>, w: string, t: string)
    requires forall j :: 0 <= j < |words| ==> Reaches(cache, nodes, words[j].0, words[j].1)
    requires Reaches(cache, nodes, w, t)
    ensures forall j :: 0 <= j < |words| + 1 ==> Reaches(cache, nodes, (words + [(w, t)])[j].0, (words + [(w, t)])[j].1)
  {
  }

  /** The nodes after setTokenEnd and appendTokenType on node n. */
  function Marked(a: seq<Node>, n: nat, t: string): (b: seq<Node>)
    requires n < |a|
    ensures |b| == |a| && b[n].isTokenEnd && t in b[n].tokenTypes
  {
    var m := a[n := a[n].(isTokenEnd := true)];
    m[n := m[n].(tokenTypes := AppendType(m[n].tokenTypes, t))]
  }

  /** Marking a node only grows the nodes and leaves the tree edges, hence the
      cache, as they were. */
  lemma MarkKeeps(cache: map<(nat, char), nat>, a: seq<Node>, n: nat, t: string)
    requires n < |a| && CacheExact(cache, a)
    ensures Grows(a, Marked(a, n, t)) && CacheExact(cache, Marked(a, n, t))
  {
    var b := Marked(a, n, t);
    assert forall i :: 0 <= i < |a| ==> b[i].parent == a[i].parent && b[i].element == a[i].element;
  }

  class Trie {
    const tree: BasicTree
    var cache: map<(nat, char), nat>
    /** The (lower-cased word, type) pairs added so far. */
    ghost var words: seq<(string, string)>

    ghost predicate Valid()
      reads this, tree, tree.gen
    {
      && tree.Valid()
      && CacheExact(cache, tree.nodes)
      && (forall i :: 0 <= i < |words| ==> Reaches(cache, tree.nodes, words[i].0, words[i].1))
    }

    /** An empty dictionary: the tree holds only its root. */
    constructor (gen: IdGen)
      modifies gen
      ensures Valid() && fresh(tree) && tree.gen == gen
      ensures |tree.nodes| == 1 && cache == map[] && words == []
    {
      tree := new BasicTree(gen);
      cache := map[];
      words := [];
    }

    /** getRoot. */
    function Root(): (r: nat)
      reads this, tree, tree.gen
      requires Valid()
      ensures r == 0 && r < |tree.nodes| && tree.nodes[r].parent.None?
    {
      tree.Root()
    }

    /** find: a cache lookup keyed by the parent node and the char; a null
        parent fails on its hash code. */
    function Find(parent: Option<nat>, c: char): (r: Result<Option<nat>>)
      reads this
      ensures parent.None? <==> r == Failure(NullPointer)
      ensures parent.Some? ==> r.Success?
    {
      if parent.None? then Failure(NullPointer) else Success(Child(cache, parent.value, c))
    }

    /** What find answers is exactly the child of p that carries c in the tree. */
    lemma FindExact(p: nat, c: char)
      requires Valid() && p < |tree.nodes|
      ensures Find(Some(p), c).value.Some? <==> tree.HasChildWith(p, c)
      ensures Find(Some(p), c).value.Some? ==>
        var v := Find(Some(p), c).value.value;
        v in tree.children[p] && v < |tree.nodes| && tree.nodes[v].element == c
    {
      if (p, c) in cache {
        CachedChild(cache, tree.nodes, tree.children, tree.gen.last, p, c);
        tree.ListedChild(p, cache[(p, c)]);
      } else {
        assert NodeOk(tree.nodes, tree.children, p);
      }
    }

    /** One iteration of add's loop: tree.find under parent, and when that
        misses, a new child for c. */
    method Step(parent: nat, c: char) returns (child: nat)
      requires tree.Valid() && CacheExact(cache, tree.nodes) && parent < |tree.nodes|
      modifies this, tree, tree.gen
      ensures tree.Valid() && CacheExact(cache, tree.nodes)
      ensures (parent, c) in cache && cache[(parent, c)] == child && child < |tree.nodes|
      ensures Kept(old(cache), old(tree.nodes), cache, tree.nodes) && words == old(words)
      ensures (parent, c) in old(cache) ==> tree.nodes == old(tree.nodes) && cache == old(cache)
    {
      var found := tree.Find(Some(parent), c);
      if found.None? {
        assert (parent, c) !in cache by {
          if (parent, c) in cache {
            CachedChild(cache, tree.nodes, tree.children, tree.gen.last, parent, c);
          }
        }
        child := AddChild(parent, c);
      } else {
        child := found.value;
        assert (parent, c) in cache && cache[(parent, c)] == child by {
          assert NodeOk(tree.nodes, tree.children, parent);
          var k :| 0 <= k < |tree.children[parent]| && tree.children[parent][k] == child;
          assert tree.nodes[child].parent == Some(parent);
        }
      }
    }

    /** The miss branch of add's loop: createNode, createRelationShip (which
        cannot fail here) and caches.put. */
    method AddChild(parent: nat, c: char) returns (child: nat)
      requires tree.Valid() && CacheExact(cache, tree.nodes) && parent < |tree.nodes|
      requires (parent, c) !in cache && !tree.HasChildWith(parent, c)
      modifies this, tree, tree.gen
      ensures tree.Valid() && CacheExact(cache, tree.nodes)
      ensures cache == old(cache)[(parent, c) := child] && child == old(|tree.nodes|)
      ensures |tree.nodes| == old(|tree.nodes|) + 1 && words == old(words)
      ensures forall j :: 0 <= j < old(|tree.nodes|) ==> SamePayload(tree.nodes[j], old(tree.nodes[j]))
    {
      ghost var before := tree.nodes;
      ghost var beforeChildren := tree.children;
      child := tree.CreateNode(c);
      CacheGrow(cache, before, tree.nodes[child]);
      ghost var grown := tree.nodes;
      assert !tree.HasChildWith(parent, c) by {
        assert NodeOk(before, beforeChildren, parent);
        assert tree.children[parent] == beforeChildren[parent];
      }
      var linked := tree.Link(Some(parent), Some(child));
      CacheLink(cache, grown, tree.nodes, parent, child, c);
      if linked.Pass? {
        cache := cache[(parent, c) := child];
      }
    }

    /** One pass of add's loop, with what the loop keeps: the walk over the
        first i chars of lw ends at parent, the cache and the nodes only grow,
        and nothing changes when the whole of lw was already a walk. */
    method Advance(parent: nat, c: char, ghost lw: string, ghost i: nat,
                   ghost oldCache: map<(nat, char), nat>, ghost oldNodes: seq<Node>) returns (child: nat)
      requires tree.Valid() && CacheExact(cache, tree.nodes) && parent < |tree.nodes|
      requires i < |lw| && lw[i] == c && WalkFrom(cache, 0, lw[..i]) == Some(parent)
      requires Kept(oldCache, oldNodes, cache, tree.nodes)
      requires WalkFrom(oldCache, 0, lw).Some? ==> tree.nodes == oldNodes && cache == oldCache
      modifies this, tree, tree.gen
      ensures tree.Valid() && CacheExact(cache, tree.nodes) && words == old(words)
      ensures child < |tree.nodes| && WalkFrom(cache, 0, lw[..i + 1]) == Some(child)
      ensures Kept(oldCache, oldNodes, cache, tree.nodes)
      ensures WalkFrom(oldCache, 0, lw).Some? ==> tree.nodes == oldNodes && cache == oldCache
    {
      if (parent, c) !in cache {
        WalkMissing(oldCache, cache, lw, i, parent);
      }
      ghost var stepCache, stepNodes := cache, tree.nodes;
      child := Step(parent, c);
      WalkExtend(stepCache, cache, lw, i, parent);
      KeptTrans(oldCache, oldNodes, stepCache, stepNodes, cache, tree.nodes);
    }

    /** The loop of add: from the root, one step per lower-cased character of w;
        the result is the node the whole word leads to. */
    method Descend(w: string) returns (child: nat)
      requires tree.Valid() && CacheExact(cache, tree.nodes)
      modifies this, tree, tree.gen
      ensures tree.Valid() && CacheExact(cache, tree.nodes) && words == old(words)
      ensures child < |tree.nodes| && WalkFrom(cache, 0, Lower(w)) == Some(child)
      ensures Kept(old(cache), old(tree.nodes), cache, tree.nodes)
      ensures old(WalkFrom(cache, 0, Lower(w))).Some? ==> tree.nodes == old(tree.nodes) && cache == old(cache)
    {
      ghost var lw := Lower(w);
      ghost var oldCache, oldNodes := cache, tree.nodes;
      var parent := tree.Root();
      child := parent;
      for i := 0 to |w|
        invariant tree.Valid() && CacheExact(cache, tree.nodes) && words == old(words)
        invariant parent < |tree.nodes| && child == parent
        invariant WalkFrom(cache, 0, lw[..i]) == Some(parent)
        invariant Kept(oldCache, oldNodes, cache, tree.nodes)
        invariant WalkFrom(oldCache, 0, lw).Some? ==> tree.nodes == oldNodes && cache == oldCache
      {
        var c := LowerChar(w[i]);
        parent := Advance(parent, c, lw, i, oldCache, oldNodes);
        child := parent;
      }
      assert lw[..|w|] == lw;
    }

    /** setTokenEnd and appendTokenType on the node a word leads to. */
    method Mark(n: nat, t: string)
      requires tree.Valid() && CacheExact(cache, tree.nodes) && n < |tree.nodes|
      modifies tree
      ensures tree.Valid() && CacheExact(cache, tree.nodes)
      ensures tree.nodes == Marked(old(tree.nodes), n, t) && Grows(old(tree.nodes), tree.nodes)
    {
      MarkKeeps(cache, tree.nodes, n, t);
      tree.SetTokenEnd(n);
      tree.AppendTokenType(n, t);
    }

    /** The body of add once its checks pass: the walk, the marking and the
        new (word, type) pair. */
    method Insert(w: string, t: string)
      requires Valid()
      modifies this, tree, tree.gen
      ensures Valid() && words == old(words) + [(Lower(w), t)]
      ensures Reaches(cache, tree.nodes, Lower(w), t)
      ensures old(WalkFrom(cache, 0, Lower(w))).Some? ==> |tree.nodes| == old(|tree.nodes|) && cache == old(cache)
      ensures forall k :: k in old(cache) ==> k in cache && cache[k] == old(cache)[k]
      ensures Grows(old(tree.nodes), tree.nodes)
    {
      ghost var oldCache, oldNodes := cache, tree.nodes;
      var child := Descend(w);
      ghost var walked := tree.nodes;
      KeptGrows(oldCache, oldNodes, cache, walked);
      Mark(child, t);
      GrowsTrans(oldNodes, walked, tree.nodes);
      KeepAll(oldCache, oldNodes, cache, tree.nodes, words);
      assert Reaches(cache, tree.nodes, Lower(w), t);
      ReachesSnoc(cache, tree.nodes, words, Lower(w), t);
      words := words + [(Lower(w), t)];
    }

    /** add: rejects a null token, a blank token and a null type, in that order;
        otherwise walks the lower-cased characters of the untrimmed token from the
        root, creating and caching each missing child, and marks the last node as
        a token end carrying the type. */
    method Add(token: Option<string>, tokenType: Option<string>) returns (r: Outcome)
      requires Valid()
      modifies this, tree, tree.gen
      ensures Valid()
      ensures token.None? ==> r == Fail(NullPointer)
      ensures token.Some? && Trim(token.value) == [] ==> r == Fail(IllegalArgument)
      ensures token.Some? && Trim(token.value) != [] && tokenType.None? ==> r == Fail(UnknownTokenType)
      ensures r.Pass? <==> token.Some? && Trim(token.value) != [] && tokenType.Some?
      ensures r.Fail? ==> cache == old(cache) && words == old(words) && tree.nodes == old(tree.nodes)
      ensures r.Pass? ==> words == old(words) + [(Lower(token.value), tokenType.value)]
      ensures r.Pass? ==> Reaches(cache, tree.nodes, Lower(token.value), tokenType.value)
      ensures r.Pass? && old(WalkFrom(cache, 0, Lower(token.value))).Some? ==>
        |tree.nodes| == old(|tree.nodes|) && cache == old(cache)
      ensures forall k :: k in old(cache) ==> k in cache && cache[k] == old(cache)[k]
      ensures Grows(old(tree.nodes), tree.nodes)
    {
      if token.None? {
        return Fail(NullPointer);
      }
      TrimEmptyIffBlank(token.value);
      if Trim(token.value) == [] {
        return Fail(IllegalArgument);
      }
      if tokenType.None? {
        return Fail(UnknownTokenType);
      }
      Insert(token.value, tokenType.value);
      return Pass;
    }
  }
}
