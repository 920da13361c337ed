/** The token lattice: Vertex, the adjacency list of one token, and the two
    graphs built from them. TokenGraph links every added token from every
    token ending where it starts; AdjacencyListGraph is the older variant
    whose offset index is never filled. */
module Graphs {
  import opened Common
  import opened Tokens

  /** The direction of a relationship; OUT is the only one the graphs use. */
  datatype RelationshipType = Out

  /** The traversal state of a vertex. */
  datatype VertexStatus = Undiscovered | Discovered | Visited

  /** A directed relationship to its end vertex. */
  datatype Relationship = Relationship(endVertex: Vertex, relationshipType: RelationshipType)

  /** The relationships of rs that end at the vertex to, in order. */
  function RelationshipsTo(rs: seq<Relationship>, to: Vertex): (r: seq<Relationship>)
    ensures |r| <= |rs|
  {
    if rs == [] then []
    else RelationshipsTo(rs[..|rs| - 1], to) + (if rs[|rs| - 1].endVertex == to then [rs[|rs| - 1]] else [])
  }

  /** RelationshipsTo keeps exactly the relationships ending at to. */
  lemma {:induction false} RelationshipsToMembers(rs: seq<Relationship>, to: Vertex, x: Relationship)
    ensures x in RelationshipsTo(rs, to) <==> x in rs && x.endVertex == to
  {
    if rs != [] {
      var n := |rs| - 1;
      RelationshipsToMembers(rs[..n], to, x);
      assert rs == rs[..n] + [rs[n]];
    }
  }

  /** A vertex of a graph: its token, its outgoing relationships in the order
      they were made, and its traversal state. */
  class Vertex {
    const element: Token
    var relationships: seq<Relationship>
    var status: VertexStatus
    var parent: Option<Vertex>

    /** A vertex holding the token, with no relationships, undiscovered and
        without a traversal parent. */
    constructor (token: Token)
      ensures element == token && relationships == [] && status == Undiscovered && parent.None?
    {
      element := token;
      relationships := [];
      status := Undiscovered;
      parent := None;
    }

    /** createRelationshipTo: one new relationship to end is appended, even
        when an equal one is already there. */
    method CreateRelationshipTo(end: Vertex, relationshipType: RelationshipType) returns (r: Relationship)
      modifies this
      ensures r == Relationship(end, relationshipType)
      ensures relationships == old(relationships) + [r]
      ensures status == old(status) && parent == old(parent)
    {
      r := Relationship(end, relationshipType);
      relationships := relationships + [r];
    }

    /** getRelationships(to): null when the vertex has no relationship at
        all, otherwise those ending at to, in order (possibly none). */
    method GetRelationships(to: Vertex) returns (r: Option<seq<Relationship>>)
      ensures relationships == [] <==> r.None?
      ensures r.Some? ==> r.value == RelationshipsTo(relationships, to)
    {
      if relationships == [] {
        return None;
      }
      var rels := [];
      var k := 0;
      while k < |relationships|
        invariant k <= |relationships|
        invariant rels == RelationshipsTo(relationships[..k], to)
      {
        assert relationships[..k + 1][..k] == relationships[..k];
        if relationships[k].endVertex == to {
          rels := rels + [relationships[k]];
        }
        k := k + 1;
      }
      assert relationships[..k] == relationships;
      return Some(rels);
    }

    /** toString delegates to the token. */
    function ToString(): (r: string)
      ensures r == Tokens.ToString(element)
    {
      Tokens.ToString(element)
    }
  }

  // ---------------------------------------------------------------------------
  // What the token graph holds, as functions of its vertex list
  // ---------------------------------------------------------------------------

  /** The vertices of vs whose token ends at e, in order. */
  function EndingAt(vs: seq<Vertex>, e: int): (r: seq<Vertex>)
    ensures |r| <= |vs|
  {
    if vs == [] then []
    else EndingAt(vs[..|vs| - 1], e) + (if vs[|vs| - 1].element.endOffset == e then [vs[|vs| - 1]] else [])
  }

  /** A vertex is among those ending at e exactly when its token ends at e. */
  lemma {:induction false} EndingAtMembers(vs: seq<Vertex>, e: int, v: Vertex)
    ensures v in EndingAt(vs, e) <==> v in vs && v.element.endOffset == e
  {
    if vs != [] {
      var n := |vs| - 1;
      EndingAtMembers(vs[..n], e, v);
      assert vs == vs[..n] + [vs[n]];
    }
  }

  /** The relationships of vertex i once every vertex of vs has been added:
      one to each later vertex starting where vertex i ends, in the order
      they were added. */
  function Successors(vs: seq<Vertex>, i: nat): seq<Relationship>
    requires i < |vs|
  {
    var n := |vs| - 1;
    if i == n then []
    else Successors(vs[..n], i) + (if vs[n].element.startOffset == vs[i].element.endOffset then [Relationship(vs[n], Out)] else [])
  }

  /** No vertex is listed twice. */
  ghost predicate Distinct(vs: seq<Vertex>)
  {
    forall i, j :: 0 <= i < j < |vs| ==> vs[i] != vs[j]
  }

  /** There is an edge from vertex i to vertex j. */
  ghost predicate Edge(vs: seq<Vertex>, i: nat, j: nat)
  {
    i < |vs| && j < |vs| && Relationship(vs[j], Out) in Successors(vs, i)
  }

  /** The edges are exactly the pairs (i, j) with i added before j and token
      j starting where token i ends. */
  lemma {:induction false} EdgeIff(vs: seq<Vertex>, i: nat, j: nat)
    requires Distinct(vs) && i < |vs| && j < |vs|
    ensures Edge(vs, i, j) <==> i < j && vs[j].element.startOffset == vs[i].element.endOffset
  {
    var n := |vs| - 1;
    if i < n {
      var pre := vs[..n];
      if j < n {
        EdgeIff(pre, i, j);
        assert pre[j] == vs[j] && pre[i] == vs[i];
        assert Relationship(vs[j], Out) != Relationship(vs[n], Out);
      } else {
        assert Relationship(vs[n], Out) !in Successors(pre, i) by {
          if Relationship(vs[n], Out) in Successors(pre, i) {
            var k :| 0 <= k < |Successors(pre, i)| && Successors(pre, i)[k] == Relationship(vs[n], Out);
            SuccessorsEarlier(pre, i, k);
            assert false;
          }
        }
      }
    }
  }

  /** Every relationship of vertex i ends at a later vertex. */
  lemma {:induction false} SuccessorsEarlier(vs: seq<Vertex>, i: nat, k: nat)
    requires i < |vs| && k < |Successors(vs, i)|
    ensures exists j :: i < j < |vs| && Successors(vs, i)[k].endVertex == vs[j]
  {
    var n := |vs| - 1;
    var pre := Successors(vs[..n], i);
    if k < |pre| {
      SuccessorsEarlier(vs[..n], i, k);
      var j :| i < j < n && pre[k].endVertex == vs[..n][j];
      assert Successors(vs, i)[k].endVertex == vs[j];
    } else {
      assert Successors(vs, i)[k].endVertex == vs[n];
    }
  }

  /** A path follows edges. */
  ghost predicate Path(vs: seq<Vertex>, p: seq<nat>)
  {
    forall k :: 0 <= k < |p| - 1 ==> Edge(vs, p[k], p[k + 1])
  }

  /** Every path runs forward through the order in which vertices were added,
      so the graph has no cycle: a path of two or more vertices never returns
      to its first vertex. */
  lemma {:induction false} PathsGoForward(vs: seq<Vertex>, p: seq<nat>)
    requires Distinct(vs) && Path(vs, p) && |p| >= 2
    ensures p[0] < p[|p| - 1]
  {
    var n := |p| - 1;
    EdgeIff(vs, p[n - 1], p[n]);
    if n > 1 {
      PathsGoForward(vs, p[..n]);
    }
  }

  /** The largest end offset among the tokens of vs, or 0. */
  function MaxEnd(vs: seq<Vertex>): (m: int)
    ensures m >= 0 && forall i :: 0 <= i < |vs| ==> vs[i].element.endOffset <= m
    ensures m == 0 || exists i :: 0 <= i < |vs| && vs[i].element.endOffset == m
  {
    if vs == [] then 0
    else
      var pre := MaxEnd(vs[..|vs| - 1]);
      var last := vs[|vs| - 1].element.endOffset;
      if pre < last then last else pre
  }

  /** The "zds" token opening every token graph. */
  function StartToken(): (t: Token)
    ensures t.value == Some("zds") && t.startOffset == -1 && t.endOffset == 0
  {
    NewToken().(value := Some("zds"), startOffset := -1, endOffset := 0)
  }

  /** The "zde" token closing a token graph whose last end offset is last. */
  function EndToken(t: Token, last: int): (r: Token)
    ensures r.value == Some("zde") && r.startOffset == last && r.endOffset == last + 1
    ensures r.isWord == t.isWord && r.types == t.types
  {
    t.(value := Some("zde"), startOffset := last, endOffset := last + 1)
  }

  /** The token graph. */
  class TokenGraph {
    var vertices: seq<Vertex>
    /** The vertices by the end offset of their tokens. */
    var index: map<int, seq<Vertex>>
    var lastIndex: int
    var start: Option<Token>
    var end: Option<Token>
    /** clear has run: the vertex list and the index are gone. */
    var cleared: bool

    ghost predicate Valid()
      reads this, vertices
    {
      && Distinct(vertices)
      && Indexes(vertices)
      && Linked(vertices, vertices)
      && (!cleared ==> lastIndex == MaxEnd(vertices))
      && (cleared ==> vertices == [] && index == map[] && start.None? && end.None?)
    }

    /** The index lists, for every end offset, the vertices of vs ending
        there, and holds no empty list. */
    ghost predicate Indexes(vs: seq<Vertex>)
      reads this
    {
      && (forall e :: e in index ==> index[e] == EndingAt(vs, e) && index[e] != [])
      && (forall e :: e !in index ==> EndingAt(vs, e) == [])
    }

    /** A graph holding the "zds" sentinel only, without edges. */
    constructor ()
      ensures Valid() && !cleared && |vertices| == 1 && vertices[0].element == StartToken()
      ensures vertices[0].relationships == [] && lastIndex == 0 && start == Some(StartToken())
      ensures end == Some(NewToken())
    {
      vertices := [];
      index := map[];
      lastIndex := 0;
      start := Some(StartToken());
      end := Some(NewToken());
      cleared := false;
      new;
      var _ := Add(StartToken());
    }

    /** getParents: the vertices whose token ends where the token starts. */
    function GetParents(element: Token, ghost vs: seq<Vertex>): (r: Option<seq<Vertex>>)
      reads this
      requires Indexes(vs)
      ensures r.Some? <==> EndingAt(vs, element.startOffset) != []
      ensures r.Some? ==> r.value == EndingAt(vs, element.startOffset)
    {
      if element.startOffset in index then Some(index[element.startOffset]) else None
    }

    /** add: lastIndex takes the token's end offset into account; a vertex for
        the token is appended, every vertex ending where the token starts gets
        an edge to it, and it is indexed by its end offset. After clear the
        vertex list is null and add throws. */
    method Add(element: Token) returns (r: Outcome)
      requires Valid()
      modifies this, vertices
      ensures Valid() && cleared == old(cleared) && start == old(start) && end == old(end)
      ensures lastIndex == if old(lastIndex) < element.endOffset then element.endOffset else old(lastIndex)
      ensures old(cleared) ==> r == Fail(NullPointer) && vertices == old(vertices) && index == old(index)
      ensures !old(cleared) ==> r == Pass && |vertices| == |old(vertices)| + 1 && vertices[..|old(vertices)|] == old(vertices)
      ensures !old(cleared) ==> (var v := vertices[|old(vertices)|];
                                 fresh(v) && v.element == element && v.relationships == [])
      ensures !old(cleared) ==>
        (forall i :: 0 <= i < |old(vertices)| ==>
           old(vertices)[i].relationships
           == old(vertices[i].relationships)
              + (if old(vertices)[i].element.endOffset == element.startOffset
                 then [Relationship(vertices[|old(vertices)|], Out)] else []))
    {
      if cleared {
        lastIndex := if lastIndex < element.endOffset then element.endOffset else lastIndex;
        return Fail(NullPointer);
      }
      ghost var vs := vertices;
      Append(element);
      forall i | 0 <= i < |vs|
        ensures vs[i].relationships
                == old(vertices[i].relationships)
                   + (if vs[i].element.endOffset == element.startOffset then [Relationship(vertices[|vs|], Out)] else [])
      {
        assert vertices[i] == vs[i];
        SuccessorsSnoc(vs, vertices[|vs|], i);
      }
      r := Pass;
    }

    /** add on a graph that has not been cleared. */
    method Append(element: Token)
      requires Valid() && !cleared
      modifies this, vertices
      ensures Valid() && !cleared && start == old(start) && end == old(end)
      ensures lastIndex == if old(lastIndex) < element.endOffset then element.endOffset else old(lastIndex)
      ensures |vertices| == |old(vertices)| + 1 && vertices[..|old(vertices)|] == old(vertices)
      ensures var v := vertices[|old(vertices)|]; fresh(v) && v.element == element && v.relationships == []
    {
      ghost var vs := vertices;
      var parents := GetParents(element, vs);
      var current := Link(element, parents, vs);
      Register(current, vs);
    }

    /** The graph side of add: lastIndex, the vertex list and the index take
        in a vertex already linked from its parents. */
    method Register(current: Vertex, ghost vs: seq<Vertex>)
      requires vertices == vs && Indexes(vs) && !cleared && lastIndex == MaxEnd(vs)
      requires Distinct(vs) && current !in vs && current.relationships == [] && Linked(vs, vs + [current])
      modifies this
      ensures Valid() && !cleared && start == old(start) && end == old(end)
      ensures lastIndex == if old(lastIndex) < current.element.endOffset then current.element.endOffset else old(lastIndex)
      ensures vertices == vs + [current]
    {
      lastIndex := if lastIndex < current.element.endOffset then current.element.endOffset else lastIndex;
      MaxEndSnoc(vs, current);
      vertices := vertices + [current];
      EndOffsetMapVertex(current, vs);
      AddedValid(vs, current);
    }

    /** The graph is valid again once the new vertex is linked and indexed. */
    lemma AddedValid(vs: seq<Vertex>, current: Vertex)
      requires vertices == vs + [current] && Distinct(vs) && current !in vs && Indexes(vertices)
      requires !cleared && lastIndex == MaxEnd(vertices) && current.relationships == []
      requires Linked(vs, vertices)
      ensures Valid()
    {
      DistinctSnoc(vs, current);
    }

    /** endOffsetMapVertex: the vertex joins the list of its end offset. */
    method EndOffsetMapVertex(v: Vertex, ghost vs: seq<Vertex>)
      requires vertices == vs + [v] && Indexes(vs)
      modifies this
      ensures vertices == old(vertices) && lastIndex == old(lastIndex) && cleared == old(cleared)
      ensures start == old(start) && end == old(end)
      ensures Indexes(vertices)
    {
      var e := v.element.endOffset;
      assert vertices[..|vs|] == vs;
      if e in index {
        index := index[e := index[e] + [v]];
      } else {
        index := index[e := [v]];
      }
    }

    /** finish: the "zde" token, from lastIndex to lastIndex + 1, is added
        and linked from every vertex ending at lastIndex. After clear the end
        token is null and finish throws before changing anything. */
    method Finish() returns (r: Outcome)
      requires Valid()
      modifies this, vertices
      ensures Valid()
      ensures old(end).None? ==> r == Fail(NullPointer) && vertices == old(vertices) && lastIndex == old(lastIndex)
      ensures old(end).Some? ==>
        (&& r == Pass && end == Some(EndToken(old(end).value, old(lastIndex)))
         && |vertices| == |old(vertices)| + 1 && vertices[..|old(vertices)|] == old(vertices)
         && vertices[|old(vertices)|].element == EndToken(old(end).value, old(lastIndex))
         && lastIndex == old(lastIndex) + 1)
      ensures old(end).Some? ==>
        (forall i :: 0 <= i < |old(vertices)| ==>
           old(vertices)[i].relationships
           == old(vertices[i].relationships)
              + (if old(vertices)[i].element.endOffset == old(lastIndex)
                 then [Relationship(vertices[|old(vertices)|], Out)] else []))
    {
      if end.None? {
        return Fail(NullPointer);
      }
      var token := EndToken(end.value, lastIndex);
      end := Some(token);
      r := Add(token);
    }

    /** clear: the vertex list and the index are emptied and dropped, and so
        are both sentinel tokens. A second clear finds the list null and
        throws before changing anything. */
    method Clear() returns (r: Outcome)
      requires Valid()
      modifies this
      ensures Valid() && cleared && lastIndex == old(lastIndex)
      ensures old(cleared) ==>
        && r == Fail(NullPointer) && vertices == old(vertices) && index == old(index)
        && start == old(start) && end == old(end)
      ensures !old(cleared) ==> r == Pass && vertices == [] && index == map[] && start.None? && end.None?
    {
      if cleared {
        return Fail(NullPointer);
      }
      r := Pass;
      vertices := [];
      index := map[];
      start := None;
      end := None;
      cleared := true;
    }
  }

  /** The vertices of vs carry the relationships they have once every
      vertex of w is added. */
  ghost predicate Linked(vs: seq<Vertex>, w: seq<Vertex>)
    reads vs
  {
    |vs| <= |w| && forall i :: 0 <= i < |vs| ==> vs[i].relationships == Successors(w, i)
  }

  /** The vertex side of add: a vertex for the token, with an OUT
      relationship to it from each of its parents. */
  method Link(element: Token, parents: Option<seq<Vertex>>, ghost vs: seq<Vertex>) returns (current: Vertex)
    requires Distinct(vs) && Linked(vs, vs)
    requires parents.Some? <==> EndingAt(vs, element.startOffset) != []
    requires parents.Some? ==> parents.value == EndingAt(vs, element.startOffset)
    modifies vs
    ensures fresh(current) && current.element == element && current.relationships == []
    ensures Linked(vs, vs + [current])
  {
    current := new Vertex(element);
    if parents.Some? {
      LinkParents(parents.value, current, vs);
    } else {
      NoParents(vs, current);
    }
  }

  /** Without parents, the earlier vertices already have their successors
      in the longer list. */
  lemma NoParents(vs: seq<Vertex>, current: Vertex)
    requires EndingAt(vs, current.element.startOffset) == [] && Linked(vs, vs)
    ensures Linked(vs, vs + [current])
  {
    forall i | 0 <= i < |vs|
      ensures vs[i].relationships == Successors(vs + [current], i)
    {
      EndingAtMembers(vs, current.element.startOffset, vs[i]);
      SuccessorsSnoc(vs, current, i);
    }
  }

  /** The loop of add over the parents: each gets one OUT relationship to
      the new vertex. */
  method LinkParents(parents: seq<Vertex>, current: Vertex, ghost vs: seq<Vertex>)
    requires parents == EndingAt(vs, current.element.startOffset) && current !in vs && Distinct(vs)
    requires current.relationships == [] && Linked(vs, vs)
    modifies vs
    ensures current.relationships == [] && Linked(vs, vs + [current])
  {
    var k := 0;
    while k < |parents|
      invariant k <= |parents|
      invariant current.relationships == []
      invariant forall i :: 0 <= i < |vs| ==>
        vs[i].relationships == old(vs[i].relationships) + (if vs[i] in parents[..k] then [Relationship(current, Out)] else [])
    {
      EndingAtMembers(vs, current.element.startOffset, parents[k]);
      EndingAtDistinct(vs, current.element.startOffset, k);
      var _ := parents[k].CreateRelationshipTo(current, Out);
      assert parents[..k + 1] == parents[..k] + [parents[k]];
      k := k + 1;
    }
    assert parents[..k] == parents;
    forall i | 0 <= i < |vs|
      ensures vs[i].relationships == Successors(vs + [current], i)
    {
      EndingAtMembers(vs, current.element.startOffset, vs[i]);
      SuccessorsSnoc(vs, current, i);
    }
  }

  /** Appending a vertex gives each earlier vertex one more successor when
      the new token starts where its token ends. */
  lemma SuccessorsSnoc(vs: seq<Vertex>, c: Vertex, i: nat)
    requires i < |vs|
    ensures Successors(vs + [c], i)
            == Successors(vs, i) + (if c.element.startOffset == vs[i].element.endOffset then [Relationship(c, Out)] else [])
  {
    assert (vs + [c])[..|vs|] == vs;
  }

  /** Appending a vertex not yet listed keeps the list free of repeats. */
  lemma DistinctSnoc(vs: seq<Vertex>, c: Vertex)
    requires Distinct(vs) && c !in vs
    ensures Distinct(vs + [c])
  {
  }

  /** Appending a vertex updates the largest end offset. */
  lemma MaxEndSnoc(vs: seq<Vertex>, v: Vertex)
    ensures MaxEnd(vs + [v]) == if MaxEnd(vs) < v.element.endOffset then v.element.endOffset else MaxEnd(vs)
  {
    assert (vs + [v])[..|vs|] == vs;
  }

  /** The vertices ending at e are listed once each when vs is. */
  lemma {:induction false} EndingAtDistinct(vs: seq<Vertex>, e: int, k: nat)
    requires Distinct(vs) && k < |EndingAt(vs, e)|
    ensures EndingAt(vs, e)[k] !in EndingAt(vs, e)[..k]
  {
    var n := |vs| - 1;
    var pre := EndingAt(vs[..n], e);
    if k < |pre| {
      EndingAtDistinct(vs[..n], e, k);
      assert EndingAt(vs, e)[..k] == pre[..k];
    } else {
      assert EndingAt(vs, e)[..k] == pre;
      EndingAtMembers(vs[..n], e, vs[n]);
      assert vs[n] !in vs[..n];
    }
  }

  /** The older adjacency-list graph. */
  class AdjacencyListGraph {
    var vertices: seq<Vertex>
    /** The offset index; add builds a list for it but never stores it. */
    var index: map<int, seq<Vertex>>

    ghost predicate Valid()
      reads this, vertices
    {
      index == map[] && forall i :: 0 <= i < |vertices| ==> vertices[i].relationships == []
    }

    /** A graph holding one vertex, for a token with offsets (-1, -1). */
    constructor ()
      ensures Valid() && |vertices| == 1
      ensures vertices[0].element == NewToken().(startOffset := -1, endOffset := -1)
    {
      vertices := [];
      index := map[];
      new;
      Add(NewToken().(startOffset := -1, endOffset := -1));
    }

    /** getParents: looks up the index one before the token's start, which
        never holds anything. */
    function GetParents(element: Token): (r: Option<seq<Vertex>>)
      reads this, vertices
      ensures Valid() ==> r.None?
    {
      if element.startOffset - 1 in index then Some(index[element.startOffset - 1]) else None
    }

    /** add: a vertex for the token is appended; the list it builds for the
        index is dropped, so no parent is ever found and no edge is made. */
    method Add(element: Token)
      requires Valid()
      modifies this
      ensures Valid() && |vertices| == |old(vertices)| + 1 && vertices[..|old(vertices)|] == old(vertices)
      ensures var v := vertices[|old(vertices)|]; fresh(v) && v.element == element
    {
      var current := new Vertex(element);
      vertices := vertices + [current];
      var parents := GetParents(element);
      assert parents.None?;
    }

    /** finish does nothing. */
    method Finish()
      requires Valid()
      modifies this
      ensures Valid() && vertices == old(vertices) && index == old(index)
    {
    }
  }
}
