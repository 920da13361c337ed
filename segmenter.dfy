/** YgSegmenter: from every start offset, walk the dictionary trie along the
    input and emit a token at every token-end node reached. */
module Segmentation {
  import opened Common
  import opened Tree
  import opened Tries
  import opened Tokens

  /** getToken: chars[s..e], end inclusive, carrying the types of the node the
      match ended on. */
  function GetToken(chars: seq<char>, types: seq<string>, s: nat, e: nat): (t: Token)
    requires s <= e < |chars|
    ensures t.value == Some(chars[s..e + 1]) && |t.value.value| == e - s + 1
    ensures t.startOffset == s && t.endOffset == e && t.types == TypesString(types) && !t.isWord
  {
    NewToken().(value := Some(chars[s..e + 1])).(startOffset := s).(endOffset := e).(types := TypesString(types))
  }

  /** input[s..e] (end inclusive) is a dictionary word: the walk from root
      along it ends at a token end. */
  ghost predicate Match(cache: map<(nat, char), nat>, nodes: seq<Node>, root: nat, input: seq<char>, s: nat, e: nat)
  {
    && s <= e < |input|
    && var w := WalkFrom(cache, root, input[s..e + 1]);
       w.Some? && w.value < |nodes| && nodes[w.value].isTokenEnd
  }

  /** t is the token for a dictionary word of the input. */
  ghost predicate Spelled(cache: map<(nat, char), nat>, nodes: seq<Node>, root: nat, input: seq<char>, t: Token)
  {
    && 0 <= t.startOffset
    && 0 <= t.endOffset
    && Match(cache, nodes, root, input, t.startOffset, t.endOffset)
    && t == GetToken(input, nodes[WalkFrom(cache, root, input[t.startOffset..t.endOffset + 1]).value].tokenTypes,
                     t.startOffset, t.endOffset)
  }

  /** Tokens come by start offset, then by end offset. */
  predicate Before(a: Token, b: Token)
  {
    a.startOffset < b.startOffset || (a.startOffset == b.startOffset && a.endOffset < b.endOffset)
  }

  /** The tokens come strictly by start, then end offset, so none repeats. */
  predicate Ordered(r: seq<Token>)
  {
    forall a, b :: 0 <= a < b < |r| ==> Before(r[a], r[b])
  }

  /** Some token of r spans s..e. */
  predicate Emits(r: seq<Token>, s: int, e: int)
  {
    exists k :: 0 <= k < |r| && r[k].startOffset == s && r[k].endOffset == e
  }

  // ---------------------------------------------------------------------------
  // The loop as the source writes it
  // ---------------------------------------------------------------------------

  /** Where the inner loop looks next after input[i]: the next char, or, past
      the end of the input, the current start again. */
  function Resume(input: seq<char>, start: nat, i: nat): nat
  {
    if i < |input| then i else start
  }

  /** The tokens getTokens emits from the state where the inner loop is about to
      look at input[i] below parent, for the current start. A dead end moves the
      start on and goes back to the root; running off the end of the input
      starts the inner loop again at the same start, but below the node reached. */
  function AsWritten(cache: map<(nat, char), nat>, nodes: seq<Node>, root: nat, input: seq<char>,
                     start: nat, i: nat, parent: nat): seq<Token>
    requires Forward(cache, |nodes|) && root < |nodes| && parent < |nodes|
    requires start <= i && (start < |input| ==> i < |input|)
    decreases |input| - start, |nodes| - parent
  {
    if start >= |input| then []
    else
      match Child(cache, parent, input[i])
      case None => AsWritten(cache, nodes, root, input, start + 1, start + 1, root)
      case Some(v) =>
        (if nodes[v].isTokenEnd then [GetToken(input, nodes[v].tokenTypes, start, i)] else [])
        + AsWritten(cache, nodes, root, input, start, Resume(input, start, i + 1), v)
  }

  /** One step of AsWritten that finds a child. */
  lemma AsWrittenHit(cache: map<(nat, char), nat>, nodes: seq<Node>, root: nat, input: seq<char>,
                     start: nat, i: nat, parent: nat, v: nat)
    requires Forward(cache, |nodes|) && root < |nodes| && parent < |nodes| && start <= i < |input|
    requires Child(cache, parent, input[i]) == Some(v)
    ensures parent < v < |nodes|
    ensures AsWritten(cache, nodes, root, input, start, i, parent)
      == (if nodes[v].isTokenEnd then [GetToken(input, nodes[v].tokenTypes, start, i)] else [])
         + AsWritten(cache, nodes, root, input, start, Resume(input, start, i + 1), v)
  {
  }

  /** One step of AsWritten at a dead end. */
  lemma AsWrittenMiss(cache: map<(nat, char), nat>, nodes: seq<Node>, root: nat, input: seq<char>,
                      start: nat, i: nat, parent: nat)
    requires Forward(cache, |nodes|) && root < |nodes| && parent < |nodes| && start <= i < |input|
    requires Child(cache, parent, input[i]).None?
    ensures AsWritten(cache, nodes, root, input, start, i, parent)
      == AsWritten(cache, nodes, root, input, start + 1, start + 1, root)
  {
  }

  /** getTokens(char[]) on non-empty input, as written. */
  function SegmentAsWritten(cache: map<(nat, char), nat>, nodes: seq<Node>, input: seq<char>): seq<Token>
    requires Forward(cache, |nodes|) && |nodes| >= 1
  {
    AsWritten(cache, nodes, 0, input, 0, 0, 0)
  }

  /** Even as written, every token lies inside the input and its value is the
      text between its offsets, end inclusive. */
  lemma {:induction false} AsWrittenBounds(cache: map<(nat, char), nat>, nodes: seq<Node>, root: nat, input: seq<char>,
                                          start: nat, i: nat, parent: nat)
    requires Forward(cache, |nodes|) && root < |nodes| && parent < |nodes|
    requires start <= i && (start < |input| ==> i < |input|)
    ensures forall t :: t in AsWritten(cache, nodes, root, input, start, i, parent) ==>
      start <= t.startOffset <= t.endOffset < |input| && t.value == Some(input[t.startOffset..t.endOffset + 1])
    decreases |input| - start, |nodes| - parent
  {
    if start < |input| {
      match Child(cache, parent, input[i])
      case None =>
        AsWrittenBounds(cache, nodes, root, input, start + 1, start + 1, root);
      case Some(v) =>
        AsWrittenBounds(cache, nodes, root, input, start, Resume(input, start, i + 1), v);
    }
  }

  /** The dictionary {"a", "aa"}: the root, the node for "a" and the node for
      "aa", both token ends of type "normal". */
  function ExampleNodes(): seq<Node>
  {
    [ Node(0, RootElement, Some(1), None, None, false, []),
      Node(1, 'a', Some(2), None, Some(0), true, ["normal"]),
      Node(2, 'a', None, None, Some(1), true, ["normal"]) ]
  }

  function ExampleCache(): map<(nat, char), nat>
  {
    map[(0, 'a') := 1, (1, 'a') := 2]
  }

  /** Each node of the example keeps the arena invariant. */
  lemma ExampleNodeOk(p: nat)
    requires p < 3
    ensures NodeOk(ExampleNodes(), [[1], [2], []], p)
  {
    var nodes: seq<Node>, children: seq<seq<nat>> := ExampleNodes(), [[1], [2], []];
    if p == 0 {
      assert KidsOk(nodes, children, 0);
    } else if p == 1 {
      assert KidsOk(nodes, children, 1);
    } else {
      assert KidsOk(nodes, children, 2);
    }
  }

  /** The example is a well-formed arena. */
  lemma ExampleShaped()
    ensures Shaped(ExampleNodes(), [[1], [2], []], 2)
  {
    var nodes, children := ExampleNodes(), [[1], [2], []];
    forall p | 0 <= p < |nodes|
      ensures NodeOk(nodes, children, p)
    {
      ExampleNodeOk(p);
    }
  }

  /** The example's cache holds exactly its parent-child edges. */
  lemma ExampleCacheExact()
    ensures CacheExact(ExampleCache(), ExampleNodes())
  {
    var nodes, cache := ExampleNodes(), ExampleCache();
    forall v | 0 <= v < |nodes| && nodes[v].parent.Some?
      ensures (nodes[v].parent.value, nodes[v].element) in cache
    {
    }
  }

  /** The example holds the words "a" and "aa", both of type "normal". */
  lemma ExampleWords()
    ensures Reaches(ExampleCache(), ExampleNodes(), "a", "normal")
    ensures Reaches(ExampleCache(), ExampleNodes(), "aa", "normal")
    ensures Forward(ExampleCache(), |ExampleNodes()|)
  {
    var cache := ExampleCache();
    assert WalkFrom(cache, 0, "a") == Some(1) by {
      assert "a"[..0] == [];
    }
    assert WalkFrom(cache, 0, "aa") == Some(2) by {
      assert "aa"[..1] == "a";
    }
  }

  /** With the dictionary {"a", "aa"} and the input "a", the loop as written
      emits the token (0, 0) twice: after "a" it runs off the end of the input,
      keeps the node for "a", starts again at offset 0 and walks to the node for
      "aa", emitting "a" once more with the types of "aa". The corrected loop
      emits it once. */
  lemma AsWrittenRepeatsToken()
    ensures Forward(ExampleCache(), |ExampleNodes()|)
    ensures var tok := GetToken("a", ["normal"], 0, 0);
      && SegmentAsWritten(ExampleCache(), ExampleNodes(), "a") == [tok, tok]
      && Segment(ExampleCache(), ExampleNodes(), "a") == [tok]
  {
    ExampleWords();
    var nodes, cache := ExampleNodes(), ExampleCache();
    var tok := GetToken("a", ["normal"], 0, 0);
    assert Child(cache, 2, 'a').None?;
    assert AsWritten(cache, nodes, 0, "a", 1, 1, 0) == [];
    assert AsWritten(cache, nodes, 0, "a", 0, 0, 2) == [];
    assert AsWritten(cache, nodes, 0, "a", 0, 0, 1) == [tok];
    assert AsWritten(cache, nodes, 0, "a", 0, 0, 0) == [tok, tok];
    assert Enumerate(cache, nodes, 0, "a", 1, 1, 0) == [];
    assert Enumerate(cache, nodes, 0, "a", 0, 1, 1) == [];
    assert Enumerate(cache, nodes, 0, "a", 0, 0, 0) == [tok];
  }

  /** The dictionary {"ab", "aba"}: the root, the node for "a" (not a word),
      and the nodes for "ab" and "aba", both token ends of type "normal". */
  function AbaNodes(): seq<Node>
  {
    [ Node(0, RootElement, Some(1), None, None, false, []),
      Node(1, 'a', Some(2), None, Some(0), false, []),
      Node(2, 'b', Some(3), None, Some(1), true, ["normal"]),
      Node(3, 'a', None, None, Some(2), true, ["normal"]) ]
  }

  function AbaCache(): map<(nat, char), nat>
  {
    map[(0, 'a') := 1, (1, 'b') := 2, (2, 'a') := 3]
  }

  /** Each node of the second example keeps the arena invariant. */
  lemma AbaNodeOk(p: nat)
    requires p < 4
    ensures NodeOk(AbaNodes(), [[1], [2], [3], []], p)
  {
    var nodes: seq<Node>, children: seq<seq<nat>> := AbaNodes(), [[1], [2], [3], []];
    if p == 0 {
      assert KidsOk(nodes, children, 0);
    } else if p == 1 {
      assert KidsOk(nodes, children, 1);
    } else if p == 2 {
      assert KidsOk(nodes, children, 2);
    } else {
      assert KidsOk(nodes, children, 3);
    }
  }

  /** The second example is a well-formed arena. */
  lemma AbaShaped()
    ensures Shaped(AbaNodes(), [[1], [2], [3], []], 3)
  {
    var nodes, children := AbaNodes(), [[1], [2], [3], []];
    forall p | 0 <= p < |nodes|
      ensures NodeOk(nodes, children, p)
    {
      AbaNodeOk(p);
    }
  }

  /** The second example's cache holds exactly its parent-child edges. */
  lemma AbaCacheExact()
    ensures CacheExact(AbaCache(), AbaNodes())
  {
    var nodes, cache := AbaNodes(), AbaCache();
    forall v | 0 <= v < |nodes| && nodes[v].parent.Some?
      ensures (nodes[v].parent.value, nodes[v].element) in cache
    {
    }
  }

  /** With the dictionary {"ab", "aba"} and the input "ab", the loop as
      written emits "ab" and then, after running off the end of the input
      below the node for "ab", starts again at offset 0 and reaches the node
      for "aba" at offset 0: it emits "a", which is no dictionary word, with
      the types of "aba", after a token that ends later. */
  lemma AsWrittenEmitsNonWord()
    ensures Forward(AbaCache(), |AbaNodes()|)
    ensures Reaches(AbaCache(), AbaNodes(), "ab", "normal")
    ensures var r := SegmentAsWritten(AbaCache(), AbaNodes(), "ab");
      && r == [GetToken("ab", ["normal"], 0, 1), GetToken("ab", ["normal"], 0, 0)]
      && !Spelled(AbaCache(), AbaNodes(), 0, "ab", r[1])
      && !Ordered(r)
  {
    var nodes, cache := AbaNodes(), AbaCache();
    var ab := GetToken("ab", ["normal"], 0, 1);
    var a := GetToken("ab", ["normal"], 0, 0);
    assert WalkFrom(cache, 0, "ab") == Some(2) by {
      assert "ab"[..1] == "a";
      assert "a"[..0] == [];
    }
    assert Child(cache, 3, 'b').None? && Child(cache, 0, 'b').None?;
    assert AsWritten(cache, nodes, 0, "ab", 2, 2, 0) == [];
    assert AsWritten(cache, nodes, 0, "ab", 1, 1, 0) == [];
    assert AsWritten(cache, nodes, 0, "ab", 0, 1, 3) == [];
    assert AsWritten(cache, nodes, 0, "ab", 0, 0, 2) == [a];
    assert AsWritten(cache, nodes, 0, "ab", 0, 1, 1) == [ab, a];
    assert AsWritten(cache, nodes, 0, "ab", 0, 0, 0) == [ab, a];
    assert "ab"[0..1] == "a";
    assert WalkFrom(cache, 0, "a") == Some(1) by {
      assert "a"[..0] == [];
    }
    var r := SegmentAsWritten(cache, nodes, "ab");
    assert r == [ab, a];
    assert !Before(r[0], r[1]);
  }

  /** On the same dictionary and input the corrected loop emits "ab" alone. */
  lemma CorrectedEmitsWordOnly()
    ensures Forward(AbaCache(), |AbaNodes()|)
    ensures Segment(AbaCache(), AbaNodes(), "ab") == [GetToken("ab", ["normal"], 0, 1)]
  {
    var nodes, cache := AbaNodes(), AbaCache();
    var ab := GetToken("ab", ["normal"], 0, 1);
    assert Child(cache, 0, 'b').None?;
    assert Enumerate(cache, nodes, 0, "ab", 2, 2, 0) == [];
    assert Enumerate(cache, nodes, 0, "ab", 1, 1, 0) == [];
    assert Enumerate(cache, nodes, 0, "ab", 0, 2, 2) == [];
    assert Enumerate(cache, nodes, 0, "ab", 0, 1, 1) == [ab];
    assert Enumerate(cache, nodes, 0, "ab", 0, 0, 0) == [ab];
  }

  // ---------------------------------------------------------------------------
  // The loop as intended: every start offset is walked from the root once
  // ---------------------------------------------------------------------------

  /** The tokens emitted from the state where the inner loop is about to look
      at input[i] below parent for the current start; a dead end and the end of
      the input alike move the start on and go back to the root. */
  function Enumerate(cache: map<(nat, char), nat>, nodes: seq<Node>, root: nat, input: seq<char>,
                     start: nat, i: nat, parent: nat): seq<Token>
    requires Forward(cache, |nodes|) && root < |nodes| && parent < |nodes| && start <= i
    decreases |input| - start, |input| - i
  {
    if start >= |input| then []
    else if i >= |input| then Enumerate(cache, nodes, root, input, start + 1, start + 1, root)
    else
      match Child(cache, parent, input[i])
      case None => Enumerate(cache, nodes, root, input, start + 1, start + 1, root)
      case Some(v) =>
        (if nodes[v].isTokenEnd then [GetToken(input, nodes[v].tokenTypes, start, i)] else [])
        + Enumerate(cache, nodes, root, input, start, i + 1, v)
  }

  /** getTokens(char[]) on non-empty input. */
  function Segment(cache: map<(nat, char), nat>, nodes: seq<Node>, input: seq<char>): seq<Token>
    requires Forward(cache, |nodes|) && |nodes| >= 1
  {
    Enumerate(cache, nodes, 0, input, 0, 0, 0)
  }

  /** One step of Enumerate that finds a child: the token for a token end,
      then the tokens from one char further below the child. */
  lemma EnumerateHit(cache: map<(nat, char), nat>, nodes: seq<Node>, root: nat, input: seq<char>,
                     start: nat, i: nat, parent: nat, v: nat)
    requires Forward(cache, |nodes|) && root < |nodes| && parent < |nodes| && start <= i < |input|
    requires Child(cache, parent, input[i]) == Some(v)
    ensures v < |nodes|
    ensures Enumerate(cache, nodes, root, input, start, i, parent)
      == (if nodes[v].isTokenEnd then [GetToken(input, nodes[v].tokenTypes, start, i)] else [])
         + Enumerate(cache, nodes, root, input, start, i + 1, v)
  {
  }

  /** One step of Enumerate that ends the walk: the tokens from the next start. */
  lemma EnumerateMiss(cache: map<(nat, char), nat>, nodes: seq<Node>, root: nat, input: seq<char>,
                      start: nat, i: nat, parent: nat)
    requires Forward(cache, |nodes|) && root < |nodes| && parent < |nodes| && start <= i && start < |input|
    requires i < |input| ==> Child(cache, parent, input[i]).None?
    ensures Enumerate(cache, nodes, root, input, start, i, parent)
      == Enumerate(cache, nodes, root, input, start + 1, start + 1, root)
  {
  }

  /** Every emitted token is a dictionary word of the input, at or after the
      current position. */
  lemma {:induction false} EnumerateSound(cache: map<(nat, char), nat>, nodes: seq<Node>, root: nat, input: seq<char>,
                                         start: nat, i: nat, parent: nat)
    requires Forward(cache, |nodes|) && root < |nodes| && parent < |nodes| && start <= i <= |input|
    requires WalkFrom(cache, root, input[start..i]) == Some(parent)
    ensures forall t :: t in Enumerate(cache, nodes, root, input, start, i, parent) ==> Spelled(cache, nodes, root, input, t)
    decreases |input| - start, |input| - i
  {
    if start < |input| {
      if i >= |input| || Child(cache, parent, input[i]).None? {
        assert input[start + 1..start + 1] == [];
        EnumerateSound(cache, nodes, root, input, start + 1, start + 1, root);
        assert Enumerate(cache, nodes, root, input, start, i, parent) == Enumerate(cache, nodes, root, input, start + 1, start + 1, root);
      } else {
        var v := Child(cache, parent, input[i]).value;
        WalkStep(cache, root, input, start, i);
        var rest := Enumerate(cache, nodes, root, input, start, i + 1, v);
        EnumerateSound(cache, nodes, root, input, start, i + 1, v);
        var head := if nodes[v].isTokenEnd then [GetToken(input, nodes[v].tokenTypes, start, i)] else [];
        if nodes[v].isTokenEnd {
          SpelledWord(cache, nodes, root, input, start, i, v);
        }
        assert Enumerate(cache, nodes, root, input, start, i, parent) == head + rest;
      }
    }
  }

  /** The token for a walk that ends at a token end is spelled by the dictionary. */
  lemma SpelledWord(cache: map<(nat, char), nat>, nodes: seq<Node>, root: nat, input: seq<char>, s: nat, e: nat, v: nat)
    requires s <= e < |input| && v < |nodes| && nodes[v].isTokenEnd
    requires WalkFrom(cache, root, input[s..e + 1]) == Some(v)
    ensures Spelled(cache, nodes, root, input, GetToken(input, nodes[v].tokenTypes, s, e))
  {
  }

  /** Tokens emitted from position (start, i) lie at or after it. */
  lemma {:induction false} EnumerateAfter(cache: map<(nat, char), nat>, nodes: seq<Node>, root: nat, input: seq<char>,
                                         start: nat, i: nat, parent: nat)
    requires Forward(cache, |nodes|) && root < |nodes| && parent < |nodes| && start <= i
    ensures forall t :: t in Enumerate(cache, nodes, root, input, start, i, parent) ==>
      t.startOffset > start || (t.startOffset == start && t.endOffset >= i)
    decreases |input| - start, |input| - i
  {
    if start < |input| {
      if i >= |input| || Child(cache, parent, input[i]).None? {
        EnumerateAfter(cache, nodes, root, input, start + 1, start + 1, root);
      } else {
        EnumerateAfter(cache, nodes, root, input, start, i + 1, Child(cache, parent, input[i]).value);
      }
    }
  }

  /** A token ahead of an ordered run of later tokens keeps it ordered. */
  lemma OrderedCons(head: seq<Token>, rest: seq<Token>, s: int, e: int)
    requires Ordered(rest) && |head| <= 1
    requires forall t :: t in head ==> t.startOffset == s && t.endOffset == e
    requires forall t :: t in rest ==> t.startOffset > s || (t.startOffset == s && t.endOffset > e)
    ensures Ordered(head + rest)
  {
    var r := head + rest;
    forall a, b | 0 <= a < b < |r|
      ensures Before(r[a], r[b])
    {
      if a < |head| {
        assert r[a] in head;
        assert r[b] == rest[b - |head|] && r[b] in rest;
      } else {
        assert r[a] == rest[a - |head|] && r[b] == rest[b - |head|];
      }
    }
  }

  /** The walk along input[start..i + 1] is the walk along input[start..i]
      followed by one cache step on input[i]. */
  lemma WalkStep(cache: map<(nat, char), nat>, root: nat, input: seq<char>, start: nat, i: nat)
    requires start <= i < |input|
    ensures WalkFrom(cache, root, input[start..i + 1]) ==
      match WalkFrom(cache, root, input[start..i])
      case None => None
      case Some(m) => Child(cache, m, input[i])
  {
    assert input[start..i + 1] == input[start..i] + [input[i]];
    WalkSnoc(cache, root, input[start..i], input[i]);
  }

  /** A dead end below parent at input[i] is a dead end for every longer word
      from the same start. */
  lemma {:induction false} DeadEnd(cache: map<(nat, char), nat>, root: nat, input: seq<char>, start: nat, i: nat, parent: nat, e: nat)
    requires start <= i <= e < |input|
    requires WalkFrom(cache, root, input[start..i]) == Some(parent) && Child(cache, parent, input[i]).None?
    ensures WalkFrom(cache, root, input[start..e + 1]).None?
  {
    if e == i {
      WalkStep(cache, root, input, start, i);
    } else {
      DeadEnd(cache, root, input, start, i, parent, e - 1);
      WalkStep(cache, root, input, start, e);
    }
  }

  /** Every dictionary word of the input at or after the current position is
      emitted. */
  lemma {:induction false} EnumerateComplete(cache: map<(nat, char), nat>, nodes: seq<Node>, root: nat, input: seq<char>,
                                            start: nat, i: nat, parent: nat, s: nat, e: nat)
    requires Forward(cache, |nodes|) && root < |nodes| && parent < |nodes| && start <= i <= |input|
    requires WalkFrom(cache, root, input[start..i]) == Some(parent)
    requires Match(cache, nodes, root, input, s, e) && (s > start || (s == start && e >= i))
    ensures Emits(Enumerate(cache, nodes, root, input, start, i, parent), s, e)
    decreases |input| - start, |input| - i, 1
  {
    if i >= |input| || Child(cache, parent, input[i]).None? {
      CompleteAfterDeadEnd(cache, nodes, root, input, start, i, parent, s, e);
    } else {
      CompleteBelowChild(cache, nodes, root, input, start, i, parent, s, e);
    }
  }

  /** The walk ends at (start, i): the word is found from a later start. */
  lemma {:induction false} CompleteAfterDeadEnd(cache: map<(nat, char), nat>, nodes: seq<Node>, root: nat, input: seq<char>,
                                               start: nat, i: nat, parent: nat, s: nat, e: nat)
    requires Forward(cache, |nodes|) && root < |nodes| && parent < |nodes| && start <= i <= |input|
    requires i >= |input| || Child(cache, parent, input[i]).None?
    requires WalkFrom(cache, root, input[start..i]) == Some(parent)
    requires Match(cache, nodes, root, input, s, e) && (s > start || (s == start && e >= i))
    ensures Emits(Enumerate(cache, nodes, root, input, start, i, parent), s, e)
    decreases |input| - start, |input| - i, 0
  {
    if s == start {
      DeadEnd(cache, root, input, start, i, parent, e);
      assert false;
    }
    assert input[start + 1..start + 1] == [];
    EnumerateComplete(cache, nodes, root, input, start + 1, start + 1, root, s, e);
    EnumerateMiss(cache, nodes, root, input, start, i, parent);
  }

  /** The walk goes on below a child: the word is the token here or one
      found further down. */
  lemma {:induction false} CompleteBelowChild(cache: map<(nat, char), nat>, nodes: seq<Node>, root: nat, input: seq<char>,
                                             start: nat, i: nat, parent: nat, s: nat, e: nat)
    requires Forward(cache, |nodes|) && root < |nodes| && parent < |nodes| && start <= i < |input|
    requires Child(cache, parent, input[i]).Some?
    requires WalkFrom(cache, root, input[start..i]) == Some(parent)
    requires Match(cache, nodes, root, input, s, e) && (s > start || (s == start && e >= i))
    ensures Emits(Enumerate(cache, nodes, root, input, start, i, parent), s, e)
    decreases |input| - start, |input| - i, 0
  {
    var v := Child(cache, parent, input[i]).value;
    WalkStep(cache, root, input, start, i);
    var head := if nodes[v].isTokenEnd then [GetToken(input, nodes[v].tokenTypes, start, i)] else [];
    var rest := Enumerate(cache, nodes, root, input, start, i + 1, v);
    EnumerateHit(cache, nodes, root, input, start, i, parent, v);
    if s == start && e == i {
      assert WalkFrom(cache, root, input[s..e + 1]) == Some(v);
      EmitsHead(head, rest, s, e);
    } else {
      assert s > start || e >= i + 1;
      EnumerateComplete(cache, nodes, root, input, start, i + 1, v, s, e);
      EmitsTail(head, rest, s, e);
    }
  }

  /** A token at the head is emitted. */
  lemma EmitsHead(head: seq<Token>, rest: seq<Token>, s: int, e: int)
    requires |head| == 1 && head[0].startOffset == s && head[0].endOffset == e
    ensures Emits(head + rest, s, e)
  {
    assert (head + rest)[0] == head[0];
  }

  /** A token emitted later is still emitted after a head. */
  lemma EmitsTail(head: seq<Token>, rest: seq<Token>, s: int, e: int)
    requires Emits(rest, s, e)
    ensures Emits(head + rest, s, e)
  {
    var k :| 0 <= k < |rest| && rest[k].startOffset == s && rest[k].endOffset == e;
    assert (head + rest)[|head| + k] == rest[k];
  }

  /** The emitted tokens are strictly ordered by start, then end, so none
      repeats. */
  lemma {:induction false} EnumerateSorted(cache: map<(nat, char), nat>, nodes: seq<Node>, root: nat, input: seq<char>,
                                          start: nat, i: nat, parent: nat)
    requires Forward(cache, |nodes|) && root < |nodes| && parent < |nodes| && start <= i
    ensures Ordered(Enumerate(cache, nodes, root, input, start, i, parent))
    decreases |input| - start, |input| - i
  {
    if start < |input| {
      if i >= |input| || Child(cache, parent, input[i]).None? {
        EnumerateSorted(cache, nodes, root, input, start + 1, start + 1, root);
        EnumerateMiss(cache, nodes, root, input, start, i, parent);
      } else {
        var v := Child(cache, parent, input[i]).value;
        var rest := Enumerate(cache, nodes, root, input, start, i + 1, v);
        EnumerateSorted(cache, nodes, root, input, start, i + 1, v);
        EnumerateAfter(cache, nodes, root, input, start, i + 1, v);
        var head := if nodes[v].isTokenEnd then [GetToken(input, nodes[v].tokenTypes, start, i)] else [];
        OrderedCons(head, rest, start, i);
        EnumerateHit(cache, nodes, root, input, start, i, parent, v);
      }
    }
  }

  /** The tokens of the corrected segmenter are exactly the dictionary words
      of the input, each with the types of the node its walk ends on. */
  lemma SegmentMembers(cache: map<(nat, char), nat>, nodes: seq<Node>, input: seq<char>, t: Token)
    requires Forward(cache, |nodes|) && |nodes| >= 1
    ensures t in Segment(cache, nodes, input) <==> Spelled(cache, nodes, 0, input, t)
  {
    var r := Segment(cache, nodes, input);
    assert input[0..0] == [];
    assert r == Enumerate(cache, nodes, 0, input, 0, 0, 0);
    EnumerateSound(cache, nodes, 0, input, 0, 0, 0);
    if Spelled(cache, nodes, 0, input, t) {
      EnumerateComplete(cache, nodes, 0, input, 0, 0, 0, t.startOffset, t.endOffset);
      var k :| 0 <= k < |r| && r[k].startOffset == t.startOffset && r[k].endOffset == t.endOffset;
      assert r[k] in r;
      assert Spelled(cache, nodes, 0, input, r[k]);
      assert r[k] == t;
    }
  }


  /** The tokens of the corrected segmenter come by start, then end offset. */
  lemma SegmentSorted(cache: map<(nat, char), nat>, nodes: seq<Node>, input: seq<char>)
    requires Forward(cache, |nodes|) && |nodes| >= 1
    ensures Ordered(Segment(cache, nodes, input))
  {
    EnumerateSorted(cache, nodes, 0, input, 0, 0, 0);
  }

  // ---------------------------------------------------------------------------
  // The segmenter object
  // ---------------------------------------------------------------------------

  class Segmenter {
    var dictionary: Trie?

    constructor ()
      ensures dictionary == null
    {
      dictionary := null;
    }

    /** setDictionary. */
    method SetDictionary(d: Trie?)
      modifies this
      ensures dictionary == d
    {
      dictionary := d;
    }

    /** checkDict: NoDictException without a dictionary. */
    method CheckDict() returns (r: Outcome)
      ensures r.Fail? <==> dictionary == null
      ensures r.Fail? ==> r.error == NoDict
    {
      if dictionary == null {
        return Fail(NoDict);
      }
      return Pass;
    }

    /** getTokens(String): null for a null or empty string, before the
        dictionary is checked; otherwise getTokens(char[]). */
    method GetTokensOfString(input: Option<string>) returns (r: Result<Option<seq<Token>>>)
      requires dictionary != null ==> dictionary.Valid()
      ensures input.None? || input.value == [] ==> r == Success(None)
      ensures input.Some? && input.value != [] && dictionary == null ==> r == Failure(NoDict)
      ensures input.Some? && input.value != [] && dictionary != null ==>
        r.Success? && r.value.Some? && (CacheForward(dictionary.cache, dictionary.tree.nodes, dictionary.tree.children, dictionary.tree.gen.last);
          r.value.value == Segment(dictionary.cache, dictionary.tree.nodes, input.value))
    {
      if input.None? || input.value == [] {
        return Success(None);
      }
      r := GetTokens(input);
    }

    /** getTokens(char[]): NoDictException first, then null for null or empty
        input, otherwise every dictionary word found from every start offset,
        by the corrected loop Scan (the source's loop is ScanAsWritten). */
    method GetTokens(input: Option<seq<char>>) returns (r: Result<Option<seq<Token>>>)
      requires dictionary != null ==> dictionary.Valid()
      ensures dictionary == null <==> r == Failure(NoDict)
      ensures dictionary != null && (input.None? || input.value == []) ==> r == Success(None)
      ensures dictionary != null && input.Some? && input.value != [] ==>
        r.Success? && r.value.Some? && (CacheForward(dictionary.cache, dictionary.tree.nodes, dictionary.tree.children, dictionary.tree.gen.last);
          r.value.value == Segment(dictionary.cache, dictionary.tree.nodes, input.value))
    {
      var checked := CheckDict();
      if checked.Fail? {
        return Failure(checked.error);
      }
      if input.None? || |input.value| < 1 {
        return Success(None);
      }
      var tokens := Scan(input.value);
      return Success(Some(tokens));
    }

    /** The loop of getTokens(char[]) with the dead end and the end of the
        input treated alike: both move the start on and go back to the root. */
    method Scan(input: seq<char>) returns (tokens: seq<Token>)
      requires dictionary != null && dictionary.Valid()
      ensures (CacheForward(dictionary.cache, dictionary.tree.nodes, dictionary.tree.children, dictionary.tree.gen.last);
        tokens == Segment(dictionary.cache, dictionary.tree.nodes, input))
    {
      var dict := dictionary;
      CacheForward(dict.cache, dict.tree.nodes, dict.tree.children, dict.tree.gen.last);
      ghost var cache, nodes := dict.cache, dict.tree.nodes;
      ghost var total := Segment(cache, nodes, input);
      var inputLength := |input|;
      tokens := [];
      var root: nat := dict.Root();
      var startOffset: nat := 0;
      while startOffset < inputLength
        invariant startOffset <= inputLength
        invariant tokens + Enumerate(cache, nodes, root, input, startOffset, startOffset, root) == total
        decreases inputLength - startOffset
      {
        var found := ScanStart(input, startOffset, root);
        assert tokens + found + Enumerate(cache, nodes, root, input, startOffset + 1, startOffset + 1, root)
            == tokens + (found + Enumerate(cache, nodes, root, input, startOffset + 1, startOffset + 1, root));
        tokens := tokens + found;
        startOffset := startOffset + 1;
      }
    }

    /** The inner loop of getTokens(char[]) for one start offset, from the root:
        the tokens it emits before a dead end or the end of the input. */
    method ScanStart(input: seq<char>, startOffset: nat, root: nat) returns (found: seq<Token>)
      requires dictionary != null && Forward(dictionary.cache, |dictionary.tree.nodes|)
      requires startOffset < |input| && root < |dictionary.tree.nodes|
      ensures found + Enumerate(dictionary.cache, dictionary.tree.nodes, root, input, startOffset + 1, startOffset + 1, root)
        == Enumerate(dictionary.cache, dictionary.tree.nodes, root, input, startOffset, startOffset, root)
    {
      var dict := dictionary;
      ghost var cache, nodes := dict.cache, dict.tree.nodes;
      ghost var whole := Enumerate(cache, nodes, root, input, startOffset, startOffset, root);
      var inputLength := |input|;
      found := [];
      var parent: nat := root;
      var currentIndex: nat := startOffset;
      while currentIndex < inputLength
        invariant startOffset <= currentIndex <= inputLength && parent < |nodes|
        invariant found + Enumerate(cache, nodes, root, input, startOffset, currentIndex, parent) == whole
        decreases inputLength - currentIndex
      {
        var child, emitted := Step(input, startOffset, root, currentIndex, parent);
        if child.None? {
          return;
        }
        ghost var rest := Enumerate(cache, nodes, root, input, startOffset, currentIndex + 1, child.value);
        assert found + emitted + rest == found + (emitted + rest);
        found := found + emitted;
        parent := child.value;
        currentIndex := currentIndex + 1;
      }
      EnumerateMiss(cache, nodes, root, input, startOffset, currentIndex, parent);
    }

    /** One turn of the inner loop: look up the child of parent for input[i]
        and, when it is a token end, build its token. */
    method Step(input: seq<char>, startOffset: nat, root: nat, i: nat, parent: nat)
      returns (child: Option<nat>, emitted: seq<Token>)
      requires dictionary != null && Forward(dictionary.cache, |dictionary.tree.nodes|)
      requires startOffset <= i < |input| && root < |dictionary.tree.nodes| && parent < |dictionary.tree.nodes|
      ensures child.None? ==>
        (Enumerate(dictionary.cache, dictionary.tree.nodes, root, input, startOffset, i, parent)
         == Enumerate(dictionary.cache, dictionary.tree.nodes, root, input, startOffset + 1, startOffset + 1, root))
      ensures child.Some? ==>
        (child.value < |dictionary.tree.nodes|
         && Enumerate(dictionary.cache, dictionary.tree.nodes, root, input, startOffset, i, parent)
            == emitted + Enumerate(dictionary.cache, dictionary.tree.nodes, root, input, startOffset, i + 1, child.value))
    {
      var dict := dictionary;
      child := dict.Find(Some(parent), input[i]).value;
      emitted := [];
      if child.None? {
        EnumerateMiss(dict.cache, dict.tree.nodes, root, input, startOffset, i, parent);
      } else {
        EnumerateHit(dict.cache, dict.tree.nodes, root, input, startOffset, i, parent, child.value);
        if dict.tree.nodes[child.value].isTokenEnd {
          emitted := [GetToken(input, dict.tree.nodes[child.value].tokenTypes, startOffset, i)];
        }
      }
    }

    /** The loop of getTokens(char[]) as the source writes it: running off the
        end of the input leaves startOffset where it was and keeps parent, so
        the inner loop starts again at startOffset below the node reached. It
        still ends, because each such restart has walked at least one step
        deeper, to a node later in the arena. */
    method ScanAsWritten(input: seq<char>) returns (tokens: seq<Token>)
      requires dictionary != null && dictionary.Valid()
      ensures (CacheForward(dictionary.cache, dictionary.tree.nodes, dictionary.tree.children, dictionary.tree.gen.last);
        tokens == SegmentAsWritten(dictionary.cache, dictionary.tree.nodes, input))
    {
      var dict := dictionary;
      CacheForward(dict.cache, dict.tree.nodes, dict.tree.children, dict.tree.gen.last);
      ghost var cache, nodes := dict.cache, dict.tree.nodes;
      ghost var total := SegmentAsWritten(cache, nodes, input);
      var inputLength := |input|;
      tokens := [];
      var root: nat := dict.Root();
      var parent: nat := root;
      var startOffset: nat := 0;
      while startOffset < inputLength
        invariant startOffset <= inputLength && parent < |nodes|
        invariant tokens + AsWritten(cache, nodes, root, input, startOffset, startOffset, parent) == total
        decreases inputLength - startOffset, |nodes| - parent
      {
        var found, nextStart, nextParent := ScanStartAsWritten(input, startOffset, root, parent);
        assert tokens + found + AsWritten(cache, nodes, root, input, nextStart, nextStart, nextParent)
            == tokens + (found + AsWritten(cache, nodes, root, input, nextStart, nextStart, nextParent));
        tokens := tokens + found;
        startOffset, parent := nextStart, nextParent;
      }
    }

    /** One pass of the outer loop as written: the inner loop from startOffset
        below parent, ending either at a dead end (the start moves on and the
        walk goes back to the root) or at the end of the input (the start stays
        and parent is the node reached, strictly later in the arena). */
    method ScanStartAsWritten(input: seq<char>, startOffset: nat, root: nat, parent: nat)
      returns (found: seq<Token>, nextStart: nat, nextParent: nat)
      requires dictionary != null && Forward(dictionary.cache, |dictionary.tree.nodes|)
      requires startOffset < |input| && root < |dictionary.tree.nodes| && parent < |dictionary.tree.nodes|
      ensures nextParent < |dictionary.tree.nodes| && nextStart <= |input|
      ensures nextStart == startOffset + 1 || (nextStart == startOffset && nextParent > parent)
      ensures found + AsWritten(dictionary.cache, dictionary.tree.nodes, root, input, nextStart, nextStart, nextParent)
        == AsWritten(dictionary.cache, dictionary.tree.nodes, root, input, startOffset, startOffset, parent)
    {
      var dict := dictionary;
      ghost var cache, nodes := dict.cache, dict.tree.nodes;
      ghost var whole := AsWritten(cache, nodes, root, input, startOffset, startOffset, parent);
      var inputLength := |input|;
      found := [];
      nextStart, nextParent := startOffset, parent;
      var currentIndex: nat := startOffset;
      ghost var at: nat := startOffset;
      while currentIndex < inputLength
        invariant startOffset <= currentIndex <= inputLength && parent <= nextParent < |nodes|
        invariant nextStart == startOffset && (currentIndex > startOffset ==> parent < nextParent)
        invariant at == Resume(input, startOffset, currentIndex)
        invariant found + AsWritten(cache, nodes, root, input, startOffset, at, nextParent) == whole
        decreases inputLength - currentIndex
      {
        var child, emitted := StepAsWritten(input, startOffset, root, currentIndex, nextParent);
        if child.None? {
          nextStart, nextParent := startOffset + 1, root;
          return;
        }
        at := Resume(input, startOffset, currentIndex + 1);
        ghost var rest := AsWritten(cache, nodes, root, input, startOffset, at, child.value);
        assert found + emitted + rest == found + (emitted + rest);
        found := found + emitted;
        nextParent := child.value;
        currentIndex := currentIndex + 1;
      }
    }

    /** One turn of the inner loop as written: look up the child of parent for
        input[i] and, when it is a token end, build its token. */
    method StepAsWritten(input: seq<char>, startOffset: nat, root: nat, i: nat, parent: nat)
      returns (child: Option<nat>, emitted: seq<Token>)
      requires dictionary != null && Forward(dictionary.cache, |dictionary.tree.nodes|)
      requires startOffset <= i < |input| && root < |dictionary.tree.nodes| && parent < |dictionary.tree.nodes|
      ensures child.None? ==>
        (AsWritten(dictionary.cache, dictionary.tree.nodes, root, input, startOffset, i, parent)
         == AsWritten(dictionary.cache, dictionary.tree.nodes, root, input, startOffset + 1, startOffset + 1, root))
      ensures child.Some? ==>
        (parent < child.value < |dictionary.tree.nodes|
         && AsWritten(dictionary.cache, dictionary.tree.nodes, root, input, startOffset, i, parent)
            == emitted + AsWritten(dictionary.cache, dictionary.tree.nodes, root, input, startOffset, Resume(input, startOffset, i + 1), child.value))
    {
      var dict := dictionary;
      child := dict.Find(Some(parent), input[i]).value;
      emitted := [];
      if child.None? {
        AsWrittenMiss(dict.cache, dict.tree.nodes, root, input, startOffset, i, parent);
      } else {
        AsWrittenHit(dict.cache, dict.tree.nodes, root, input, startOffset, i, parent, child.value);
        if dict.tree.nodes[child.value].isTokenEnd {
          emitted := [GetToken(input, dict.tree.nodes[child.value].tokenTypes, startOffset, i)];
        }
      }
    }
  }
}
