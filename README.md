# analysis-yg segmenter core, modelled in Dafny

analysis-yg is a dictionary-driven Chinese word segmenter packaged as a
Lucene analyzer and an Elasticsearch plugin. This project models its core
and proves properties of the model:

- **Dictionary trie** (`basic_tree.dfy`, `trie.dfy`). `BasicTree` is a
  first-child/next-sibling tree whose sibling elements are unique.
  `Trie` builds on it and caches every parent/child edge under the pair
  (parent, char). Nodes live in an arena (`seq<Node>` indexed by
  position); the sibling lists are kept as ghost child lists.
- **Tokens** (`tokens.dfy`). `Token` is modelled as a value. `TokenType`
  has a key lookup that ignores case and surrounding blanks.
- **Segmenter** (`segmenter.dfy`). `YgSegmenter.getTokens` walks the
  trie from every start offset and emits a token at every token-end node
  it reaches.
- **Dictionary loading** (`dictionary_files.dfy`).
  `FileDictionaryHandler` parses `word<TAB>type[<TAB>count]` lines. It
  caps the number of lines by free memory and routes the ambiguous file
  to its own trie. The two tries, the directory and the load counter are
  static fields in the source: the model keeps them in one
  `DictionaryStatics` object that every handler is given, so the
  dictionary is loaded from files once however many handlers ask.
- **Text pipeline** (`text_pipeline.dfy`):
  - `TextHandlerSharedAttribute` is the shared attribute.
  - `SentenceTextHandler` splits a reader into sentences at punctuation
    and white space. The abstract `TextHandler` is folded into it.
  - `DictBasedTextHandlerFilter` segments each sentence and hands out its
    words one per call. The abstract `TextHandlerFilter` is folded into it.
- **Token lattice** (`graphs.dfy`). `Vertex`, `TokenGraph` and the older
  `AdjacencyListGraph`.
- **Lucene side** (`token_filter.dfy`, `quantifier_regex.dfy`):
  - `YgTokenFilter` cuts not-a-word tokens into characters and drops
    pattern tokens that carry the replacement character.
  - `YgAnalyzer.getQuantifierPatternRegex` builds the number-plus-quantifier
    regular expression.

`common.dfy` holds Java's nullable reference (`Option`), the exceptions
the classes throw (`Error`), and the completions of void and
value-returning methods (`Outcome`, `Result`). `jstrings.dfy` models the
parts of `String` and `StringBuilder` the code uses: `trim`, ASCII
`toLowerCase`, `indexOf`, and the "append with a separator, then delete
the last char" idiom.

Classes whose fields the source updates are Dafny classes with `modifies`
clauses. The source's loops are methods with loop invariants, each proved
against a specification function. The main results are these:

- The trie's cache holds exactly the tree's edges, and every added word
  walks to a token end carrying its type.
- The corrected segmenter emits exactly the dictionary words of the
  input, ordered by start and then end offset, so none repeats.
- The sentences pulled one after another spell the text without its
  delimiters.
- Every edge of the token graph runs from a token to a later token that
  starts where the first ends.
- Loading stops at the first line the trie refuses and keeps what was
  added before it.
- The quantifier sort is a stable longest-first permutation.

## Model

| member | source | states |
|---|---|---|
| JStrings.TrimStart | src/main/java/com/wuda/analysis/Trie.java:48 | the result is a suffix of the input, starts with a non-blank char or is empty, and everything dropped is blank (String.trim's leading half) |
| JStrings.TrimEnd | src/main/java/com/wuda/analysis/Trie.java:48 | the result is a prefix of the input, ends with a non-blank char or is empty, and everything dropped is blank |
| JStrings.TrimStartConcat | src/main/java/com/wuda/analysis/FileDictionaryHandler.java:178 | the leading blanks of a non-blank string are all that trimming the start of a longer string removes |
| JStrings.TrimEndBlankTail | src/main/java/com/wuda/analysis/FileDictionaryHandler.java:178 | a blank tail disappears when the end is trimmed |
| JStrings.TrimmedAlready | src/main/java/com/wuda/analysis/TokenType.java:32 | a string without blanks at either end trims to itself |
| JStrings.TrimEmptyIffBlank | src/main/java/com/wuda/analysis/Trie.java:48 | trim yields the empty string exactly on an all-blank string, the test add uses to refuse a blank token |
| JStrings.TrimNonBlank | src/main/java/com/wuda/analysis/FileDictionaryHandler.java:178 | trimming a non-blank line leaves a non-empty string that trims to itself |
| JStrings.TrimBlankTail | src/main/java/com/wuda/analysis/FileDictionaryHandler.java:178 | a blank tail after a non-blank string disappears under trim |
| JStrings.TrimAdds | src/main/java/com/wuda/analysis/FileDictionaryHandler.java:248-253 | trimming adds no character: a tab missing from a line is missing from its trim |
| JStrings.LowerChar | src/main/java/com/wuda/analysis/Trie.java:63 | the result is never an upper-case ASCII letter, and every other char is unchanged |
| JStrings.Lower | src/main/java/com/wuda/analysis/TokenType.java:32 | lower-casing keeps the length of the string |
| JStrings.LowerIdempotent | src/main/java/com/wuda/analysis/TokenType.java:32 | lower-casing twice is lower-casing once |
| JStrings.IndexOf | src/main/java/com/wuda/analysis/FileDictionaryHandler.java:248 | -1 exactly when the char is absent; otherwise a position holding the char with no earlier occurrence |
| JStrings.IndexOfAfter | src/main/java/com/wuda/analysis/FileDictionaryHandler.java:248-255 | in w + c + x with c not in w, the first c is at position abs(w) |
| JStrings.TerminatedSnoc | src/main/java/com/wuda/analysis/TokenType.java:50-53 | appending one more string and its separator extends the builder by exactly those |
| JStrings.TerminatedConcat | src/main/java/org/apache/lucene/analysis/YgAnalyzer.java:288-298 | the builder contents of two lists in a row are the contents of each list put together |
| JStrings.TerminatedEndsWithSeparator | src/main/java/org/apache/lucene/analysis/YgAnalyzer.java:299 | after appending at least one string with its separator, the last char is the separator |
| JStrings.DropLastSeparator | src/main/java/com/wuda/analysis/TokenType.java:54 | deleting the last char after "append each, then a separator" gives the strings joined by the separator |
| JStrings.ConcatSnoc | src/main/java/com/wuda/analysis/SentenceTextHandler.java:54 | concatenating one more string appends it at the end |
| Tree.IdGen.IncrementAndGet | src/main/java/com/wuda/utils/tree/BasicTree.java:117 | the counter goes up by one and its new value is returned |
| Tree.IdGen.constructor | src/main/java/com/wuda/utils/tree/BasicTree.java:117 | the counter starts at -1 |
| Tree.DepthFrame | src/main/java/com/wuda/utils/tree/BasicTree.java:274-282 | the depth of a node depends only on the parent links along its path to the root |
| Tree.AppendType | src/main/java/com/wuda/utils/tree/BasicTree.java:235-240 | adding a type to the node's type set: the type is in the result, the members are the old ones plus the type, no duplicate is introduced, and adding a present type changes nothing |
| Tree.ShapeKept | src/main/java/com/wuda/utils/tree/BasicTree.java:225-240 | changing only token-end flags and types keeps the tree invariant |
| Tree.ShapeGrow | src/main/java/com/wuda/utils/tree/BasicTree.java:35-37 | appending a detached node with a fresh id keeps the tree invariant |
| Tree.LinkedNodesFrom | src/main/java/com/wuda/utils/tree/BasicTree.java:62-71 | the linked arena changes exactly the parent's firstChild or the last sibling's nextSibling, and the child's parent |
| Tree.LinkedFacts | src/main/java/com/wuda/utils/tree/BasicTree.java:62-71 | linking changes no payload and no parent except the child's, which becomes the parent |
| Tree.ShapeLink | src/main/java/com/wuda/utils/tree/BasicTree.java:51-72 | linking a detached later node under p, when no sibling shares its element, keeps the tree invariant and appends the child to p's child list |
| Tree.LinkOtherNode | src/main/java/com/wuda/utils/tree/BasicTree.java:62-71 | every node other than the parent and the child keeps its local invariant after the link |
| Tree.LinkOtherKids | src/main/java/com/wuda/utils/tree/BasicTree.java:62-71 | the child lists of other nodes keep their sibling chains after the link |
| Tree.LinkChildNode | src/main/java/com/wuda/utils/tree/BasicTree.java:71 | the linked child keeps its own children and is listed under its new parent |
| Tree.LinkParentNode | src/main/java/com/wuda/utils/tree/BasicTree.java:62-70 | the parent's chain now ends at the child; all siblings still point back to the parent and carry distinct elements |
| Tree.BasicTree.ListedChild | src/main/java/com/wuda/utils/tree/BasicTree.java:83-95 | a listed child of p witnesses that p has a child with that element |
| Tree.BasicTree.constructor | src/main/java/com/wuda/utils/tree/BasicTree.java:25 | a new tree holds only the root, with element (char) -1 and the next id |
| Tree.BasicTree.Root | src/main/java/com/wuda/utils/tree/BasicTree.java:102-104 | the root is node 0; it has no parent and depth 0 |
| Tree.BasicTree.Find | src/main/java/com/wuda/utils/tree/BasicTree.java:83-95 | null for a null parent; otherwise a child is found exactly when some child of the parent carries the element, and the child found is listed under the parent and carries it |
| Tree.BasicTree.CreateNode | src/main/java/com/wuda/utils/tree/BasicTree.java:35-37 | exactly one detached node is appended, with a fresh id greater than every earlier id; the tree invariant holds |
| Tree.BasicTree.LastChild | src/main/java/com/wuda/utils/tree/BasicTree.java:65-68 | the sibling walk from the first child ends at the last child of the parent |
| Tree.BasicTree.Link | src/main/java/com/wuda/utils/tree/BasicTree.java:51-72 | NullPointer for a null parent, then for a null child; AlreadyHasParent when the child has another parent; DuplicateElement when the parent already has a child with its element; a failure changes nothing; success makes the child the parent's last child and keeps the invariant |
| Tree.BasicTree.Attach | src/main/java/com/wuda/utils/tree/BasicTree.java:62-71 | the arena becomes the linked arena and the child joins the end of the parent's child list; the invariant holds |
| Tree.BasicTree.GetDepth | src/main/java/com/wuda/utils/tree/BasicTree.java:274-282 | the loop counts exactly the ancestors of the node |
| Tree.BasicTree.SetTokenEnd | src/main/java/com/wuda/utils/tree/BasicTree.java:225-227 | only the node's token-end flag changes, to true; the invariant holds |
| Tree.BasicTree.AppendTokenType | src/main/java/com/wuda/utils/tree/BasicTree.java:235-240 | only the node's type set changes, gaining the type; the invariant holds |
| Tree.BasicTree.GetTypes | src/main/java/com/wuda/utils/tree/BasicTree.java:254-267 | null without types; the sole type for one type; otherwise a non-empty string holding a comma |
| Tree.TypesStringSplit | src/main/java/com/wuda/utils/tree/BasicTree.java:254-267 | cut at its commas, the types string gives each of the node's types once and nothing else, whatever their order |
| JStrings.SplitJoin | src/main/java/com/wuda/utils/tree/BasicTree.java:259-264 | cutting a comma join at its commas gives back the joined strings |
| Tries.WalkSnoc | src/main/java/com/wuda/analysis/Trie.java:62-79 | the walk along w + c is the walk along w followed by one cache step on c |
| Tries.WalkMono | src/main/java/com/wuda/analysis/Trie.java:71 | a walk that succeeds keeps its end node when the cache only gains entries |
| Tries.WalkPrefix | src/main/java/com/wuda/analysis/Trie.java:62-79 | a walk that succeeds also succeeds on every prefix |
| Tries.WalkExtend | src/main/java/com/wuda/analysis/Trie.java:66-78 | a walk to p over w[..i], followed by a step cached later, reaches the cached child over w[..i + 1] |
| Tries.WalkMissing | src/main/java/com/wuda/analysis/Trie.java:66-68 | a step missing from the later cache means the whole word had no walk in the earlier cache |
| Tries.CacheForward | src/main/java/com/wuda/analysis/Trie.java:66-71 | in a well-formed tree every cached child sits later in the arena than its parent |
| Tries.CachedChild | src/main/java/com/wuda/analysis/Trie.java:113-119 | a cached child is listed under its parent and carries the char it is cached under |
| Tries.CacheGrow | src/main/java/com/wuda/analysis/Trie.java:68 | creating a detached node keeps the cache exact |
| Tries.CacheLink | src/main/java/com/wuda/analysis/Trie.java:70-71 | linking c under p and caching (p, e) to c keeps the cache equal to the tree's edges |
| Tries.KeptTrans | src/main/java/com/wuda/analysis/Trie.java:45-85 | "the cache only gains entries and the nodes only grow" is transitive |
| Tries.KeptGrows | src/main/java/com/wuda/analysis/Trie.java:45-85 | nodes that keep their payloads keep every token end and every type |
| Tries.GrowsTrans | src/main/java/com/wuda/analysis/Trie.java:45-85 | growth of token ends and types is transitive |
| Tries.KeepReaches | src/main/java/com/wuda/analysis/Trie.java:45-85 | an added word stays added when the cache only gains entries and the nodes grow |
| Tries.KeepAll | src/main/java/com/wuda/analysis/Trie.java:45-85 | every added word stays added under such growth |
| Tries.ReachesSnoc | src/main/java/com/wuda/analysis/Trie.java:83-84 | a word that reaches its type joins the list of words that already do |
| Tries.Marked | src/main/java/com/wuda/analysis/Trie.java:83-84 | the marked node is a token end whose types include the new type |
| Tries.MarkKeeps | src/main/java/com/wuda/analysis/Trie.java:83-84 | marking a node only grows the nodes and keeps the cache exact |
| Tries.Trie.constructor | src/main/java/com/wuda/analysis/Trie.java:30-35 | a new dictionary holds only the root, an empty cache and no words |
| Tries.Trie.Root | src/main/java/com/wuda/analysis/Trie.java:137-139 | the root is node 0 and has no parent |
| Tries.Trie.Find | src/main/java/com/wuda/analysis/Trie.java:113-119 | a null parent throws NullPointer; otherwise the lookup succeeds |
| Tries.Trie.FindExact | src/main/java/com/wuda/analysis/Trie.java:113-119 | find answers a child exactly when the tree has a child of p carrying c, and the answer is that child |
| Tries.Trie.Step | src/main/java/com/wuda/analysis/Trie.java:66-78 | after one loop turn, (parent, c) is cached to the returned child; nothing is lost; nothing changes when the step was already cached |
| Tries.Trie.AddChild | src/main/java/com/wuda/analysis/Trie.java:67-76 | on a miss, one new node is appended and cached under (parent, c); earlier payloads are kept; the tree and cache stay exact |
| Tries.Trie.Advance | src/main/java/com/wuda/analysis/Trie.java:62-79 | one pass of add's loop extends the walk over the lower-cased word by one char, keeping everything earlier |
| Tries.Trie.Descend | src/main/java/com/wuda/analysis/Trie.java:58-79 | the loop ends at the node the lower-cased word walks to; a word already present changes nothing |
| Tries.Trie.Mark | src/main/java/com/wuda/analysis/Trie.java:83-84 | the end node becomes a token end carrying the type; the tree and cache stay exact |
| Tries.Trie.Insert | src/main/java/com/wuda/analysis/Trie.java:58-84 | the lower-cased word and its type are recorded and reach a token end with that type; nothing earlier is lost |
| Tries.Trie.Add | src/main/java/com/wuda/analysis/Trie.java:45-85 | NullPointer for a null token, IllegalArgument for a blank one, UnknownTokenType for a null type, in that order; a failure changes nothing; success records the lower-cased word, which then walks to a token end carrying the type |
| Tokens.NewToken | src/main/java/com/wuda/analysis/Token.java:13-30 | a new token has every field at its Java default |
| Tokens.DigitChar | src/main/java/com/wuda/analysis/Token.java:113 | the char is the decimal digit of d |
| Tokens.NatString | src/main/java/com/wuda/analysis/Token.java:113 | a non-empty run of digits with no leading zero except for 0 itself |
| Tokens.NatStringRoundTrip | src/main/java/com/wuda/analysis/Token.java:113 | reading the decimal spelling back gives the number |
| Tokens.IntString | src/main/java/com/wuda/analysis/Token.java:113 | the spelling starts with '-' exactly for a negative number |
| Tokens.ToString | src/main/java/com/wuda/analysis/Token.java:112-114 | the text starts with the value (or "null") and ends with ')' |
| Tokens.ToStringValueField | src/main/java/com/wuda/analysis/Token.java:112-114 | when the value holds no tab, the first tab comes right after the value, so the value field reads back |
| Tokens.FirstWithKey | src/main/java/com/wuda/analysis/TokenType.java:34-39 | a type is found exactly when some type carries the key, and the one found carries it |
| Tokens.GetByTypeKey | src/main/java/com/wuda/analysis/TokenType.java:28-40 | null for a null or empty key; a type found carries the lower-cased, trimmed key; no type is found only when none carries it |
| Tokens.LowerPadded | src/main/java/com/wuda/analysis/TokenType.java:32 | " NORMAL " lower-cases to " normal " |
| Tokens.TrimPadded | src/main/java/com/wuda/analysis/TokenType.java:32 | " normal " trims to "normal" |
| Tokens.GetByTypeKeyPadded | src/main/java/com/wuda/analysis/TokenType.java:28-40 | surrounding blanks and upper case do not matter: " NORMAL " finds NORMAL |
| Tokens.Keys | src/main/java/com/wuda/analysis/TokenType.java:50-53 | the keys come one per type, in declaration order |
| Tokens.ShowTypes | src/main/java/com/wuda/analysis/TokenType.java:47-55 | showTypes gives the keys joined by "," |
| Graphs.RelationshipsToMembers | src/main/java/com/wuda/utils/graph/Vertex.java:83-90 | the filtered list holds exactly the relationships ending at the given vertex |
| Graphs.RelationshipsTo | src/main/java/com/wuda/utils/graph/Vertex.java:83-90 | the filtered list is never longer than the list |
| Graphs.Vertex.constructor | src/main/java/com/wuda/utils/graph/Vertex.java:51-53 | the vertex holds the token, no relationships, is undiscovered and has no parent |
| Graphs.Vertex.CreateRelationshipTo | src/main/java/com/wuda/utils/graph/Vertex.java:65-69 | exactly one relationship to the end vertex is appended and returned; nothing else changes |
| Graphs.Vertex.GetRelationships | src/main/java/com/wuda/utils/graph/Vertex.java:78-91 | null exactly when the vertex has no relationship; otherwise those ending at the given vertex, in order |
| Graphs.Vertex.ToString | src/main/java/com/wuda/utils/graph/Vertex.java:141-143 | the vertex prints as its token |
| Graphs.EndingAtMembers | src/main/java/com/wuda/utils/graph/TokenGraph.java:70-80 | a vertex is indexed under e exactly when it is in the graph and its token ends at e |
| Graphs.EndingAt | src/main/java/com/wuda/utils/graph/TokenGraph.java:70-80 | the index entry for e is never longer than the vertex list |
| Graphs.EdgeIff | src/main/java/com/wuda/utils/graph/TokenGraph.java:51-62 | there is an edge from vertex i to vertex j exactly when i was added before j and j's token starts where i's ends |
| Graphs.SuccessorsEarlier | src/main/java/com/wuda/utils/graph/TokenGraph.java:55-60 | every relationship of a vertex ends at a vertex added later |
| Graphs.PathsGoForward | src/main/java/com/wuda/utils/graph/TokenGraph.java:51-62 | every path of two or more vertices runs forward in insertion order, so the graph has no cycle |
| Graphs.MaxEnd | src/main/java/com/wuda/utils/graph/TokenGraph.java:52 | the largest end offset among the tokens (0 when none is larger) |
| Graphs.StartToken | src/main/java/com/wuda/utils/graph/TokenGraph.java:38-43 | the opening token is "zds" from -1 to 0 |
| Graphs.EndToken | src/main/java/com/wuda/utils/graph/TokenGraph.java:96-101 | the closing token is "zde" from last to last + 1; its other fields are kept |
| Graphs.TokenGraph.constructor | src/main/java/com/wuda/utils/graph/TokenGraph.java:25-43 | the new graph holds only the "zds" vertex, without edges, and lastIndex 0 |
| Graphs.TokenGraph.GetParents | src/main/java/com/wuda/utils/graph/TokenGraph.java:89-91 | null exactly when no vertex ends where the token starts; otherwise those vertices in insertion order |
| Graphs.TokenGraph.Add | src/main/java/com/wuda/utils/graph/TokenGraph.java:51-62 | lastIndex becomes the max with the token's end; after clear, NullPointer with the lists unchanged; otherwise one fresh vertex is appended, every vertex ending where the token starts gets one OUT edge to it, and the graph invariant holds |
| Graphs.TokenGraph.Append | src/main/java/com/wuda/utils/graph/TokenGraph.java:53-61 | on an uncleared graph, one fresh vertex for the token is appended with no relationships, and the invariant holds |
| Graphs.TokenGraph.Register | src/main/java/com/wuda/utils/graph/TokenGraph.java:52-61 | lastIndex, the vertex list and the index take in the new vertex, and the invariant holds |
| Graphs.TokenGraph.AddedValid | src/main/java/com/wuda/utils/graph/TokenGraph.java:51-62 | the graph invariant holds again once the new vertex is linked and indexed |
| Graphs.TokenGraph.EndOffsetMapVertex | src/main/java/com/wuda/utils/graph/TokenGraph.java:70-80 | the index lists, for every end offset, exactly the vertices ending there |
| Graphs.TokenGraph.Finish | src/main/java/com/wuda/utils/graph/TokenGraph.java:96-101 | after clear, NullPointer; otherwise the "zde" vertex from lastIndex to lastIndex + 1 is appended and lastIndex goes up by one |
| Graphs.TokenGraph.Clear | src/main/java/com/wuda/utils/graph/TokenGraph.java:106-113 | a second clear throws NullPointerException and changes nothing; otherwise the vertices, the index and both sentinels are gone; lastIndex is kept |
| Graphs.Link | src/main/java/com/wuda/utils/graph/TokenGraph.java:53-60 | a fresh vertex for the token; afterwards every earlier vertex has exactly the successors it has in the graph extended by it |
| Graphs.NoParents | src/main/java/com/wuda/utils/graph/TokenGraph.java:56 | without parents, the earlier vertices already have their successors in the extended graph |
| Graphs.LinkParents | src/main/java/com/wuda/utils/graph/TokenGraph.java:57-59 | the loop gives each parent one OUT relationship to the new vertex, which matches the extended graph's successors |
| Graphs.SuccessorsSnoc | src/main/java/com/wuda/utils/graph/TokenGraph.java:57-59 | appending a vertex gives each earlier vertex one more successor exactly when its token ends where the new one starts |
| Graphs.DistinctSnoc | src/main/java/com/wuda/utils/graph/TokenGraph.java:53-54 | appending a fresh vertex keeps the list free of repeats |
| Graphs.MaxEndSnoc | src/main/java/com/wuda/utils/graph/TokenGraph.java:52 | appending a vertex updates the largest end offset as Math.max does |
| Graphs.EndingAtDistinct | src/main/java/com/wuda/utils/graph/TokenGraph.java:70-80 | each end-offset list holds every vertex once |
| Graphs.AdjacencyListGraph.constructor | src/main/java/com/wuda/utils/graph/AdjacencyListGraph.java:27-32 | the graph holds one vertex, for a token with offsets (-1, -1) |
| Graphs.AdjacencyListGraph.GetParents | src/main/java/com/wuda/utils/graph/AdjacencyListGraph.java:67-69 | since the index is never filled, the lookup always answers null |
| Graphs.AdjacencyListGraph.Add | src/main/java/com/wuda/utils/graph/AdjacencyListGraph.java:40-54 | one fresh vertex for the token is appended; the index stays empty |
| Graphs.AdjacencyListGraph.Finish | src/main/java/com/wuda/utils/graph/AdjacencyListGraph.java:56-58 | nothing changes |
| Segmentation.GetToken | src/main/java/com/wuda/analysis/YgSegmenter.java:95-102 | the token spells chars[s..e] (end inclusive) and has length e - s + 1, offsets s and e, and the node's types |
| Segmentation.AsWrittenHit | src/main/java/com/wuda/analysis/YgSegmenter.java:66-76 | as written, a hit moves to a strictly later node and emits this node's token when it ends a word |
| Segmentation.AsWrittenMiss | src/main/java/com/wuda/analysis/YgSegmenter.java:67-71 | as written, a miss restarts from the root at the next start |
| Segmentation.EnumerateHit | src/main/java/com/wuda/analysis/YgSegmenter.java:66-76 | in the corrected loop, a hit emits this node's token when it ends a word and goes one char deeper |
| Segmentation.EnumerateMiss | src/main/java/com/wuda/analysis/YgSegmenter.java:67-71 | in the corrected loop, a miss or the end of the input restarts from the root at the next start |
| Segmentation.AsWrittenBounds | src/main/java/com/wuda/analysis/YgSegmenter.java:63-78 | even as written, every token lies inside the input and spells the text between its offsets |
| Segmentation.ExampleShaped | src/main/java/com/wuda/utils/tree/BasicTree.java:51-72 | the dictionary {a, aa} is a well-formed tree |
| Segmentation.ExampleCacheExact | src/main/java/com/wuda/analysis/Trie.java:71 | its cache holds exactly its edges |
| Segmentation.ExampleWords | src/main/java/com/wuda/analysis/Trie.java:45-85 | it holds the words "a" and "aa", both of type "normal" |
| Segmentation.AsWrittenRepeatsToken | src/main/java/com/wuda/analysis/YgSegmenter.java:63-78 | with {a, aa} and input "a", the loop as written emits the token (0, 0) twice, while the corrected loop emits it once |
| Segmentation.AbaShaped | src/main/java/com/wuda/utils/tree/BasicTree.java:51-72 | the dictionary {ab, aba} is a well-formed tree |
| Segmentation.AbaCacheExact | src/main/java/com/wuda/analysis/Trie.java:71 | its cache holds exactly its edges |
| Segmentation.AsWrittenEmitsNonWord | src/main/java/com/wuda/analysis/YgSegmenter.java:63-78 | with {ab, aba} and input "ab", the loop as written emits ab (0, 1) and then "a" (0, 0), which is no dictionary word, carries the types of "aba" and breaks the order by offsets |
| Segmentation.CorrectedEmitsWordOnly | src/main/java/com/wuda/analysis/YgSegmenter.java:63-78 | on the same input the corrected loop emits ab (0, 1) alone |
| Segmentation.EnumerateSound | src/main/java/com/wuda/analysis/YgSegmenter.java:64-76 | every emitted token is a dictionary word of the input with the types of its end node |
| Segmentation.SpelledWord | src/main/java/com/wuda/analysis/YgSegmenter.java:72-74 | the token for a walk ending at a token end is a dictionary word of the input |
| Segmentation.EnumerateAfter | src/main/java/com/wuda/analysis/YgSegmenter.java:63-78 | tokens emitted from a position lie at or after it |
| Segmentation.DeadEnd | src/main/java/com/wuda/analysis/YgSegmenter.java:67-71 | a dead end below the walk rules out every longer word from the same start |
| Segmentation.EnumerateComplete | src/main/java/com/wuda/analysis/YgSegmenter.java:63-78 | every dictionary word at or after the current position is emitted |
| Segmentation.EnumerateSorted | src/main/java/com/wuda/analysis/YgSegmenter.java:63-78 | the emitted tokens are strictly ordered by start, then end offset |
| Segmentation.SegmentMembers | src/main/java/com/wuda/analysis/YgSegmenter.java:53-80 | a token is emitted exactly when it is a dictionary word of the input |
| Segmentation.SegmentSorted | src/main/java/com/wuda/analysis/YgSegmenter.java:53-80 | the tokens come by start, then end offset, so none repeats |
| Segmentation.Segmenter.constructor | src/main/java/com/wuda/analysis/YgSegmenter.java:20 | a new segmenter has no dictionary |
| Segmentation.Segmenter.SetDictionary | src/main/java/com/wuda/analysis/YgSegmenter.java:119-121 | the dictionary is replaced |
| Segmentation.Segmenter.CheckDict | src/main/java/com/wuda/analysis/YgSegmenter.java:25-29 | NoDict exactly when there is no dictionary |
| Segmentation.Segmenter.GetTokensOfString | src/main/java/com/wuda/analysis/YgSegmenter.java:38-44 | null for a null or empty string, before the dictionary is checked; NoDict without a dictionary; otherwise the corrected segmentation of the input |
| Segmentation.Segmenter.GetTokens | src/main/java/com/wuda/analysis/YgSegmenter.java:53-80 | NoDict exactly without a dictionary; null for null or empty input; otherwise the corrected segmentation (Scan, not the loop as written), whose members and order the lemmas above give |
| Segmentation.Segmenter.Scan | src/main/java/com/wuda/analysis/YgSegmenter.java:58-79 | the corrected outer loop, walking every start from the root even when a walk runs off the end, returns the segmentation of the input |
| Segmentation.Segmenter.ScanStart | src/main/java/com/wuda/analysis/YgSegmenter.java:64-77 | the corrected inner loop for one start emits exactly the tokens of that start before the next start's |
| Segmentation.Segmenter.Step | src/main/java/com/wuda/analysis/YgSegmenter.java:65-76 | one corrected turn either ends the start at a miss or at the end of the input, or emits this node's token and moves one char deeper |
| Segmentation.Segmenter.ScanAsWritten | src/main/java/com/wuda/analysis/YgSegmenter.java:58-79 | the loop as written returns the as-written token list and terminates |
| Segmentation.Segmenter.ScanStartAsWritten | src/main/java/com/wuda/analysis/YgSegmenter.java:63-77 | one outer pass either moves the start on at a miss or stays at the same start below a strictly later node |
| Segmentation.Segmenter.StepAsWritten | src/main/java/com/wuda/analysis/YgSegmenter.java:65-76 | one turn as written: a miss restarts from the next start; a hit emits this node's token and goes to a later node |
| DictionaryFiles.Parse | src/main/java/com/wuda/analysis/FileDictionaryHandler.java:246-268 | without a tab the line is the word and there is no type; with one, word and type hold no tab |
| DictionaryFiles.ParseRecord | src/main/java/com/wuda/analysis/FileDictionaryHandler.java:246-268 | "word TAB type" parses back to its two trimmed fields |
| DictionaryFiles.ParseRecordWithCount | src/main/java/com/wuda/analysis/FileDictionaryHandler.java:254-260 | "word TAB type TAB count" parses back to its first two trimmed fields |
| DictionaryFiles.Cap | src/main/java/com/wuda/analysis/FileDictionaryHandler.java:205-216 | the budget lies between 500000 and Integer.MAX_VALUE and is unlimited exactly above 3072 MB |
| DictionaryFiles.CapMonotone | src/main/java/com/wuda/analysis/FileDictionaryHandler.java:205-216 | more free memory never lowers the budget |
| DictionaryFiles.ActualSize | src/main/java/com/wuda/analysis/FileDictionaryHandler.java:203-220 | the number of lines loaded is the smaller of the line count and the budget |
| DictionaryFiles.ActualSizeMonotone | src/main/java/com/wuda/analysis/FileDictionaryHandler.java:203-220 | more free memory never loads fewer lines |
| DictionaryFiles.GetDictType | src/main/java/com/wuda/analysis/FileDictionaryHandler.java:229-237 | a file feeds the ambiguous dictionary exactly when it carries the ambiguous file name |
| DictionaryFiles.Refusals | src/main/java/com/wuda/analysis/FileDictionaryHandler.java:175-189 | one entry per line, true exactly for the lines the trie refuses |
| DictionaryFiles.Stop | src/main/java/com/wuda/analysis/FileDictionaryHandler.java:175-189 | the loop stops at the first refused line, or at the end |
| DictionaryFiles.LineEntryRecord | src/main/java/com/wuda/analysis/FileDictionaryHandler.java:177-179 | a line "word TAB type" with non-blank ends yields its trimmed fields |
| DictionaryFiles.AddedRecord | src/main/java/com/wuda/analysis/FileDictionaryHandler.java:177-183 | such a line adds its lower-cased trimmed word with its trimmed type |
| DictionaryFiles.LineEntryBlankType | src/main/java/com/wuda/analysis/FileDictionaryHandler.java:178-179 | a line whose type is blank loses its tab to the trim of the whole line, so it has no type |
| DictionaryFiles.BlankTypeRefused | src/main/java/com/wuda/analysis/FileDictionaryHandler.java:178-183 | the trie refuses such a line with UnknownTokenType |
| DictionaryFiles.Chances | src/main/java/com/wuda/analysis/FileDictionaryHandler.java:337-345 | one answer per call |
| DictionaryFiles.NoChanceAfterwards | src/main/java/com/wuda/analysis/FileDictionaryHandler.java:337-345 | once the counter has left 0, no call gets the chance |
| DictionaryFiles.ChanceAtMostOnce | src/main/java/com/wuda/analysis/FileDictionaryHandler.java:337-345 | of any run of calls only the first can get the chance, and it does exactly when the counter is 0 |
| DictionaryFiles.FileFeedsOne | src/main/java/com/wuda/analysis/FileDictionaryHandler.java:180-184 | a file feeds one dictionary only |
| DictionaryFiles.FileOutcome | src/main/java/com/wuda/analysis/FileDictionaryHandler.java:146-194 | loading a file fails only when it has lines and one of them is refused |
| DictionaryFiles.Failures | src/main/java/com/wuda/analysis/FileDictionaryHandler.java:127-134 | one entry per file, true exactly for the files whose loading fails |
| DictionaryFiles.Attempted | src/main/java/com/wuda/analysis/FileDictionaryHandler.java:125-134 | the number of files read is at most the number of files |
| DictionaryFiles.FilesOutcome | src/main/java/com/wuda/analysis/FileDictionaryHandler.java:125-134 | loading in worker threads never fails; run in the calling thread, a failure is that of one of the files |
| DictionaryFiles.FilesWordsSnoc | src/main/java/com/wuda/analysis/FileDictionaryHandler.java:125-134 | reading one more file appends what it adds |
| DictionaryFiles.FilesStop | src/main/java/com/wuda/analysis/FileDictionaryHandler.java:127-131 | run in the calling thread, the loop stops right after the first failing file, with that file's failure |
| DictionaryFiles.DictionaryStatics.constructor | src/main/java/com/wuda/analysis/FileDictionaryHandler.java:44-62 | the static initialisers: both dictionaries empty, no directory, counter 0 |
| DictionaryFiles.FileDictionaryHandler.constructor | src/main/java/com/wuda/analysis/FileDictionaryHandler.java:67 | a new handler shares the static state it is given and leaves it as it is; asynchronous loading is on |
| DictionaryFiles.FileDictionaryHandler.Target | src/main/java/com/wuda/analysis/FileDictionaryHandler.java:180-184 | a file feeds the main or the ambiguous dictionary |
| DictionaryFiles.FileDictionaryHandler.SetDirectory | src/main/java/com/wuda/analysis/FileDictionaryHandler.java:375-377 | the shared directory is replaced; the counter and the handler's mode stay |
| DictionaryFiles.FileDictionaryHandler.TryGetLoadAllDictChance | src/main/java/com/wuda/analysis/FileDictionaryHandler.java:337-345 | the answer and the new counter are those of a compare-and-set from 0 to 1 |
| DictionaryFiles.FileDictionaryHandler.SetAsyncLoad | src/main/java/com/wuda/analysis/FileDictionaryHandler.java:83-85 | the loading mode is replaced and nothing else changes |
| DictionaryFiles.FileDictionaryHandler.LoadFromFile | src/main/java/com/wuda/analysis/FileDictionaryHandler.java:146-194 | the file's outcome; the target dictionary gains exactly the file's words; the other gains nothing |
| DictionaryFiles.FileDictionaryHandler.LoadFiles | src/main/java/com/wuda/analysis/FileDictionaryHandler.java:125-137 | the files loop yields the files' outcome; each dictionary gains the words of the files attempted, in order |
| DictionaryFiles.FileDictionaryHandler.LoadFileAt | src/main/java/com/wuda/analysis/FileDictionaryHandler.java:126-133 | one file more: its outcome, and its words appended |
| DictionaryFiles.FileDictionaryHandler.LoadAll | src/main/java/com/wuda/analysis/FileDictionaryHandler.java:93-138 | DictionaryHandle for a missing, empty or non-directory path; no load without the chance; otherwise the files loop's outcome and words |
| DictionaryFiles.FileDictionaryHandler.GetDictionary | src/main/java/com/wuda/analysis/FileDictionaryHandler.java:325-330 | once the shared counter has left 0, the shared trie with nothing changed; before that, DictionaryHandle for a bad directory, else the counter goes to 1 and the result and words are those of the files loop |
| DictionaryFiles.TwoHandlers | src/main/java/com/wuda/analysis/FileDictionaryHandler.java:28-31 | two handlers of one JVM get the same trie once the directory is good, and the files are read at most once between them |
| DictionaryFiles.LoadLine | src/main/java/com/wuda/analysis/FileDictionaryHandler.java:176-188 | a line fails exactly when refused, with add's error; the dictionary gains exactly what the line adds |
| DictionaryFiles.LoadLines | src/main/java/com/wuda/analysis/FileDictionaryHandler.java:172-190 | the loop loads the lines before the first refused one within the budget, nulls each slot it passes, and fails at a refused one |
| DictionaryFiles.LoadRun | src/main/java/com/wuda/analysis/FileDictionaryHandler.java:175-189 | the loop over the slots stops at the budget or at a refused line, and its words are those of the lines it passed |
| DictionaryFiles.StopKeeps | src/main/java/com/wuda/analysis/FileDictionaryHandler.java:175-189 | once a refused entry is found, a longer run stops there too |
| DictionaryFiles.StopFound | src/main/java/com/wuda/analysis/FileDictionaryHandler.java:175-189 | the first refused entry is where the loop stops |
| DictionaryFiles.StopAt | src/main/java/com/wuda/analysis/FileDictionaryHandler.java:175-189 | a loop that passed i unrefused slots and then a refused one stops at i |
| DictionaryFiles.LoadSlot | src/main/java/com/wuda/analysis/FileDictionaryHandler.java:176-188 | one turn at slot i: pass and null the slot, or fail with the entry's error |
| DictionaryFiles.VisitedStep | src/main/java/com/wuda/analysis/FileDictionaryHandler.java:188 | nulling an unrefused slot extends the visited prefix by one |
| DictionaryFiles.WordsStep | src/main/java/com/wuda/analysis/FileDictionaryHandler.java:180-184 | the words after line i are those of lines 0..i; a refused line adds nothing |
| DictionaryFiles.RefusedAddsNothing | src/main/java/com/wuda/analysis/FileDictionaryHandler.java:181-183 | a refused line adds no word |
| DictionaryFiles.LoadedSnoc | src/main/java/com/wuda/analysis/FileDictionaryHandler.java:175-189 | loading one more line appends what it adds |
| TextPipeline.SharedAttribute.constructor | src/main/java/com/wuda/analysis/TextHandlerSharedAttribute.java:14-22 | empty text, zero offsets, no type |
| TextPipeline.SharedAttribute.ClearAttributes | src/main/java/com/wuda/analysis/TextHandlerSharedAttribute.java:27-31 | the text and both offsets are reset; the type is kept |
| TextPipeline.SharedAttribute.AppendString | src/main/java/com/wuda/analysis/TextHandlerSharedAttribute.java:39-41 | the text grows by exactly the string |
| TextPipeline.SharedAttribute.AppendChar | src/main/java/com/wuda/analysis/TextHandlerSharedAttribute.java:49-51 | the text grows by exactly the char |
| TextPipeline.SharedAttribute.AppendChars | src/main/java/com/wuda/analysis/TextHandlerSharedAttribute.java:63-65 | NullPointer for a null array, IndexOutOfBounds for a bad range, both leaving the text; otherwise the range is appended |
| TextPipeline.SharedAttribute.TokenLength | src/main/java/com/wuda/analysis/TextHandlerSharedAttribute.java:72-74 | the length of the text |
| TextPipeline.SharedAttribute.TokenString | src/main/java/com/wuda/analysis/TextHandlerSharedAttribute.java:81-83 | the text as it is |
| TextPipeline.SharedAttribute.SetStartOffset | src/main/java/com/wuda/analysis/TextHandlerSharedAttribute.java:96-98 | the start offset is replaced; nothing else changes |
| TextPipeline.SharedAttribute.SetEndOffset | src/main/java/com/wuda/analysis/TextHandlerSharedAttribute.java:111-113 | the end offset is replaced; nothing else changes |
| TextPipeline.SharedAttribute.SetType | src/main/java/com/wuda/analysis/TextHandlerSharedAttribute.java:126-128 | the type is replaced; nothing else changes |
| TextPipeline.Reader.Read | src/main/java/com/wuda/analysis/SentenceTextHandler.java:43 | IO on a closed reader; -1 at the end; otherwise the next char, advancing by one |
| TextPipeline.Reader.constructor | src/main/java/com/wuda/analysis/TextHandler.java:42-48 | a reader over the text, open and at its start |
| TextPipeline.Reader.Close | src/main/java/com/wuda/analysis/TextHandler.java:88 | the reader is closed in place |
| TextPipeline.LeadingDelimiters | src/main/java/com/wuda/analysis/SentenceTextHandler.java:45-52 | the length of the delimiter run at the head of the text |
| TextPipeline.LeadingWord | src/main/java/com/wuda/analysis/SentenceTextHandler.java:45-54 | the length of the non-delimiter run at the head of the text |
| TextPipeline.LeadingDelimitersUnique | src/main/java/com/wuda/analysis/SentenceTextHandler.java:45-52 | a delimiter run followed by a non-delimiter or the end is that length |
| TextPipeline.LeadingWordUnique | src/main/java/com/wuda/analysis/SentenceTextHandler.java:45-54 | a word run followed by a delimiter or the end is that length |
| TextPipeline.NextSentence | src/main/java/com/wuda/analysis/SentenceTextHandler.java:37-65 | one pull: the delimiters skipped, then a run of non-delimiters that is a slice of the text, ended by a delimiter (consumed) or the end; empty exactly when the rest is all delimiters |
| TextPipeline.RemoveDelimitersConcat | src/main/java/com/wuda/analysis/SentenceTextHandler.java:45-54 | removing delimiters distributes over concatenation |
| TextPipeline.RemoveAllDelimiters | src/main/java/com/wuda/analysis/SentenceTextHandler.java:45-52 | a run of delimiters vanishes |
| TextPipeline.RemoveNoDelimiters | src/main/java/com/wuda/analysis/SentenceTextHandler.java:54 | a run without delimiters is kept |
| TextPipeline.RemoveParts | src/main/java/com/wuda/analysis/SentenceTextHandler.java:43-55 | delimiters, a word run, then delimiters: only the word run and the cleaned tail are left |
| TextPipeline.PullRemoves | src/main/java/com/wuda/analysis/SentenceTextHandler.java:37-65 | what one pull consumes, once cleaned of delimiters, is its sentence |
| TextPipeline.SentencesCover | src/main/java/com/wuda/analysis/SentenceTextHandler.java:21-65 | successive pulls yield non-empty, delimiter-free sentences that together spell the text without its delimiters |
| TextPipeline.ScannedDelimiter | src/main/java/com/wuda/analysis/SentenceTextHandler.java:45-52 | a delimiter read before any sentence char is skipped and moves the start |
| TextPipeline.ScannedWord | src/main/java/com/wuda/analysis/SentenceTextHandler.java:54 | a non-delimiter joins the sentence |
| TextPipeline.PullAt | src/main/java/com/wuda/analysis/SentenceTextHandler.java:43-55 | where the read loop stops is the pull NextSentence describes |
| TextPipeline.SentenceTextHandler.constructor | src/main/java/com/wuda/analysis/TextHandler.java:17-36 | both reader slots hold the sentinel; the counters are zero |
| TextPipeline.SentenceTextHandler.SetReader | src/main/java/com/wuda/analysis/TextHandler.java:42-49 | NullPointer for null; IllegalState while a reader is active; otherwise the reader becomes pending |
| TextPipeline.SentenceTextHandler.Reset | src/main/java/com/wuda/analysis/SentenceTextHandler.java:68-71 | the pending reader becomes the input, the pending slot the sentinel, the attribute is cleared, and both counters are zero |
| TextPipeline.SentenceTextHandler.Close | src/main/java/com/wuda/analysis/TextHandler.java:87-91 | the input is closed, both slots return to the sentinel, and the attribute is cleared |
| TextPipeline.SentenceTextHandler.IncrementToken | src/main/java/com/wuda/analysis/SentenceTextHandler.java:21-65 | IllegalState on the sentinel and IO on a closed reader; otherwise the next sentence is in the attribute with type "sentence", start = counter + skipped, end = start + length + 1, and false when no sentence is left |
| TextPipeline.SentenceTextHandler.Collect | src/main/java/com/wuda/analysis/SentenceTextHandler.java:42-55 | the read loop consumes exactly what NextSentence says and leaves its sentence in the attribute |
| TextPipeline.SentenceTextHandler.CollectStep | src/main/java/com/wuda/analysis/SentenceTextHandler.java:43-54 | one read: the loop state advances by one char, or the loop ends at a delimiter after the sentence or at the end |
| TextPipeline.WordsLocated | src/main/java/com/wuda/analysis/DictBasedTextHandlerFilter.java:58-66 | a word of the next sentence, moved by the delimiters skipped before it, spells the text between its offsets |
| TextPipeline.WordInside | src/main/java/com/wuda/analysis/DictBasedTextHandlerFilter.java:60 | a word of a sentence spells the sentence between its offsets |
| TextPipeline.DictBasedFilter.constructor | src/main/java/com/wuda/analysis/DictBasedTextHandlerFilter.java:41-43 | a filter over the input sharing its attribute, with no dictionary |
| TextPipeline.DictBasedFilter.Reset | src/main/java/com/wuda/analysis/DictBasedTextHandlerFilter.java:110-115 | the input is reset; the token list, the iterator and baseCoord are dropped |
| TextPipeline.DictBasedFilter.Close | src/main/java/com/wuda/analysis/TextHandlerFilter.java:73-75 | the close is forwarded to the input |
| TextPipeline.DictBasedFilter.FillSharedAttr | src/main/java/com/wuda/analysis/DictBasedTextHandlerFilter.java:93-100 | the next word is in the attribute, its offsets moved by baseCoord and its end made exclusive; the iterator advances |
| TextPipeline.DictBasedFilter.IncrementToken | src/main/java/com/wuda/analysis/DictBasedTextHandlerFilter.java:48-69 | NoDict until a directory is set; the words left come first; otherwise the next sentence's words under the corrected segmentation, false at the end or for a sentence without words |
| TextPipeline.DictBasedFilter.PullSentence | src/main/java/com/wuda/analysis/DictBasedTextHandlerFilter.java:58-68 | the next sentence is pulled and its words under the corrected segmentation become the list, the first handed out |
| TextPipeline.DictBasedFilter.SegmentSentence | src/main/java/com/wuda/analysis/DictBasedTextHandlerFilter.java:59-66 | the words of the sentence in the attribute under the corrected segmentation, rebased on its start; NoDict without a dictionary |
| TextPipeline.DictBasedFilter.LoadDictFrom | src/main/java/com/wuda/analysis/DictBasedTextHandlerFilter.java:77-88 | NoDict for a null directory, changing nothing; otherwise a new segmenter and handler over the shared state, the shared directory set; a second call finds the dictionary loaded and hands the same trie over without reading files; a first call gives the segmenter the trie unless loading throws |
| TextPipeline.NewSegmenter | src/main/java/com/wuda/analysis/DictBasedTextHandlerFilter.java:82-87 | a fresh segmenter and handler over the shared state; the shared trie reaches the segmenter unchanged once loaded, and otherwise gains the words of the files attempted and goes to the segmenter exactly when getDictionary completes |
| YgTokenFilters.WithoutReplacementSnoc | src/main/java/org/apache/lucene/analysis/YgTokenFilter.java:49-53 | removing the replacement char takes one more char at the end |
| YgTokenFilters.CharsSingle | src/main/java/org/apache/lucene/analysis/YgTokenFilter.java:47-53 | every piece of a not-a-word term is one char other than the replacement |
| YgTokenFilters.CharsConcat | src/main/java/org/apache/lucene/analysis/YgTokenFilter.java:47-53 | the pieces put together spell the term without the replacement char |
| YgTokenFilters.CharsCount | src/main/java/org/apache/lucene/analysis/YgTokenFilter.java:47-53 | there is one piece per char that is not the replacement |
| YgTokenFilters.NotAWordSplit | src/main/java/org/apache/lucene/analysis/YgTokenFilter.java:47-53 | a not-a-word term of any type case is cut into single chars that spell it without the replacement |
| YgTokenFilters.PatternKeptWhole | src/main/java/org/apache/lucene/analysis/YgTokenFilter.java:54-61 | a dw or enn term is kept whole exactly when it holds no replacement char, and dropped otherwise |
| YgTokenFilters.TypeCaseIgnored | src/main/java/org/apache/lucene/analysis/YgTokenFilter.java:47-55 | types that differ only in case cut a term alike |
| YgTokenFilters.Tagged | src/main/java/org/apache/lucene/analysis/YgTokenFilter.java:82-83 | each piece carries the type of its term |
| YgTokenFilters.StreamFromTerms | src/main/java/org/apache/lucene/analysis/YgTokenFilter.java:26-39 | every token handed out is a piece of some upstream term and carries its type |
| YgTokenFilters.PassThroughStream | src/main/java/org/apache/lucene/analysis/YgTokenFilter.java:62-64 | terms of other types pass unchanged, one token each |
| YgTokenFilters.Attributes.Clear | src/main/java/org/apache/lucene/analysis/YgTokenFilter.java:81 | an empty term and the default type |
| YgTokenFilters.Attributes.constructor | src/main/java/org/apache/lucene/analysis/YgTokenFilter.java:81 | an empty term and the default type |
| YgTokenFilters.Attributes.Append | src/main/java/org/apache/lucene/analysis/YgTokenFilter.java:82 | the term grows by exactly the string |
| YgTokenFilters.Attributes.SetType | src/main/java/org/apache/lucene/analysis/YgTokenFilter.java:83 | the type is replaced |
| YgTokenFilters.TokenSource.IncrementToken | src/main/java/org/apache/lucene/analysis/YgTokenFilter.java:30 | the next upstream term and type go into the attributes, or false when none is left |
| YgTokenFilters.TokenSource.constructor | src/main/java/org/apache/lucene/analysis/YgTokenFilter.java:21-23 | an open stream over the given terms, writing into the given attributes |
| YgTokenFilters.TokenSource.Close | src/main/java/org/apache/lucene/analysis/YgTokenFilter.java:91 | the stream is closed |
| YgTokenFilters.YgTokenFilter.constructor | src/main/java/org/apache/lucene/analysis/YgTokenFilter.java:21-23 | nothing buffered; what is pending is the stream of the upstream terms |
| YgTokenFilters.YgTokenFilter.DoClear | src/main/java/org/apache/lucene/analysis/YgTokenFilter.java:68-77 | the list, the iterator and the type are dropped |
| YgTokenFilters.YgTokenFilter.FillToken | src/main/java/org/apache/lucene/analysis/YgTokenFilter.java:41-66 | the list and the iterator hold the pieces of the current term; the type is remembered |
| YgTokenFilters.YgTokenFilter.FillAttr | src/main/java/org/apache/lucene/analysis/YgTokenFilter.java:79-87 | true exactly when a piece is left; then it is the term, with the remembered type; otherwise nothing changes |
| YgTokenFilters.YgTokenFilter.IncrementToken | src/main/java/org/apache/lucene/analysis/YgTokenFilter.java:26-39 | the token handed out is the head of what was pending and the rest stays pending; false exactly when nothing was pending; buffered pieces come before any upstream read |
| YgTokenFilters.YgTokenFilter.Refill | src/main/java/org/apache/lucene/analysis/YgTokenFilter.java:30-38 | the loop pulls upstream terms until one yields a piece, which is the head of the upstream stream |
| YgTokenFilters.YgTokenFilter.PullTerm | src/main/java/org/apache/lucene/analysis/YgTokenFilter.java:30-36 | one upstream term is consumed and its pieces buffered; a piece is handed out when there is one |
| YgTokenFilters.YgTokenFilter.Close | src/main/java/org/apache/lucene/analysis/YgTokenFilter.java:90-93 | the input is closed and the buffer dropped |
| QuantifierRegex.InsertSorted | src/main/java/org/apache/lucene/analysis/YgAnalyzer.java:271-281 | inserting into a longest-first list keeps it longest-first |
| QuantifierRegex.InsertMembers | src/main/java/org/apache/lucene/analysis/YgAnalyzer.java:271 | inserting adds the element and nothing else, as a multiset |
| QuantifierRegex.InsertStable | src/main/java/org/apache/lucene/analysis/YgAnalyzer.java:279 | among strings of one length, the inserted one lands in front of those already there |
| QuantifierRegex.SortLongestCorrect | src/main/java/org/apache/lucene/analysis/YgAnalyzer.java:271-281 | the sort puts longer strings first and is a permutation |
| QuantifierRegex.SortLongestStable | src/main/java/org/apache/lucene/analysis/YgAnalyzer.java:271-281 | strings of equal length keep their original order |
| QuantifierRegex.SortQuantifiersOutcome | src/main/java/org/apache/lucene/analysis/YgAnalyzer.java:270-281 | NullPointer exactly for a null list or a null among two or more entries; otherwise a longest-first permutation of the list |
| QuantifierRegex.Alternative | src/main/java/org/apache/lucene/analysis/YgAnalyzer.java:289-297 | an entry contributes at most one alternative |
| QuantifierRegex.Kept | src/main/java/org/apache/lucene/analysis/YgAnalyzer.java:288-298 | no more alternatives than entries |
| QuantifierRegex.DeleteLast | src/main/java/org/apache/lucene/analysis/YgAnalyzer.java:299 | the string loses exactly its last char |
| QuantifierRegex.DeleteLastSeparator | src/main/java/org/apache/lucene/analysis/YgAnalyzer.java:287-299 | after at least one alternative, the char deleted is the trailing "\|" and the rest is the alternatives joined by "\|" |
| QuantifierRegex.AsWrittenWhenKept | src/main/java/org/apache/lucene/analysis/YgAnalyzer.java:282-303 | whenever some quantifier is kept, the expression as written is the intended one |
| QuantifierRegex.AsWrittenDropsColon | src/main/java/org/apache/lucene/analysis/YgAnalyzer.java:287-302 | for the list ["("], every entry is skipped and the ':' of "(?:" is deleted, so the result differs from the intended one |
| QuantifierRegex.AppendAlternatives | src/main/java/org/apache/lucene/analysis/YgAnalyzer.java:288-298 | the loop appends every kept quantifier followed by "\|" |
| QuantifierRegex.AppendAlternative | src/main/java/org/apache/lucene/analysis/YgAnalyzer.java:289-297 | one turn appends the entry's alternative, if it has one, followed by "\|" |
| QuantifierRegex.KeptStep | src/main/java/org/apache/lucene/analysis/YgAnalyzer.java:288-298 | one more entry contributes its alternative |
| QuantifierRegex.QuantifierPatternRegexAsWritten | src/main/java/org/apache/lucene/analysis/YgAnalyzer.java:268-304 | the sort's failure, or the expression as written for the sorted list |
| QuantifierRegex.QuantifierPatternRegex | src/main/java/org/apache/lucene/analysis/YgAnalyzer.java:268-304 | the sort's failure, or the intended expression for the sorted list, which equals the one as written whenever some quantifier is kept |

## Left out

- Reading files, the directory watcher thread, the shutdown hook, the thread pool, the ten-second sleep before large files, `System.gc` and logging are I/O or concurrency. A file is a value holding its name, whether it is a directory, and its lines (None when reading fails).
- Free memory (`AnalysisUtil.getFreeMemoryM`) is a parameter, read once per `loadAll`; the source asks for it per file.
- Asynchronous loading is modelled as every file being loaded, one after another, with a worker's exception lost. Interleaving between workers is not modelled.
- `tryGetLoadAllDictChance` and `IdGen.IncrementAndGet` run in one thread at a time. Two dictionaries draw node ids from two counters; the source shares one static counter, and ids take part in no contract.
- `getQuantifiers` is I/O, so the quantifier list is a parameter. `Collections.sort` is a stable insertion sort on the list value. A null element among two or more makes it throw NullPointerException, as the comparator does.
- The `quantifiers == null` branch of getQuantifierPatternRegex is dead code: the sort has already thrown on a null list.
- YgTokenFilter reads `Constant.fixed_token_type_not_a_word`, `fixed_token_type_dw` and `fixed_token_type_enn`, which Constant.java does not declare. Their values are taken from `NOT_A_WORD` ("notw"), `type_dw` ("dw") and `type_enn` ("enn").
- `equalsIgnoreCase` and `toLowerCase` fold ASCII letters only. Unicode case folding and surrogate pairs are not modelled; chars are UTF-16 code units.
- The upstream Lucene TokenStream is a sequence of (term, type) pairs. Lucene's `clearAttributes` is modelled as setting an empty term and the default type "word".
- Segmentation.Segmenter.GetTokens: runs the corrected loop Scan, and so do Segmentation.Segmenter.GetTokensOfString, TextPipeline.Words and the segmentation of TextPipeline.DictBasedFilter (IncrementToken, PullSentence, SegmentSentence). The source's loop is Segmentation.Segmenter.ScanAsWritten, which resumes below the deep node when a walk runs off the end of the input (see ## Findings). There it can repeat a token, emit a string that is no dictionary word with another word's types, and break the order by offsets; those members do none of this.
- Segmentation.GetToken: `YgSegmenter.getToken` passes the node's type `Set` to `Token.setTypes`, which takes a String. The model stores the comma join of the types (Tree.TypesString), as `getTypes` builds it.
- TextPipeline.DictBasedFilter.FillSharedAttr: `fillSharedAttr` calls `Token.getTypeString`, which Token does not declare. The model writes what `Token.getTypes` returns, the comma join above, into the attribute's type.
- `Token` is modelled as a value and its setters as functional updates. The source changes a token in place after handing it on only in `TokenGraph.finish`, next line.
- Graphs.TokenGraph.Finish: builds a new end token rather than changing the graph's one `end` token in place. In the source a second `finish` also changes the token held by the vertex the first call added, while the graph's map still files that vertex under its old start offset; this aliasing is not modelled.
- Tree.BasicTree.GetTypes: joins the types in insertion order, which stands in for the iteration order of the source's HashSet; Tree.TypesString and Segmentation.GetToken's types string share this order. Tree.TypesStringSplit states what holds for every order.
- The abstract `TextHandler` and `TextHandlerFilter` are folded into their one concrete subclass each. `KeywordTextHandlerFilter` is not part of this model.
- The `input == null` test in `hasSentence` is dead code: the input slot always holds the sentinel or a reader. The reader is a character stream over a fixed text, like `StringReader`.
- `AnalysisUtil.isSentencePunctuation` is not part of this model. It is a parameter of the sentence handler.
- SentenceTextHandler sets the sentence's end offset to start + length + 1, one past an exclusive end. The model keeps this as written; only the sentence type carries that offset.
- `Relationship` ids, its start vertex and `Vertex` status changes are not modelled, and `RelationshipType` has only `OUT`. `toDot` writes a file and is left out. Trie and BasicTree `dfs` are not part of this model's source.
- Tree.BasicTree.Link: requires the parent to sit earlier in the arena than the child. The source does not check this; a cycle would make `getDepth` loop forever.
- Tree.BasicTree.Find: compares a child's char with the char looked up. Trie.java hands `find` a `NodeElement`, which declares `compareTo` but no `equals`, while BasicTree.java:83-89 compares chars with `Character.compare`; the model takes the char comparison.
- DictionaryFiles.GetDictType: `Constant.ambiguous_file_name`, read at FileDictionaryHandler.java:231, is not declared in Constant.java. Its value is the parameter `ambiguousName`, which FileWords, LoadFromFile, LoadFiles, LoadAll and GetDictionary pass on.
- Tries.Trie.Find: the string cache key (hash code + "_" + char) is modelled as the pair (parent index, char), so hash collisions are not modelled.
- `Trie.add`'s catch blocks for AlreadyHasParent and DuplicateElement are unreachable here: the node just created has no parent, and the child was just found missing.
- Integer overflow of offsets and counters is not modelled. Integers are unbounded, except the line budget, which is capped at Integer.MAX_VALUE as in the source.

## Findings

| source | as written | input that shows it | evidently intended | confidence | as-written member | corrected member |
|---|---|---|---|---|---|---|
| src/main/java/com/wuda/analysis/YgSegmenter.java:63-78 | when the inner loop runs off the end of the input without a miss, `startOffset` and `parent` are left as they are. The outer loop then starts again at the same offset below the deep node: tokens are emitted again, strings that are no dictionary word are emitted with the types of a longer word, and offsets go out of order | dictionary {"a", "aa"}, input "a": the token (0, 0) is emitted twice. Dictionary {"ab", "aba"}, input "ab": after ab (0, 1) comes "a" (0, 0), no word, typed as "aba" | each start offset is walked once from the root; the end of the input moves the start on like a miss | not executed | Segmentation.AsWrittenRepeatsToken, Segmentation.AsWrittenEmitsNonWord, Segmentation.Segmenter.ScanAsWritten | Segmentation.Segmenter.Scan, Segmentation.SegmentMembers, Segmentation.SegmentSorted |
| src/main/java/org/apache/lucene/analysis/YgAnalyzer.java:299 | `deleteCharAt(length() - 1)` runs even when no quantifier was appended, and deletes the ':' of "(?:" | quantifier list ["("] gives `(\d+\.?\d*(?))` | only a trailing "\|" is deleted | not executed | QuantifierRegex.AsWrittenDropsColon, QuantifierRegex.QuantifierPatternRegexAsWritten | QuantifierRegex.QuantifierPatternRegex, QuantifierRegex.AsWrittenWhenKept |
