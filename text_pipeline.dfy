/** The text handling chain: a reader is split into sentences by
    SentenceTextHandler, and DictBasedTextHandlerFilter turns each sentence
    into the dictionary words found in it. Both write into one shared
    attribute object. */
module TextPipeline {
  import opened Common
  import opened JStrings
  import opened Tokens
  import opened Tries
  import opened Segmentation
  import DictionaryFiles

  // ---------------------------------------------------------------------------
  // The shared attribute
  // ---------------------------------------------------------------------------

  /** TextHandlerSharedAttribute: the token text being built, its offsets
      [startOffset, endOffset) and its type. */
  class SharedAttribute {
    var token: string
    var startOffset: int
    var endOffset: int
    var tokenType: Option<string>

    /** A fresh attribute: empty text, zero offsets, no type. */
    constructor ()
      ensures token == [] && startOffset == 0 && endOffset == 0 && tokenType.None?
    {
      token := [];
      startOffset := 0;
      endOffset := 0;
      tokenType := None;
    }

    /** clearAttributes: the text and both offsets are reset; the type is
        not touched. */
    method ClearAttributes()
      modifies this`token, this`startOffset, this`endOffset
      ensures token == [] && startOffset == 0 && endOffset == 0
    {
      token := [];
      startOffset := 0;
      endOffset := 0;
    }

    /** tokenAppend(String): the text grows by exactly str. */
    method AppendString(str: string)
      modifies this`token
      ensures token == old(token) + str
    {
      token := token + str;
    }

    /** tokenAppend(char): the text grows by one character. */
    method AppendChar(c: char)
      modifies this`token
      ensures token == old(token) + [c]
    {
      token := token + [c];
    }

    /** tokenAppend(char[], offset, len): chars[offset .. offset + len) is
        appended; a null array or a range outside it throws before anything
        is appended, as StringBuilder.append does. */
    method AppendChars(chars: array?<char>, offset: int, len: int) returns (r: Outcome)
      modifies this`token
      ensures chars == null ==> r == Fail(NullPointer)
      ensures chars != null && !(0 <= offset && 0 <= len && offset + len <= chars.Length) ==> r == Fail(IndexOutOfBounds)
      ensures r.Fail? ==> token == old(token)
      ensures r.Pass? ==> chars != null && 0 <= offset <= offset + len <= chars.Length
                          && token == old(token) + chars[offset..offset + len]
    {
      if chars == null {
        return Fail(NullPointer);
      }
      if !(0 <= offset && 0 <= len && offset + len <= chars.Length) {
        return Fail(IndexOutOfBounds);
      }
      token := token + chars[offset..offset + len];
      return Pass;
    }

    /** getTokenLength. */
    function TokenLength(): (n: nat)
      reads this
      ensures n == |token|
    {
      |token|
    }

    /** getTokenString: the text, left as it is. */
    function TokenString(): (s: string)
      reads this
      ensures s == token
    {
      token
    }

    /** setStartOffset: no other field changes. */
    method SetStartOffset(s: int)
      modifies this`startOffset
      ensures startOffset == s
    {
      startOffset := s;
    }

    /** setEndOffset: no other field changes. */
    method SetEndOffset(e: int)
      modifies this`endOffset
      ensures endOffset == e
    {
      endOffset := e;
    }

    /** setType: no other field changes. */
    method SetType(t: Option<string>)
      modifies this`tokenType
      ensures tokenType == t
    {
      tokenType := t;
    }
  }

  // ---------------------------------------------------------------------------
  // Readers
  // ---------------------------------------------------------------------------

  /** A character stream over a fixed text with a read position, as a
      java.io.StringReader is. */
  class Reader {
    const text: string
    var pos: nat
    var closed: bool

    ghost predicate Valid()
      reads this
    {
      pos <= |text|
    }

    constructor (s: string)
      ensures Valid() && text == s && pos == 0 && !closed
    {
      text := s;
      pos := 0;
      closed := false;
    }

    /** The characters not read yet. */
    ghost function Rest(): string
      reads this
      requires Valid()
    {
      text[pos..]
    }

    /** read(): the next character, or None (-1) at the end; a closed reader
        throws. */
    method Read() returns (r: Result<Option<char>>)
      requires Valid()
      modifies this
      ensures Valid() && closed == old(closed)
      ensures old(closed) ==> r == Failure(IO) && pos == old(pos)
      ensures !old(closed) && old(pos) == |text| ==> r == Success(None) && pos == old(pos)
      ensures !old(closed) && old(pos) < |text| ==> r == Success(Some(text[old(pos)])) && pos == old(pos) + 1
    {
      if closed {
        return Failure(IO);
      }
      if pos == |text| {
        return Success(None);
      }
      r := Success(Some(text[pos]));
      pos := pos + 1;
    }

    /** close(). */
    method Close()
      modifies this
      ensures closed && pos == old(pos)
    {
      closed := true;
    }
  }

  /** What a handler reads from: the ILLEGAL_STATE_READER sentinel, or a
      reader set by setReader. */
  datatype Source = IllegalStateReader | Active(reader: Reader)

  // ---------------------------------------------------------------------------
  // Sentences, as functions of the text not read yet
  // ---------------------------------------------------------------------------

  /** Character.isWhitespace or Character.isSpaceChar. */
  predicate IsJavaSpace(c: char)
  {
    var n := c as int;
    || 9 <= n <= 13 || 0x1C <= n <= 0x20 || n == 0xA0 || n == 0x1680
    || 0x2000 <= n <= 0x200A || n == 0x2028 || n == 0x2029 || n == 0x202F
    || n == 0x205F || n == 0x3000
  }

  /** The characters that end a sentence: sentence punctuation, whitespace
      and space characters. */
  predicate IsDelimiter(c: char, isPunctuation: char -> bool)
  {
    isPunctuation(c) || IsJavaSpace(c)
  }

  /** The number of delimiters at the head of s. */
  function LeadingDelimiters(s: string, p: char -> bool): (k: nat)
    ensures k <= |s| && (forall i :: 0 <= i < k ==> IsDelimiter(s[i], p))
    ensures k < |s| ==> !IsDelimiter(s[k], p)
  {
    if s == [] || !IsDelimiter(s[0], p) then 0 else 1 + LeadingDelimiters(s[1..], p)
  }

  /** The number of characters at the head of s that are not delimiters. */
  function LeadingWord(s: string, p: char -> bool): (m: nat)
    ensures m <= |s| && (forall i :: 0 <= i < m ==> !IsDelimiter(s[i], p))
    ensures m < |s| ==> IsDelimiter(s[m], p)
  {
    if s == [] || IsDelimiter(s[0], p) then 0 else 1 + LeadingWord(s[1..], p)
  }

  /** A head of delimiters followed by a non-delimiter or the end is what
      LeadingDelimiters counts. */
  lemma {:induction false} LeadingDelimitersUnique(s: string, p: char -> bool, k: nat)
    requires k <= |s| && (forall i :: 0 <= i < k ==> IsDelimiter(s[i], p))
    requires k < |s| ==> !IsDelimiter(s[k], p)
    ensures LeadingDelimiters(s, p) == k
  {
    if k > 0 {
      LeadingDelimitersUnique(s[1..], p, k - 1);
    }
  }

  /** A head of non-delimiters followed by a delimiter or the end is what
      LeadingWord counts. */
  lemma {:induction false} LeadingWordUnique(s: string, p: char -> bool, m: nat)
    requires m <= |s| && (forall i :: 0 <= i < m ==> !IsDelimiter(s[i], p))
    requires m < |s| ==> IsDelimiter(s[m], p)
    ensures LeadingWord(s, p) == m
  {
    if m > 0 {
      LeadingWordUnique(s[1..], p, m - 1);
    }
  }

  /** One pull of the sentence splitter: the delimiters skipped, the
      sentence, and how many characters were read. */
  datatype Pull = Pull(skipped: nat, sentence: string, consumed: nat)

  /** The next sentence of rest: leading delimiters are skipped, the
      sentence runs up to the next delimiter, and that delimiter is read
      too. An empty sentence means rest held delimiters only. */
  function NextSentence(rest: string, p: char -> bool): (r: Pull)
    ensures r.skipped + |r.sentence| <= r.consumed <= |rest|
    ensures r.sentence == rest[r.skipped..r.skipped + |r.sentence|]
    ensures forall i :: 0 <= i < |r.sentence| ==> !IsDelimiter(r.sentence[i], p)
    ensures forall i :: 0 <= i < r.skipped ==> IsDelimiter(rest[i], p)
    ensures r.sentence == [] <==> r.consumed == |rest| && forall i :: 0 <= i < |rest| ==> IsDelimiter(rest[i], p)
    ensures r.skipped + |r.sentence| < |rest| ==> IsDelimiter(rest[r.skipped + |r.sentence|], p)
    ensures r.sentence != [] ==> r.consumed == r.skipped + |r.sentence| + (if r.skipped + |r.sentence| < |rest| then 1 else 0)
  {
    var k := LeadingDelimiters(rest, p);
    var m := LeadingWord(rest[k..], p);
    Pull(k, rest[k..k + m], if m > 0 && k + m < |rest| then k + m + 1 else k + m)
  }

  /** The text without its delimiters. */
  function RemoveDelimiters(s: string, p: char -> bool): string
  {
    if s == [] then []
    else (if IsDelimiter(s[0], p) then [] else [s[0]]) + RemoveDelimiters(s[1..], p)
  }

  /** Removing delimiters distributes over concatenation. */
  lemma {:induction false} RemoveDelimitersConcat(a: string, b: string, p: char -> bool)
    ensures RemoveDelimiters(a + b, p) == RemoveDelimiters(a, p) + RemoveDelimiters(b, p)
  {
    if a != [] {
      assert (a + b)[0] == a[0] && (a + b)[1..] == a[1..] + b;
      RemoveDelimitersConcat(a[1..], b, p);
    } else {
      assert a + b == b;
    }
  }

  /** A run of delimiters vanishes. */
  lemma {:induction false} RemoveAllDelimiters(s: string, p: char -> bool)
    requires forall i :: 0 <= i < |s| ==> IsDelimiter(s[i], p)
    ensures RemoveDelimiters(s, p) == []
  {
    if s != [] {
      RemoveAllDelimiters(s[1..], p);
    }
  }

  /** A run without delimiters is kept. */
  lemma {:induction false} RemoveNoDelimiters(s: string, p: char -> bool)
    requires forall i :: 0 <= i < |s| ==> !IsDelimiter(s[i], p)
    ensures RemoveDelimiters(s, p) == s
  {
    if s != [] {
      RemoveNoDelimiters(s[1..], p);
    }
  }

  /** Delimiters, then a run without any, then delimiters again: only the
      run is left once the delimiters are gone. */
  lemma RemoveParts(skipped: string, run: string, after: string, tail: string, p: char -> bool)
    requires forall i :: 0 <= i < |skipped| ==> IsDelimiter(skipped[i], p)
    requires forall i :: 0 <= i < |run| ==> !IsDelimiter(run[i], p)
    requires forall i :: 0 <= i < |after| ==> IsDelimiter(after[i], p)
    ensures RemoveDelimiters(skipped + run + after + tail, p) == run + RemoveDelimiters(tail, p)
  {
    RemoveAllDelimiters(skipped, p);
    RemoveNoDelimiters(run, p);
    RemoveAllDelimiters(after, p);
    RemoveDelimitersConcat(skipped + run + after, tail, p);
    RemoveDelimitersConcat(skipped + run, after, p);
    RemoveDelimitersConcat(skipped, run, p);
    assert [] + run + [] == run;
  }

  /** A text is its four consecutive slices put together. */
  lemma SplitFour(s: string, a: nat, b: nat, c: nat)
    requires a <= b <= c <= |s|
    ensures s == s[..a] + s[a..b] + s[b..c] + s[c..]
  {
    assert s[..b] == s[..a] + s[a..b];
    assert s[..c] == s[..b] + s[b..c];
    assert s == s[..c] + s[c..];
  }

  /** What one pull reads is its sentence once the delimiters are gone. */
  lemma PullRemoves(rest: string, p: char -> bool)
    ensures var r := NextSentence(rest, p);
            RemoveDelimiters(rest, p) == r.sentence + RemoveDelimiters(rest[r.consumed..], p)
  {
    var r := NextSentence(rest, p);
    var k, m, c := r.skipped, |r.sentence|, r.consumed;
    SplitFour(rest, k, k + m, c);
    var after := rest[k + m..c];
    assert |after| <= 1 && (|after| == 1 ==> after[0] == rest[k + m]);
    RemoveParts(rest[..k], r.sentence, after, rest[c..], p);
  }

  /** Every sentence of rest, pulled one after another until a pull finds
      none. */
  function Sentences(rest: string, p: char -> bool): (r: seq<string>)
    decreases |rest|
  {
    var n := NextSentence(rest, p);
    if n.sentence == [] then [] else [n.sentence] + Sentences(rest[n.consumed..], p)
  }

  /** The sentences are non-empty, hold no delimiter, and together spell the
      text without its delimiters. */
  lemma {:induction false} SentencesCover(rest: string, p: char -> bool)
    ensures Concat(Sentences(rest, p)) == RemoveDelimiters(rest, p)
    ensures forall s :: s in Sentences(rest, p) ==> s != [] && forall i :: 0 <= i < |s| ==> !IsDelimiter(s[i], p)
    decreases |rest|
  {
    var n := NextSentence(rest, p);
    PullRemoves(rest, p);
    if n.sentence == [] {
      RemoveAllDelimiters(rest, p);
    } else {
      SentencesCover(rest[n.consumed..], p);
      var xs := Sentences(rest, p);
      assert xs[0] == n.sentence && xs[1..] == Sentences(rest[n.consumed..], p);
    }
  }

  /** After reading rest[..j]: k delimiters were skipped, and token, the
      characters read since, holds no delimiter. */
  ghost predicate Scanned(rest: string, p: char -> bool, j: nat, k: nat, token: string)
  {
    && k + |token| == j <= |rest|
    && (forall i :: 0 <= i < k ==> IsDelimiter(rest[i], p))
    && token == rest[k..j]
    && (forall i :: 0 <= i < |token| ==> !IsDelimiter(token[i], p))
  }

  /** A delimiter read before any sentence character is skipped. */
  lemma ScannedDelimiter(rest: string, p: char -> bool, j: nat, k: nat)
    requires Scanned(rest, p, j, k, []) && j < |rest| && IsDelimiter(rest[j], p)
    ensures Scanned(rest, p, j + 1, k + 1, [])
  {
  }

  /** A character that is not a delimiter joins the sentence. */
  lemma ScannedWord(rest: string, p: char -> bool, j: nat, k: nat, token: string)
    requires Scanned(rest, p, j, k, token) && j < |rest| && !IsDelimiter(rest[j], p)
    ensures Scanned(rest, p, j + 1, k, token + [rest[j]])
  {
    assert rest[k..j + 1] == rest[k..j] + [rest[j]];
  }

  /** A pull that stopped at the end of the text, or on the delimiter after
      a non-empty sentence, took the next sentence. */
  lemma PullAt(rest: string, p: char -> bool, k: nat, token: string, c: nat)
    requires Scanned(rest, p, k + |token|, k, token)
    requires (k + |token| == |rest| && c == |rest|)
             || (token != [] && k + |token| < |rest| && IsDelimiter(rest[k + |token|], p) && c == k + |token| + 1)
    ensures NextSentence(rest, p) == Pull(k, token, c)
  {
    LeadingDelimitersUnique(rest, p, k);
    assert forall i :: 0 <= i < |token| ==> rest[k..][i] == token[i];
    LeadingWordUnique(rest[k..], p, |token|);
  }

  // ---------------------------------------------------------------------------
  // SentenceTextHandler, with the reader life cycle of TextHandler
  // ---------------------------------------------------------------------------

  /** SentenceTextHandler: the one concrete TextHandler. Its reader life
      cycle (setReader, reset, close and the ILLEGAL_STATE_READER sentinel)
      comes from TextHandler. */
  class SentenceTextHandler {
    const attribute: SharedAttribute
    /** AnalysisUtil.isSentencePunctuation. */
    const isPunctuation: char -> bool
    var input: Source
    var inputPending: Source
    var startOffset: nat
    /** How many characters this handler has read since reset. */
    var currentIndex: nat

    /** The readers the handler holds. */
    function Readers(): set<object>
      reads this
    {
      (if input.Active? then {input.reader} else {}) + (if inputPending.Active? then {inputPending.reader} else {})
    }

    /** The readers are well formed, at most one of input and inputPending
        is a real reader, and between pulls the next sentence starts where
        reading stopped. */
    ghost predicate Valid()
      reads this, Readers()
    {
      && (input.Active? ==> input.reader.Valid())
      && (inputPending.Active? ==> inputPending.reader.Valid())
      && (input.IllegalStateReader? || inputPending.IllegalStateReader?)
      && startOffset == currentIndex
    }

    /** What the next pull yields: the sentinel throws, a closed reader
        throws, and otherwise the next sentence of the text not read yet. */
    ghost function NextPull(): Result<Pull>
      reads this, Readers()
      requires Valid()
    {
      if input.IllegalStateReader? then Failure(IllegalState)
      else if input.reader.closed then Failure(IO)
      else Success(NextSentence(input.reader.Rest(), isPunctuation))
    }

    /** A handler writing into attribute, with both readers at the
        sentinel. */
    constructor (attribute: SharedAttribute, isPunctuation: char -> bool)
      ensures Valid() && this.attribute == attribute && this.isPunctuation == isPunctuation
      ensures input == IllegalStateReader && inputPending == IllegalStateReader
      ensures startOffset == 0 && currentIndex == 0
    {
      this.attribute := attribute;
      this.isPunctuation := isPunctuation;
      input := IllegalStateReader;
      inputPending := IllegalStateReader;
      startOffset := 0;
      currentIndex := 0;
    }

    /** setReader: a null reader throws NullPointerException; while a reader
        is active (close was not called) it throws IllegalStateException;
        otherwise the reader waits as pending until reset. */
    method SetReader(reader: Reader?) returns (r: Outcome)
      requires Valid() && (reader != null ==> reader.Valid())
      modifies this
      ensures Valid() && input == old(input) && currentIndex == old(currentIndex)
      ensures reader == null ==> r == Fail(NullPointer) && inputPending == old(inputPending)
      ensures reader != null && input.Active? ==> r == Fail(IllegalState) && inputPending == old(inputPending)
      ensures reader != null && input.IllegalStateReader? ==> r == Pass && inputPending == Active(reader)
    {
      if reader == null {
        return Fail(NullPointer);
      } else if input.Active? {
        return Fail(IllegalState);
      }
      inputPending := Active(reader);
      return Pass;
    }

    /** reset: the pending reader becomes the input, the pending slot goes
        back to the sentinel, the attribute is cleared, and the offsets
        start again from 0. */
    method Reset()
      requires Valid()
      modifies this, attribute
      ensures Valid() && input == old(inputPending) && inputPending == IllegalStateReader
      ensures startOffset == 0 && currentIndex == 0
      ensures attribute.token == [] && attribute.startOffset == 0 && attribute.endOffset == 0
      ensures attribute.tokenType == old(attribute.tokenType)
    {
      input := inputPending;
      inputPending := IllegalStateReader;
      attribute.ClearAttributes();
      startOffset := 0;
      currentIndex := 0;
    }

    /** close: the input is closed, both slots go back to the sentinel and
        the attribute is cleared. */
    method Close()
      requires Valid()
      modifies this, attribute, Readers()
      ensures Valid() && input == IllegalStateReader && inputPending == IllegalStateReader
      ensures old(input).Active? ==> old(input).reader.closed && old(input).reader.pos == old(input.reader.pos)
      ensures currentIndex == old(currentIndex)
      ensures attribute.token == [] && attribute.startOffset == 0 && attribute.endOffset == 0
      ensures attribute.tokenType == old(attribute.tokenType)
    {
      if input.Active? {
        input.reader.Close();
      }
      input := IllegalStateReader;
      inputPending := IllegalStateReader;
      attribute.ClearAttributes();
    }

    /** incrementToken: the attribute is cleared, then characters are read
        until a sentence has been collected and a delimiter or the end
        follows it. On success the attribute holds the sentence, the type
        "sentence", its start offset and start + length + 1 as its end. */
    method IncrementToken() returns (r: Result<bool>)
      requires Valid()
      modifies this, attribute, Readers()
      ensures Valid() && input == old(input) && inputPending == old(inputPending)
      ensures attribute.tokenType == (if r == Success(true) then Some("sentence") else old(attribute.tokenType))
      ensures var n := old(NextPull());
        && (n.Failure? ==>
              && r == Failure(n.error) && currentIndex == old(currentIndex)
              && attribute.token == [] && attribute.startOffset == 0 && attribute.endOffset == 0)
        && (n.Success? ==>
              && r == Success(n.value.sentence != [])
              && input.reader.pos == old(input.reader.pos) + n.value.consumed
              && currentIndex == old(currentIndex) + n.value.consumed
              && attribute.token == n.value.sentence
              && (n.value.sentence != [] ==>
                    && attribute.startOffset == old(currentIndex) + n.value.skipped
                    && attribute.endOffset == attribute.startOffset + |n.value.sentence| + 1)
              && (n.value.sentence == [] ==> attribute.startOffset == 0 && attribute.endOffset == 0))
    {
      attribute.ClearAttributes();
      if input.IllegalStateReader? {
        return Failure(IllegalState);
      }
      var read := Collect(input.reader);
      if read.Fail? {
        return Failure(read.error);
      }
      if attribute.TokenLength() > 0 {
        attribute.SetType(Some("sentence"));
        attribute.SetStartOffset(startOffset);
        attribute.SetEndOffset(startOffset + attribute.TokenLength() + 1);
        startOffset := currentIndex;
        return Success(true);
      }
      return Success(false);
    }

    /** The read loop of hasSentence: leading delimiters move startOffset
        past themselves, then characters are appended to the attribute until
        a delimiter or the end of the text. */
    method Collect(reader: Reader) returns (r: Outcome)
      requires reader.Valid() && startOffset == currentIndex && attribute.token == []
      modifies this`currentIndex, this`startOffset, attribute`token, reader
      ensures reader.Valid() && reader.closed == old(reader.closed)
      ensures old(reader.closed) ==> r == Fail(IO) && reader.pos == old(reader.pos) && currentIndex == old(currentIndex)
                                     && attribute.token == [] && startOffset == currentIndex
      ensures !old(reader.closed) ==>
        var n := NextSentence(old(reader.Rest()), isPunctuation);
        && r == Pass
        && reader.pos == old(reader.pos) + n.consumed
        && currentIndex == old(currentIndex) + n.consumed
        && attribute.token == n.sentence
        && startOffset == old(currentIndex) + n.skipped
    {
      ghost var rest := reader.Rest();
      ghost var p0 := reader.pos;
      ghost var k := 0;
      ghost var c0 := currentIndex;
      while true
        invariant Collecting(reader, rest, p0, c0, k) && reader.closed == old(reader.closed)
        decreases |reader.text| - reader.pos
      {
        var step, done;
        step, done, k := CollectStep(reader, rest, p0, c0, k);
        if step.Fail? {
          return step;
        }
        if done {
          break;
        }
      }
      return Pass;
    }

    /** The state of the read loop after reading text[p0..pos), with
        startOffset and currentIndex counted from c0. */
    ghost predicate Collecting(reader: Reader, rest: string, p0: nat, c0: nat, k: nat)
      reads this, attribute, reader
    {
      && reader.Valid() && p0 <= reader.pos && reader.text[p0..] == rest
      && (reader.closed ==> reader.pos == p0)
      && currentIndex == c0 + (reader.pos - p0) && startOffset == c0 + k
      && Scanned(rest, isPunctuation, reader.pos - p0, k, attribute.token)
    }

    /** One turn of the read loop: one character is read; the loop ends at
        the end of the text or on a delimiter after a non-empty sentence. */
    method CollectStep(reader: Reader, ghost rest: string, ghost p0: nat, ghost c0: nat, ghost k: nat)
      returns (r: Outcome, done: bool, ghost k2: nat)
      requires Collecting(reader, rest, p0, c0, k)
      modifies this`currentIndex, this`startOffset, attribute`token, reader
      ensures reader.closed == old(reader.closed) && (!done ==> Collecting(reader, rest, p0, c0, k2))
      ensures r.Fail? ==> r == Fail(IO) && old(reader.closed) && reader.pos == old(reader.pos)
                          && currentIndex == old(currentIndex) && startOffset == old(startOffset)
                          && attribute.token == old(attribute.token)
      ensures r.Pass? && !done ==> reader.pos == old(reader.pos) + 1
      ensures r.Pass? && done ==>
        && reader.Valid() && !reader.closed
        && p0 <= reader.pos && NextSentence(rest, isPunctuation) == Pull(k2, attribute.token, reader.pos - p0)
        && currentIndex == c0 + (reader.pos - p0) && startOffset == c0 + k2
    {
      k2 := k;
      ghost var j := reader.pos - p0;
      var ch := reader.Read();
      if ch.Failure? {
        return Fail(ch.error), true, k;
      }
      if ch.value.None? {
        PullAt(rest, isPunctuation, k, attribute.token, |rest|);
        return Pass, true, k;
      }
      var c := ch.value.value;
      assert c == rest[j];
      currentIndex := currentIndex + 1;
      if IsDelimiter(c, isPunctuation) {
        if attribute.TokenLength() > 0 {
          PullAt(rest, isPunctuation, k, attribute.token, j + 1);
          return Pass, true, k;
        }
        ScannedDelimiter(rest, isPunctuation, j, k);
        startOffset := currentIndex;
        return Pass, false, k + 1;
      }
      ScannedWord(rest, isPunctuation, j, k, attribute.token);
      attribute.AppendChar(c);
      return Pass, false, k;
    }
  }

  // ---------------------------------------------------------------------------
  // DictBasedTextHandlerFilter, with the delegation of TextHandlerFilter
  // ---------------------------------------------------------------------------

  /** The dictionary words of a sentence, as the segmenter's corrected loop
      finds them: each once, where the source's loop may repeat one. */
  ghost function Words(d: Trie, sentence: string): seq<Token>
    reads d, d.tree, d.tree.gen
    requires d.Valid()
  {
    CacheForward(d.cache, d.tree.nodes, d.tree.children, d.tree.gen.last);
    Segment(d.cache, d.tree.nodes, sentence)
  }

  /** A word of the next sentence, moved by the delimiters skipped before
      the sentence, indexes its own text in the characters not read yet:
      the offsets the filter hands out, less the count read before the
      pull, locate the word, end exclusive. */
  lemma WordsLocated(d: Trie, rest: string, p: char -> bool, t: Token)
    requires d.Valid()
    ensures var n := NextSentence(rest, p);
            t in Words(d, n.sentence) ==>
              && 0 <= n.skipped + t.startOffset <= n.skipped + t.endOffset < n.skipped + |n.sentence| <= |rest|
              && t.value == Some(rest[n.skipped + t.startOffset .. n.skipped + t.endOffset + 1])
  {
    var n := NextSentence(rest, p);
    if t in Words(d, n.sentence) {
      WordInside(d, n.sentence, t);
      Subslice(rest, n.skipped, n.skipped + |n.sentence|, t.startOffset, t.endOffset + 1);
    }
  }

  /** A word of a sentence spells the sentence chars between its offsets,
      the end offset inclusive. */
  lemma WordInside(d: Trie, sentence: string, t: Token)
    requires d.Valid() && t in Words(d, sentence)
    ensures 0 <= t.startOffset <= t.endOffset < |sentence|
    ensures t.value == Some(sentence[t.startOffset..t.endOffset + 1])
  {
    CacheForward(d.cache, d.tree.nodes, d.tree.children, d.tree.gen.last);
    SegmentMembers(d.cache, d.tree.nodes, sentence, t);
  }

  /** DictBasedTextHandlerFilter: every sentence its input handler yields
      is segmented, and the words are handed out one per pull. reset and
      close are forwarded to the input, as TextHandlerFilter does. */
  class DictBasedFilter {
    const input: SentenceTextHandler
    const attribute: SharedAttribute
    var segmenter: Segmenter?
    var dictionaryHandler: DictionaryFiles.FileDictionaryHandler?
    var dictDir: Option<string>
    var tokens: Option<seq<Token>>
    /** The iterator over tokens: None while it is null, otherwise the
        tokens it has not returned yet. */
    var remaining: Option<seq<Token>>
    /** The start offset of the sentence the tokens come from. */
    var baseCoord: int

    /** The objects of the dictionary the segmenter uses. */
    function DictRepr(): set<object>
      reads this, segmenter
    {
      if segmenter != null && segmenter.dictionary != null
      then {segmenter.dictionary, segmenter.dictionary.tree, segmenter.dictionary.tree.gen}
      else {}
    }

    /** The filter shares its input's attribute, the input is well formed,
        so is the dictionary, and a segmenter exists once a dictionary
        directory is set. */
    ghost predicate Valid()
      reads this, input, input.Readers(), segmenter, DictRepr()
    {
      && attribute == input.attribute
      && input.Valid()
      && (segmenter != null && segmenter.dictionary != null ==> segmenter.dictionary.Valid())
      && (dictDir.Some? ==> segmenter != null)
    }

    /** The attribute holds token t, its offsets moved by base and its end
        made exclusive. */
    ghost predicate Holds(t: Token, base: int)
      reads attribute
    {
      && attribute.token == JavaString(t.value)
      && attribute.tokenType == t.types
      && attribute.startOffset == base + t.startOffset
      && attribute.endOffset == base + t.endOffset + 1
    }

    /** A filter over input, sharing its attribute, without a dictionary. */
    constructor (input: SentenceTextHandler, attribute: SharedAttribute)
      requires input.Valid() && attribute == input.attribute
      ensures Valid() && this.input == input && this.attribute == attribute
      ensures segmenter == null && dictDir.None? && tokens.None? && remaining.None? && baseCoord == 0
    {
      this.input := input;
      this.attribute := attribute;
      segmenter := null;
      dictionaryHandler := null;
      dictDir := None;
      tokens := None;
      remaining := None;
      baseCoord := 0;
    }

    /** reset: the input chain is reset, and the token list, the iterator
        and the base offset are dropped. */
    method Reset()
      requires Valid()
      modifies this, input, attribute
      ensures Valid() && segmenter == old(segmenter) && dictDir == old(dictDir)
      ensures input.input == old(input.inputPending) && input.inputPending == IllegalStateReader
      ensures input.currentIndex == 0 && attribute.token == []
      ensures tokens.None? && remaining.None? && baseCoord == 0
    {
      input.Reset();
      tokens := None;
      remaining := None;
      baseCoord := 0;
    }

    /** close: forwarded to the input. */
    method Close()
      requires Valid()
      modifies input, attribute, input.Readers()
      ensures Valid() && input.input == IllegalStateReader && input.inputPending == IllegalStateReader
      ensures old(input.input).Active? ==> old(input.input).reader.closed
      ensures attribute.token == []
    {
      input.Close();
    }

    /** fillSharedAttr: the attribute is cleared and then holds the next
        token of the iterator, rebased on the sentence start. */
    method FillSharedAttr()
      requires remaining.Some? && remaining.value != []
      modifies this`remaining, attribute
      ensures remaining == Some(old(remaining.value[1..]))
      ensures Holds(old(remaining.value[0]), baseCoord)
    {
      attribute.ClearAttributes();
      var token := remaining.value[0];
      remaining := Some(remaining.value[1..]);
      attribute.AppendString(JavaString(token.value));
      attribute.SetType(token.types);
      attribute.SetStartOffset(baseCoord + token.startOffset);
      attribute.SetEndOffset(baseCoord + token.endOffset + 1);
    }

    /** incrementToken: NoDictException until a directory is set; the
        words left from the current sentence come first; otherwise the next
        sentence is pulled and segmented, and the stream ends when there is
        no sentence left or the sentence holds no word. */
    method IncrementToken() returns (r: Result<bool>)
      requires Valid()
      modifies this, attribute, input, input.Readers()
      ensures Valid() && segmenter == old(segmenter) && dictDir == old(dictDir)
      ensures input.input == old(input.input) && input.inputPending == old(input.inputPending)
      ensures old(dictDir).None? ==>
        r == Failure(NoDict) && remaining == old(remaining) && input.currentIndex == old(input.currentIndex)
      ensures old(dictDir).Some? && old(remaining).Some? && old(remaining).value != [] ==>
        && r == Success(true) && remaining == Some(old(remaining).value[1..]) && baseCoord == old(baseCoord)
        && Holds(old(remaining).value[0], baseCoord) && input.currentIndex == old(input.currentIndex)
      ensures old(dictDir).Some? && (old(remaining).None? || old(remaining).value == []) ==>
        var n := old(input.NextPull());
        && (n.Failure? ==> r == Failure(n.error))
        && (n.Success? && n.value.sentence == [] ==> r == Success(false))
        && (n.Success? && n.value.sentence != [] ==>
              && baseCoord == old(input.currentIndex) + n.value.skipped
              && (segmenter.dictionary == null ==> r == Failure(NoDict))
              && (segmenter.dictionary != null ==>
                    var words := Words(segmenter.dictionary, n.value.sentence);
                    && tokens == Some(words)
                    && (words == [] ==> r == Success(false))
                    && (words != [] ==> r == Success(true) && remaining == Some(words[1..]) && Holds(words[0], baseCoord))))
    {
      if dictDir.None? {
        return Failure(NoDict);
      }
      if remaining.Some? && remaining.value != [] {
        FillSharedAttr();
        return Success(true);
      }
      r := PullSentence();
    }

    /** The part of incrementToken once the iterator is exhausted: the next
        sentence is pulled from the input and segmented. */
    method PullSentence() returns (r: Result<bool>)
      requires Valid() && segmenter != null
      modifies this`baseCoord, this`tokens, this`remaining, attribute, input, input.Readers()
      ensures Valid()
      ensures input.input == old(input.input) && input.inputPending == old(input.inputPending)
      ensures var n := old(input.NextPull());
        && (n.Failure? ==> r == Failure(n.error))
        && (n.Success? && n.value.sentence == [] ==> r == Success(false))
        && (n.Success? && n.value.sentence != [] ==>
              && baseCoord == old(input.currentIndex) + n.value.skipped
              && (segmenter.dictionary == null ==> r == Failure(NoDict))
              && (segmenter.dictionary != null ==>
                    var words := Words(segmenter.dictionary, n.value.sentence);
                    && tokens == Some(words)
                    && (words == [] ==> r == Success(false))
                    && (words != [] ==> r == Success(true) && remaining == Some(words[1..]) && Holds(words[0], baseCoord))))
    {
      ghost var n, at := input.NextPull(), input.currentIndex;
      var more := input.IncrementToken();
      if more.Failure? {
        return Failure(more.error);
      }
      if !more.value {
        return Success(false);
      }
      assert attribute.token == n.value.sentence && attribute.startOffset == at + n.value.skipped;
      r := SegmentSentence();
    }

    /** The part of incrementToken after a sentence was pulled: the words of
        the sentence become the token list, rebased on the sentence start,
        and the first is handed out. */
    method SegmentSentence() returns (r: Result<bool>)
      requires segmenter != null && (segmenter.dictionary != null ==> segmenter.dictionary.Valid())
      requires attribute.token != []
      modifies this`baseCoord, this`tokens, this`remaining, attribute
      ensures baseCoord == old(attribute.startOffset)
      ensures segmenter.dictionary == null ==> r == Failure(NoDict)
      ensures segmenter.dictionary != null ==>
        var words := Words(segmenter.dictionary, old(attribute.token));
        && tokens == Some(words)
        && (words == [] ==> r == Success(false))
        && (words != [] ==> r == Success(true) && remaining == Some(words[1..]) && Holds(words[0], baseCoord))
    {
      baseCoord := attribute.startOffset;
      var got := segmenter.GetTokensOfString(Some(attribute.TokenString()));
      if got.Failure? {
        return Failure(got.error);
      }
      tokens := got.value;
      if tokens.None? || tokens.value == [] {
        return Success(false);
      }
      remaining := tokens;
      FillSharedAttr();
      return Success(true);
    }

    /** loadDictFrom: a null directory throws NoDictException. Otherwise the
        directory is recorded, here and in the JVM's static state, a new
        segmenter and a new dictionary handler are made, and the shared
        dictionary becomes the segmenter's. It is loaded from the files of
        the directory only when no handler has loaded it yet; an exception
        of getDictionary leaves the new segmenter without one. */
    method LoadDictFrom(statics: DictionaryFiles.DictionaryStatics, dir: Option<string>, isAsync: bool,
                        isDirectory: bool, files: Option<seq<DictionaryFiles.DictFile>>, freeMemory: int, ambiguousName: string)
      returns (r: Outcome)
      requires Valid() && statics.Valid()
      modifies this, statics, statics.dict, statics.dict.tree, statics.dict.tree.gen,
        statics.ambiguous, statics.ambiguous.tree, statics.ambiguous.tree.gen
      ensures Valid() && statics.Valid()
      ensures dir.None? ==>
        && r == Fail(NoDict) && dictDir == old(dictDir) && segmenter == old(segmenter)
        && statics.directory == old(statics.directory) && statics.loadCount == old(statics.loadCount)
        && statics.dict.words == old(statics.dict.words)
      ensures dir.Some? ==>
        && dictDir == dir && segmenter != null && fresh(segmenter) && dictionaryHandler != null && fresh(dictionaryHandler)
        && dictionaryHandler.statics == statics && dictionaryHandler.asyncLoad == isAsync && statics.directory == dir
      ensures dir.Some? && old(statics.loadCount) != 0 ==>
        && r == Pass && segmenter != null && segmenter.dictionary == statics.dict
        && statics.loadCount == old(statics.loadCount) && statics.dict.words == old(statics.dict.words)
      ensures dir.Some? && old(statics.loadCount) == 0 ==>
        && segmenter != null
        && var fs := if files.Some? then files.value else [];
           var n := DictionaryFiles.Attempted(fs, isAsync, freeMemory);
           if !DictionaryFiles.DirectoryOk(dir, isDirectory) then
             r == Fail(DictionaryHandle) && segmenter.dictionary == null
             && statics.loadCount == 0 && statics.dict.words == old(statics.dict.words)
           else
             && statics.loadCount == 1
             && statics.dict.words == old(statics.dict.words) + DictionaryFiles.FilesWords(fs[..n], DictionaryFiles.Normal, freeMemory, ambiguousName)
             && r == DictionaryFiles.FilesOutcome(fs, isAsync, freeMemory)
             && (r.Pass? ==> segmenter.dictionary == statics.dict)
             && (r.Fail? ==> segmenter.dictionary == null)
    {
      if dir.None? {
        return Fail(NoDict);
      }
      dictDir := dir;
      segmenter, dictionaryHandler, r := NewSegmenter(statics, dir, isAsync, isDirectory, files, freeMemory, ambiguousName);
    }
  }

  /** The part of loadDictFrom after the null check: a new segmenter and a
      new dictionary handler over the JVM's static state, the directory set
      there, and the shared dictionary handed to the segmenter unless
      getDictionary throws. */
  method NewSegmenter(statics: DictionaryFiles.DictionaryStatics, dir: Option<string>, isAsync: bool,
                      isDirectory: bool, files: Option<seq<DictionaryFiles.DictFile>>, freeMemory: int, ambiguousName: string)
    returns (s: Segmenter, h: DictionaryFiles.FileDictionaryHandler, r: Outcome)
    requires statics.Valid()
    modifies statics, statics.dict, statics.dict.tree, statics.dict.tree.gen,
      statics.ambiguous, statics.ambiguous.tree, statics.ambiguous.tree.gen
    ensures fresh(s) && fresh(h) && h.Valid() && h.statics == statics
    ensures s.dictionary == null || s.dictionary == statics.dict
    ensures statics.directory == dir && h.asyncLoad == isAsync
    ensures old(statics.loadCount) != 0 ==>
      && r == Pass && s.dictionary == statics.dict && statics.loadCount == old(statics.loadCount)
      && statics.dict.words == old(statics.dict.words) && statics.ambiguous.words == old(statics.ambiguous.words)
    ensures old(statics.loadCount) == 0 ==>
            var fs := if files.Some? then files.value else [];
            var n := DictionaryFiles.Attempted(fs, isAsync, freeMemory);
            if !DictionaryFiles.DirectoryOk(dir, isDirectory) then
              r == Fail(DictionaryHandle) && s.dictionary == null
              && statics.loadCount == 0 && statics.dict.words == old(statics.dict.words)
            else
              && statics.loadCount == 1
              && statics.dict.words == old(statics.dict.words) + DictionaryFiles.FilesWords(fs[..n], DictionaryFiles.Normal, freeMemory, ambiguousName)
              && r == DictionaryFiles.FilesOutcome(fs, isAsync, freeMemory)
              && (r.Pass? ==> s.dictionary == statics.dict)
              && (r.Fail? ==> s.dictionary == null)
  {
    s := new Segmenter();
    h := new DictionaryFiles.FileDictionaryHandler(statics);
    h.SetDirectory(dir);
    h.SetAsyncLoad(isAsync);
    var d := h.GetDictionary(isDirectory, files, freeMemory, ambiguousName);
    if d.Failure? {
      return s, h, Fail(d.error);
    }
    s.SetDictionary(d.value);
    return s, h, Pass;
  }
}
