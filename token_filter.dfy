/** YgTokenFilter: the Lucene filter that splits not-a-word tokens into
    single characters and drops pattern tokens that carry the replacement
    character. The upstream token stream and its term and type attributes
    are modelled as a sequence of (term, type) pairs and one shared
    attribute object. */
module YgTokenFilters {
  import opened Common
  import opened JStrings

  /** The type of tokens that are not dictionary words. */
  const NotAWord: string := "notw"
  /** The type of quantifier matches. */
  const TypeDw: string := "dw"
  /** The type of letter and digit runs. */
  const TypeEnn: string := "enn"
  /** PatternCaptureGroupAndReplaceTokenFilter.replacement. */
  const Replacement: char := ','
  /** Lucene's TypeAttribute.DEFAULT_TYPE, which clearAttributes restores. */
  const DefaultType: string := "word"

  /** String.equalsIgnoreCase against a lower-case ASCII key. */
  predicate EqualsIgnoreCase(a: string, key: string)
  {
    Lower(a) == Lower(key)
  }

  /** The one-character strings of s in order, the replacement character
      left out: what the character loop of fillToken collects. */
  function Chars(s: string): seq<string>
  {
    if s == [] then []
    else Chars(s[..|s| - 1]) + (if s[|s| - 1] == Replacement then [] else [[s[|s| - 1]]])
  }

  /** The text without the replacement character. */
  function WithoutReplacement(s: string): string
  {
    if s == [] then [] else (if s[0] == Replacement then [] else [s[0]]) + WithoutReplacement(s[1..])
  }

  /** What fillToken makes of one term: a not-a-word term is cut into
      characters, a dw or enn term is kept whole unless it holds the
      replacement character, and any other type passes the term through. */
  function Pieces(text: string, kind: Option<string>): seq<string>
  {
    if kind.Some? && EqualsIgnoreCase(kind.value, NotAWord) then Chars(text)
    else if kind.Some? && (EqualsIgnoreCase(kind.value, TypeDw) || EqualsIgnoreCase(kind.value, TypeEnn)) then
      (if IndexOf(text, Replacement) == -1 then [text] else [])
    else [text]
  }

  /** WithoutReplacement takes one more character at the end. */
  lemma {:induction false} WithoutReplacementSnoc(s: string, c: char)
    ensures WithoutReplacement(s + [c]) == WithoutReplacement(s) + (if c == Replacement then [] else [c])
  {
    if s != [] {
      assert (s + [c])[0] == s[0] && (s + [c])[1..] == s[1..] + [c];
      WithoutReplacementSnoc(s[1..], c);
    } else {
      assert [c][1..] == [];
    }
  }

  /** The pieces of a not-a-word term are single characters other than
      the replacement character. */
  lemma {:induction false} CharsSingle(s: string)
    ensures forall p :: p in Chars(s) ==> |p| == 1 && p[0] != Replacement
  {
    if s != [] {
      CharsSingle(s[..|s| - 1]);
    }
  }

  /** Put together in order, the pieces spell the term without the
      replacement character. */
  lemma {:induction false} CharsConcat(s: string)
    ensures Concat(Chars(s)) == WithoutReplacement(s)
  {
    if s != [] {
      var init, c := s[..|s| - 1], s[|s| - 1];
      assert s == init + [c];
      CharsConcat(init);
      WithoutReplacementSnoc(init, c);
      if c == Replacement {
        assert Chars(s) == Chars(init) + [] == Chars(init);
        assert WithoutReplacement(s) == WithoutReplacement(init) + [] == WithoutReplacement(init);
      } else {
        ConcatSnoc(Chars(init), [c]);
      }
    }
  }

  /** There is one piece per character that is not the replacement
      character. */
  lemma {:induction false} CharsCount(s: string)
    ensures |Chars(s)| == |s| - multiset(s)[Replacement]
  {
    if s != [] {
      var init, c := s[..|s| - 1], s[|s| - 1];
      assert s == init + [c];
      CharsCount(init);
      assert multiset(s) == multiset(init) + multiset{c};
    }
  }

  /** A not-a-word term, whatever the case of its type, is cut into
      characters with the replacement character dropped. */
  lemma NotAWordSplit(text: string, kind: Option<string>)
    requires kind.Some? && EqualsIgnoreCase(kind.value, NotAWord)
    ensures forall p :: p in Pieces(text, kind) ==> |p| == 1 && p[0] != Replacement
    ensures Concat(Pieces(text, kind)) == WithoutReplacement(text)
  {
    CharsSingle(text);
    CharsConcat(text);
  }

  /** A dw or enn term is kept whole exactly when it holds no replacement
      character, and is dropped otherwise. */
  lemma PatternKeptWhole(text: string, kind: Option<string>)
    requires kind.Some? && !EqualsIgnoreCase(kind.value, NotAWord)
    requires EqualsIgnoreCase(kind.value, TypeDw) || EqualsIgnoreCase(kind.value, TypeEnn)
    ensures Pieces(text, kind) == [text] <==> Replacement !in text
    ensures Pieces(text, kind) == [] <==> Replacement in text
  {
  }

  /** Types compare without regard to case. */
  lemma TypeCaseIgnored(text: string, a: string, b: string)
    requires Lower(a) == Lower(b)
    ensures Pieces(text, Some(a)) == Pieces(text, Some(b))
  {
  }

  /** One token the filter hands out: its term and its type. */
  datatype Emission = Emission(term: string, kind: Option<string>)

  /** One token of the upstream stream. */
  datatype Term = Term(text: string, kind: Option<string>)

  /** Pieces, each carrying the type of the term they came from. */
  function Tagged(pieces: seq<string>, kind: Option<string>): (r: seq<Emission>)
    ensures |r| == |pieces| && forall i :: 0 <= i < |r| ==> r[i] == Emission(pieces[i], kind)
  {
    seq(|pieces|, i requires 0 <= i < |pieces| => Emission(pieces[i], kind))
  }

  /** Everything the filter makes of the upstream terms, in order. */
  function Stream(items: seq<Term>): seq<Emission>
  {
    if items == [] then [] else Tagged(Pieces(items[0].text, items[0].kind), items[0].kind) + Stream(items[1..])
  }

  /** Every token of the stream is a piece of some upstream term and has
      that term's type. */
  lemma {:induction false} StreamFromTerms(items: seq<Term>, e: Emission)
    requires e in Stream(items)
    ensures exists t :: t in items && e.kind == t.kind && e.term in Pieces(t.text, t.kind)
  {
    var head := Tagged(Pieces(items[0].text, items[0].kind), items[0].kind);
    if e in head {
      var i :| 0 <= i < |head| && head[i] == e;
      assert items[0] in items && Pieces(items[0].text, items[0].kind)[i] == e.term;
    } else {
      StreamFromTerms(items[1..], e);
      var t :| t in items[1..] && e.kind == t.kind && e.term in Pieces(t.text, t.kind);
      assert t in items;
    }
  }

  /** A type that is none of not-a-word, dw and enn, in any case. */
  predicate OtherType(kind: Option<string>)
  {
    kind.None? ||
    (!EqualsIgnoreCase(kind.value, NotAWord) && !EqualsIgnoreCase(kind.value, TypeDw) && !EqualsIgnoreCase(kind.value, TypeEnn))
  }

  /** Terms of other types reach the output unchanged, one token each. */
  lemma {:induction false} PassThroughStream(items: seq<Term>)
    requires forall t :: t in items ==> OtherType(t.kind)
    ensures |Stream(items)| == |items|
    ensures forall i :: 0 <= i < |items| ==> Stream(items)[i] == Emission(items[i].text, items[i].kind)
  {
    if items != [] {
      assert items[0] in items;
      assert forall t :: t in items[1..] ==> t in items;
      PassThroughStream(items[1..]);
    }
  }

  /** CharTermAttribute and TypeAttribute, shared by the filter and its
      input. */
  class Attributes {
    var term: string
    var kind: Option<string>

    constructor ()
      ensures term == [] && kind == Some(DefaultType)
    {
      term := [];
      kind := Some(DefaultType);
    }

    /** clearAttributes: an empty term and the default type. */
    method Clear()
      modifies this
      ensures term == [] && kind == Some(DefaultType)
    {
      term := [];
      kind := Some(DefaultType);
    }

    /** CharTermAttribute.append. */
    method Append(s: string)
      modifies this`term
      ensures term == old(term) + s
    {
      term := term + s;
    }

    /** TypeAttribute.setType. */
    method SetType(t: Option<string>)
      modifies this`kind
      ensures kind == t
    {
      kind := t;
    }
  }

  /** The upstream token stream: the terms it has not produced yet. */
  class TokenSource {
    const attrs: Attributes
    var items: seq<Term>
    var closed: bool

    constructor (attrs: Attributes, items: seq<Term>)
      ensures this.attrs == attrs && this.items == items && !closed
    {
      this.attrs := attrs;
      this.items := items;
      closed := false;
    }

    /** incrementToken: the next term goes into the attributes, or false at
        the end. */
    method IncrementToken() returns (more: bool)
      modifies this`items, attrs
      ensures more <==> old(items) != []
      ensures more ==> items == old(items)[1..] && attrs.term == old(items)[0].text && attrs.kind == old(items)[0].kind
      ensures !more ==> items == []
    {
      if items == [] {
        return false;
      }
      attrs.term := items[0].text;
      attrs.kind := items[0].kind;
      items := items[1..];
      return true;
    }

    /** close. */
    method Close()
      modifies this`closed
      ensures closed
    {
      closed := true;
    }
  }

  class YgTokenFilter {
    const input: TokenSource
    const attrs: Attributes
    /** The pieces of the current term, None while the list is null. */
    var tokens: Option<seq<string>>
    /** The iterator over tokens: None while it is null, otherwise the
        pieces it has not returned yet. */
    var remaining: Option<seq<string>>
    /** The type of the current term. */
    var kind: Option<string>

    /** The filter reads and writes its input's attributes. */
    ghost predicate Valid()
      reads this, input
    {
      attrs == input.attrs
    }

    /** What the filter still has to hand out: the pieces the iterator has
        not returned, then everything the upstream terms will make. */
    ghost function Pending(): seq<Emission>
      reads this, input
    {
      (if remaining.Some? then Tagged(remaining.value, kind) else []) + Stream(input.items)
    }

    /** A filter over input with nothing buffered. */
    constructor (input: TokenSource)
      ensures Valid() && this.input == input
      ensures tokens.None? && remaining.None? && kind.None?
      ensures Pending() == Stream(input.items)
    {
      this.input := input;
      attrs := input.attrs;
      tokens := None;
      remaining := None;
      kind := None;
    }

    /** doClear: the list, the iterator and the type are dropped. */
    method DoClear()
      modifies this`tokens, this`remaining, this`kind
      ensures tokens.None? && remaining.None? && kind.None?
    {
      tokens := None;
      remaining := None;
      kind := None;
    }

    /** fillToken: the pieces of the term in the attributes become the list,
        the iterator starts over them, and the term's type is kept. */
    method FillToken()
      modifies this`tokens, this`remaining, this`kind
      ensures tokens == Some(Pieces(attrs.term, attrs.kind)) && remaining == tokens && kind == attrs.kind
    {
      DoClear();
      var list: seq<string> := [];
      var t := attrs.kind;
      kind := t;
      var text := attrs.term;
      if t.Some? && EqualsIgnoreCase(t.value, NotAWord) {
        var i := 0;
        while i < |text|
          invariant 0 <= i <= |text| && list == Chars(text[..i])
        {
          assert text[..i + 1][..i] == text[..i];
          if text[i] != Replacement {
            list := list + [[text[i]]];
          }
          i := i + 1;
        }
        assert text[..|text|] == text;
        assert list == Pieces(text, t);
      } else if t.Some? && (EqualsIgnoreCase(t.value, TypeDw) || EqualsIgnoreCase(t.value, TypeEnn)) {
        if IndexOf(text, Replacement) == -1 {
          list := list + [text];
        }
        assert list == Pieces(text, t);
      } else {
        list := list + [text];
        assert list == Pieces(text, t);
      }
      tokens := Some(list);
      remaining := tokens;
    }

    /** fillAttr: when the iterator has a piece left, the attributes are
        cleared and then hold that piece and the current type. */
    method FillAttr() returns (filled: bool)
      modifies this`remaining, attrs
      ensures filled <==> old(remaining).Some? && old(remaining).value != []
      ensures filled ==> && remaining == Some(old(remaining).value[1..])
                         && attrs.term == old(remaining).value[0] && attrs.kind == kind
      ensures !filled ==> remaining == old(remaining) && attrs.term == old(attrs.term) && attrs.kind == old(attrs.kind)
    {
      if remaining.Some? && remaining.value != [] {
        attrs.Clear();
        var next := remaining.value[0];
        remaining := Some(remaining.value[1..]);
        attrs.Append(next);
        attrs.SetType(kind);
        return true;
      }
      return false;
    }

    /** incrementToken: the next pending token, taken from the iterator
        first and otherwise from the next upstream term that yields a
        piece; false once nothing is pending. */
    method IncrementToken() returns (more: bool)
      requires Valid()
      modifies this`tokens, this`remaining, this`kind, attrs, input`items
      ensures Valid()
      ensures more ==> [Emission(attrs.term, attrs.kind)] + Pending() == old(Pending())
      ensures !more ==> old(Pending()) == [] && input.items == []
      ensures old(remaining).Some? && old(remaining).value != [] ==> more && input.items == old(input.items)
    {
      more := FillAttr();
      if more {
        return;
      }
      more := Refill();
    }

    /** The loop of incrementToken once the iterator is exhausted: upstream
        terms are pulled until one yields a piece or the input ends. */
    method Refill() returns (more: bool)
      requires Valid() && (remaining.None? || remaining.value == [])
      modifies this`tokens, this`remaining, this`kind, attrs, input`items
      ensures Valid()
      ensures more ==> [Emission(attrs.term, attrs.kind)] + Pending() == old(Stream(input.items))
      ensures !more ==> old(Stream(input.items)) == [] && input.items == []
    {
      while true
        invariant Valid() && (remaining.None? || remaining.value == [])
        invariant Stream(input.items) == old(Stream(input.items))
        decreases |input.items|
      {
        var got;
        got, more := PullTerm();
        if !got || more {
          return;
        }
      }
    }

    /** One turn of that loop: the next upstream term, if any, is cut into
        pieces and the first piece, if any, goes into the attributes. */
    method PullTerm() returns (got: bool, more: bool)
      requires Valid() && (remaining.None? || remaining.value == [])
      modifies this`tokens, this`remaining, this`kind, attrs, input`items
      ensures Valid()
      ensures !got ==> !more && input.items == [] && old(input.items) == []
      ensures got ==> |input.items| < |old(input.items)|
      ensures got && more ==> [Emission(attrs.term, attrs.kind)] + Pending() == old(Stream(input.items))
      ensures got && !more ==> (remaining.None? || remaining.value == []) && Stream(input.items) == old(Stream(input.items))
    {
      ghost var items := input.items;
      got := input.IncrementToken();
      if !got {
        return false, false;
      }
      ghost var item := Term(attrs.term, attrs.kind);
      assert items == [item] + input.items;
      assert Stream(items) == Tagged(Pieces(item.text, item.kind), item.kind) + Stream(input.items);
      FillToken();
      more := FillAttr();
      if more {
        var ps := Pieces(item.text, item.kind);
        assert Tagged(ps, item.kind) == [Emission(ps[0], item.kind)] + Tagged(ps[1..], item.kind);
      }
    }

    /** close: the input is closed and the list, the iterator and the type
        are dropped. */
    method Close()
      modifies input`closed, this`tokens, this`remaining, this`kind
      ensures input.closed && tokens.None? && remaining.None? && kind.None?
    {
      input.Close();
      DoClear();
    }
  }
}
