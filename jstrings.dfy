/** The parts of java.lang.String and StringBuilder the segmenter relies on:
    trim, ASCII case folding, indexOf and joining with a separator. */
module JStrings {

  /** String.trim strips every leading and trailing char whose code is at most U+0020. */
  predicate IsTrimSpace(c: char) {
    c <= ' '
  }

  /** A string is blank when trimming leaves nothing of it. */
  predicate IsBlank(s: string) {
    forall i :: 0 <= i < |s| ==> IsTrimSpace(s[i])
  }

  function TrimStart(s: string): (r: string)
    ensures |r| <= |s| && r == s[|s| - |r|..]
    ensures r == [] || !IsTrimSpace(r[0])
    ensures forall i :: 0 <= i < |s| - |r| ==> IsTrimSpace(s[i])
  {
    if s != [] && IsTrimSpace(s[0]) then TrimStart(s[1..]) else s
  }

  function TrimEnd(s: string): (r: string)
    ensures |r| <= |s| && r == s[..|r|]
    ensures r == [] || !IsTrimSpace(r[|r| - 1])
    ensures forall i :: |r| <= i < |s| ==> IsTrimSpace(s[i])
  {
    if s != [] && IsTrimSpace(s[|s| - 1]) then TrimEnd(s[..|s| - 1]) else s
  }

  /** String.trim. */
  function Trim(s: string): (r: string)
  {
    TrimEnd(TrimStart(s))
  }

  /** Leading blanks stop at the first non-blank char, so what follows it is kept. */
  lemma {:induction false} TrimStartConcat(a: string, b: string)
    requires !IsBlank(a)
    ensures TrimStart(a + b) == TrimStart(a) + b
  {
    if IsTrimSpace(a[0]) {
      assert (a + b)[1..] == a[1..] + b;
      TrimStartConcat(a[1..], b);
    }
  }

  /** A blank tail disappears under TrimEnd. */
  lemma {:induction false} TrimEndBlankTail(a: string, b: string)
    requires IsBlank(b)
    ensures TrimEnd(a + b) == TrimEnd(a)
  {
    if b != [] {
      assert (a + b)[..|a + b| - 1] == a + b[..|b| - 1];
      TrimEndBlankTail(a, b[..|b| - 1]);
    } else {
      assert a + b == a;
    }
  }

  /** A blank tail after a non-blank string disappears under Trim. */
  lemma TrimBlankTail(a: string, b: string)
    requires !IsBlank(a) && IsBlank(b)
    ensures Trim(a + b) == Trim(a)
  {
    TrimStartConcat(a, b);
    TrimEndBlankTail(TrimStart(a), b);
  }

  /** A string with non-blank ends is its own trim. */
  lemma TrimmedAlready(s: string)
    requires s != [] && !IsTrimSpace(s[0]) && !IsTrimSpace(s[|s| - 1])
    ensures Trim(s) == s
  {
  }

  /** The trim of a non-blank string is non-blank and trims to itself. */
  lemma TrimNonBlank(s: string)
    requires !IsBlank(s)
    ensures Trim(s) != [] && Trim(Trim(s)) == Trim(s)
  {
    TrimEmptyIffBlank(s);
    var t := Trim(s);
    assert t[0] == TrimStart(s)[0];
    TrimmedAlready(t);
  }

  /** Trimming only removes chars: what is missing from s is missing from Trim(s). */
  lemma TrimAdds(s: string, c: char)
    requires c !in s
    ensures c !in Trim(s)
  {
    var t := TrimStart(s);
    assert t == s[|s| - |t|..];
    assert Trim(s) == t[..|Trim(s)|];
  }

  /** Trim yields the empty string exactly on blank input. */
  lemma TrimEmptyIffBlank(s: string)
    ensures Trim(s) == [] <==> IsBlank(s)
  {
    var t := TrimStart(s);
    if t != [] {
      assert !IsTrimSpace(t[0]);
    }
  }

  /** Character.toLowerCase, restricted to ASCII letters. */
  function LowerChar(c: char): (r: char)
    ensures !('A' <= r <= 'Z')
    ensures !('A' <= c <= 'Z') ==> r == c
  {
    if 'A' <= c <= 'Z' then (c as int - 'A' as int + 'a' as int) as char else c
  }

  /** String.toLowerCase, char by char. */
  function Lower(s: string): (r: string)
    ensures |r| == |s|
  {
    seq(|s|, i requires 0 <= i < |s| => LowerChar(s[i]))
  }

  lemma LowerIdempotent(s: string)
    ensures Lower(Lower(s)) == Lower(s)
  {
  }

  /** String.indexOf(char): the first position of c, or -1. */
  function IndexOf(s: string, c: char): (r: int)
    ensures -1 <= r < |s|
    ensures r == -1 <==> c !in s
    ensures r >= 0 ==> s[r] == c && c !in s[..r]
  {
    if s == [] then -1
    else if s[0] == c then 0
    else
      var k := IndexOf(s[1..], c);
      assert s[1..][..if k < 0 then 0 else k] == s[1..1 + if k < 0 then 0 else k];
      if k == -1 then -1 else k + 1
  }

  /** The first c in w + [c] + x is the one after w. */
  lemma IndexOfAfter(w: string, c: char, x: string)
    requires c !in w
    ensures IndexOf(w + [c] + x, c) == |w|
  {
    var s := w + [c] + x;
    assert s[|w|] == c && s[..|w|] == w;
  }

  /** The strings joined with the separator between neighbours. */
  function Join(xs: seq<string>, sep: char): string
  {
    if |xs| == 0 then ""
    else if |xs| == 1 then xs[0]
    else xs[0] + [sep] + Join(xs[1..], sep)
  }

  /** The pieces of s between separators, empty ones included: the inverse
      of Join on strings free of the separator. */
  function SplitAt(s: string, sep: char): (r: seq<string>)
    ensures |r| >= 1
    ensures forall k :: 0 <= k < |r| ==> sep !in r[k]
    decreases |s|
  {
    var i := IndexOf(s, sep);
    if i < 0 then [s]
    else
      var rest := SplitAt(s[i + 1..], sep);
      var r := [s[..i]] + rest;
      assert forall k :: 1 <= k < |r| ==> r[k] == rest[k - 1];
      r
  }

  /** Splitting a join at its separator gives back the joined strings. */
  lemma {:induction false} SplitJoin(xs: seq<string>, sep: char)
    requires |xs| >= 1 && forall k :: 0 <= k < |xs| ==> sep !in xs[k]
    ensures SplitAt(Join(xs, sep), sep) == xs
  {
    if |xs| > 1 {
      var w, rest := xs[0], Join(xs[1..], sep);
      var s := w + [sep] + rest;
      assert Join(xs, sep) == s;
      IndexOfAfter(w, sep, rest);
      assert s[..|w|] == w;
      assert s[|w| + 1..] == rest;
      assert SplitAt(s, sep) == [w] + SplitAt(rest, sep);
      SplitJoin(xs[1..], sep);
      assert xs == [w] + xs[1..];
    }
  }

  /** What a StringBuilder holds after appending each string followed by the separator. */
  function Terminated(xs: seq<string>, sep: char): string
  {
    if xs == [] then "" else xs[0] + [sep] + Terminated(xs[1..], sep)
  }

  lemma TerminatedSnoc(xs: seq<string>, x: string, sep: char)
    ensures Terminated(xs + [x], sep) == Terminated(xs, sep) + x + [sep]
  {
    if xs != [] {
      assert (xs + [x])[1..] == xs[1..] + [x];
      TerminatedSnoc(xs[1..], x, sep);
    }
  }

  /** The terminated form of two lists is theirs put together. */
  lemma {:induction false} TerminatedConcat(xs: seq<string>, ys: seq<string>, sep: char)
    ensures Terminated(xs + ys, sep) == Terminated(xs, sep) + Terminated(ys, sep)
  {
    if xs == [] {
      assert xs + ys == ys;
    } else {
      assert (xs + ys)[0] == xs[0] && (xs + ys)[1..] == xs[1..] + ys;
      TerminatedConcat(xs[1..], ys, sep);
    }
  }

  /** A non-empty terminated form ends with the separator. */
  lemma {:induction false} TerminatedEndsWithSeparator(xs: seq<string>, sep: char)
    requires xs != []
    ensures Terminated(xs, sep) != [] && Terminated(xs, sep)[|Terminated(xs, sep)| - 1] == sep
  {
    if |xs| > 1 {
      TerminatedEndsWithSeparator(xs[1..], sep);
    }
  }

  /** Dropping the final separator of the terminated form gives the join:
      the "append, append ',', then delete the last char" idiom of the source. */
  lemma {:induction false} DropLastSeparator(xs: seq<string>, sep: char)
    requires |xs| >= 1
    ensures |Terminated(xs, sep)| >= 1
    ensures Terminated(xs, sep)[..|Terminated(xs, sep)| - 1] == Join(xs, sep)
  {
    if |xs| == 1 {
      assert Terminated(xs, sep) == xs[0] + [sep] + "";
    } else {
      DropLastSeparator(xs[1..], sep);
      var t := Terminated(xs[1..], sep);
      assert Terminated(xs, sep) == xs[0] + [sep] + t;
      assert (xs[0] + [sep] + t)[..|xs[0]| + 1 + |t| - 1] == xs[0] + [sep] + t[..|t| - 1];
    }
  }

  /** Appending is associative: what a builder holding a + b receives
      lands after b. */
  lemma AppendAssoc<T>(a: seq<T>, b: seq<T>, c: seq<T>)
    ensures a + b + c == a + (b + c)
  {
  }

  /** A slice of a slice is a slice of the whole. */
  lemma Subslice<T>(s: seq<T>, a: nat, b: nat, i: nat, j: nat)
    requires a <= b <= |s| && i <= j <= b - a
    ensures s[a..b][i..j] == s[a + i..a + j]
  {
    var x, y := s[a..b][i..j], s[a + i..a + j];
    forall k | 0 <= k < |x|
      ensures x[k] == y[k]
    {
      assert x[k] == s[a..b][i + k];
    }
  }

  /** The strings of xs, one after another. */
  function Concat(xs: seq<string>): string
  {
    if xs == [] then [] else xs[0] + Concat(xs[1..])
  }

  /** Concatenation takes one more string at the end. */
  lemma {:induction false} ConcatSnoc(xs: seq<string>, x: string)
    ensures Concat(xs + [x]) == Concat(xs) + x
  {
    if xs != [] {
      assert (xs + [x])[1..] == xs[1..] + [x];
      ConcatSnoc(xs[1..], x);
    } else {
      assert [x][1..] == [];
    }
  }
}
