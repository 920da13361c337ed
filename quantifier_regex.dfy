/** YgAnalyzer.getQuantifierPatternRegex: the quantifier list is sorted
    longest-first and joined into the regular expression that recognises
    a number followed by a quantifier. The list is a parameter. */
module QuantifierRegex {
  import opened Common
  import opened JStrings

  /** Constant.default_numeral_regex. */
  const DefaultNumeralRegex: string := "\\d+\\.?\\d*"
  /** Constant.default_quantifier_regex. */
  const DefaultQuantifierRegex: string := "(?:ml|mm|cmd)"

  // ---------------------------------------------------------------------------
  // The longest-first sort
  // ---------------------------------------------------------------------------

  /** The length the comparator reads; a null is never measured, because
      the comparator throws first. */
  function Len(q: Option<string>): nat
  {
    if q.None? then 0 else |q.value|
  }

  /** Longer strings before shorter ones. */
  ghost predicate LongestFirst(xs: seq<Option<string>>)
  {
    forall i, j :: 0 <= i < j < |xs| ==> Len(xs[i]) >= Len(xs[j])
  }

  /** x placed before the first string of ys that is not longer. */
  function Insert(x: Option<string>, ys: seq<Option<string>>): seq<Option<string>>
  {
    if ys == [] || Len(x) >= Len(ys[0]) then [x] + ys else [ys[0]] + Insert(x, ys[1..])
  }

  /** A stable sort by decreasing length, as Collections.sort with the
      comparator of getQuantifierPatternRegex. */
  function SortLongest(xs: seq<Option<string>>): seq<Option<string>>
  {
    if xs == [] then [] else Insert(xs[0], SortLongest(xs[1..]))
  }

  /** The strings of xs that have length n, in order. */
  function OfLength(xs: seq<Option<string>>, n: nat): seq<Option<string>>
  {
    if xs == [] then [] else (if Len(xs[0]) == n then [xs[0]] else []) + OfLength(xs[1..], n)
  }

  /** Inserting into a longest-first list keeps it longest-first. */
  lemma {:induction false} InsertSorted(x: Option<string>, ys: seq<Option<string>>)
    requires LongestFirst(ys)
    ensures LongestFirst(Insert(x, ys))
    ensures |Insert(x, ys)| == |ys| + 1 && Insert(x, ys)[0] in {x, if ys == [] then x else ys[0]}
  {
    if ys != [] && Len(x) < Len(ys[0]) {
      InsertSorted(x, ys[1..]);
      var r := Insert(x, ys);
      assert r == [ys[0]] + Insert(x, ys[1..]);
      forall i, j | 0 <= i < j < |r|
        ensures Len(r[i]) >= Len(r[j])
      {
        if i == 0 {
          assert r[j] in Insert(x, ys[1..]);
          InsertMembers(x, ys[1..]);
          if r[j] != x {
            var k :| 0 <= k < |ys[1..]| && ys[1..][k] == r[j];
            assert ys[0] == ys[0] && ys[k + 1] == r[j];
          }
        }
      }
    }
  }

  /** Inserting adds x and nothing else. */
  lemma {:induction false} InsertMembers(x: Option<string>, ys: seq<Option<string>>)
    ensures multiset(Insert(x, ys)) == multiset([x] + ys)
    ensures forall y :: y in Insert(x, ys) ==> y == x || y in ys
  {
    if ys != [] && Len(x) < Len(ys[0]) {
      InsertMembers(x, ys[1..]);
      assert ys == [ys[0]] + ys[1..];
      assert multiset([x] + ys) == multiset{ys[0]} + multiset([x] + ys[1..]);
    }
  }

  /** Among strings of one length, x lands in front of those of ys. */
  lemma {:induction false} InsertStable(x: Option<string>, ys: seq<Option<string>>, n: nat)
    ensures OfLength(Insert(x, ys), n) == (if Len(x) == n then [x] else []) + OfLength(ys, n)
  {
    var r := Insert(x, ys);
    if ys != [] && Len(x) < Len(ys[0]) {
      InsertStable(x, ys[1..], n);
      assert r[0] == ys[0] && r[1..] == Insert(x, ys[1..]);
      if Len(x) == n {
        assert Len(ys[0]) != n;
      }
    } else {
      assert r[0] == x && r[1..] == ys;
    }
  }

  /** The sort puts longer strings first and keeps every element. */
  lemma {:induction false} SortLongestCorrect(xs: seq<Option<string>>)
    ensures LongestFirst(SortLongest(xs))
    ensures multiset(SortLongest(xs)) == multiset(xs)
  {
    if xs != [] {
      SortLongestCorrect(xs[1..]);
      InsertSorted(xs[0], SortLongest(xs[1..]));
      InsertMembers(xs[0], SortLongest(xs[1..]));
      assert xs == [xs[0]] + xs[1..];
    }
  }

  /** Strings of equal length keep their original order. */
  lemma {:induction false} SortLongestStable(xs: seq<Option<string>>, n: nat)
    ensures OfLength(SortLongest(xs), n) == OfLength(xs, n)
  {
    if xs != [] {
      SortLongestStable(xs[1..], n);
      InsertStable(xs[0], SortLongest(xs[1..]), n);
    }
  }

  /** Collections.sort with the length comparator: a null list throws, and
      so does a null element once there are two elements to compare. */
  function SortQuantifiers(quantifiers: Option<seq<Option<string>>>): (r: Result<seq<Option<string>>>)
  {
    if quantifiers.None? then Failure(NullPointer)
    else if |quantifiers.value| >= 2 && None in quantifiers.value then Failure(NullPointer)
    else Success(SortLongest(quantifiers.value))
  }

  /** The list is returned sorted whenever the comparator never meets a
      null, and the sort throws otherwise. */
  lemma SortQuantifiersOutcome(quantifiers: Option<seq<Option<string>>>)
    ensures var r := SortQuantifiers(quantifiers);
            && (r.Failure? <==> quantifiers.None? || (|quantifiers.value| >= 2 && None in quantifiers.value))
            && (r.Success? ==> LongestFirst(r.value) && multiset(r.value) == multiset(quantifiers.value))
  {
    if quantifiers.Some? {
      SortLongestCorrect(quantifiers.value);
    }
  }

  // ---------------------------------------------------------------------------
  // Building the expression
  // ---------------------------------------------------------------------------

  /** The alternative one list entry contributes: nothing for a null, and
      otherwise the entry trimmed, unless that is "(" or ")". */
  function Alternative(q: Option<string>): (r: seq<string>)
    ensures |r| <= 1
  {
    if q.None? then []
    else
      var t := Trim(q.value);
      if t == "(" || t == ")" then [] else [t]
  }

  /** The alternatives the loop appends, in list order. */
  function Kept(qs: seq<Option<string>>): (r: seq<string>)
    ensures |r| <= |qs|
  {
    if qs == [] then [] else Kept(qs[..|qs| - 1]) + Alternative(qs[|qs| - 1])
  }

  /** The builder once the numeral regex is in: "(" and the numeral. */
  const NumeralOpen: string := "(" + DefaultNumeralRegex
  /** The builder when the group of alternatives starts. */
  const GroupOpen: string := NumeralOpen + "(?:"

  /** StringBuilder.deleteCharAt(length() - 1). */
  function DeleteLast(s: string): (r: string)
    requires s != []
    ensures |r| == |s| - 1 && s == r + [s[|s| - 1]]
  {
    s[..|s| - 1]
  }

  /** What the source returns for a list it has sorted. */
  function AsWrittenRegex(qs: seq<Option<string>>): string
  {
    if qs == [] then NumeralOpen + DefaultQuantifierRegex + ")"
    else DeleteLast(GroupOpen + Terminated(Kept(qs), '|')) + "))"
  }

  /** The evidently intended expression: the numeral, then a non-capturing
      group of the kept quantifiers separated by "|". */
  function IntendedRegex(qs: seq<Option<string>>): string
  {
    if qs == [] then NumeralOpen + DefaultQuantifierRegex + ")"
    else GroupOpen + Join(Kept(qs), '|') + "))"
  }

  /** After a non-empty terminated list, deleting the last character leaves
      the joined list. */
  lemma DeleteLastSeparator(p: string, xs: seq<string>)
    requires xs != []
    ensures (p + Terminated(xs, '|'))[|p + Terminated(xs, '|')| - 1] == '|'
    ensures DeleteLast(p + Terminated(xs, '|')) == p + Join(xs, '|')
  {
    var t := Terminated(xs, '|');
    DropLastSeparator(xs, '|');
    TerminatedEndsWithSeparator(xs, '|');
    assert (p + t)[..|p + t| - 1] == p + t[..|t| - 1];
  }

  /** Whenever a quantifier is kept, the deleted character is the trailing
      "|" and the source builds the intended expression. */
  lemma AsWrittenWhenKept(qs: seq<Option<string>>)
    requires Kept(qs) != []
    ensures AsWrittenRegex(qs) == IntendedRegex(qs)
  {
    DeleteLastSeparator(GroupOpen, Kept(qs));
  }

  /** A list whose quantifiers are all skipped loses the ':' of "(?:"
      instead of a "|": ["("] gives "(\d+\.?\d*(?))". */
  lemma AsWrittenDropsColon()
    ensures Kept([Some("(")]) == []
    ensures AsWrittenRegex([Some("(")]) == NumeralOpen + "(?))"
    ensures AsWrittenRegex([Some("(")]) != IntendedRegex([Some("(")])
  {
    assert TrimStart("(") == "(";
    assert Kept([Some("(")]) == Kept([]) + [];
    assert DeleteLast(GroupOpen + "") == NumeralOpen + "(?";
    assert |AsWrittenRegex([Some("(")])| < |IntendedRegex([Some("(")])|;
  }

  /** The loop of getQuantifierPatternRegex: every kept quantifier is
      appended to the builder, each followed by "|". */
  method AppendAlternatives(builder: string, qs: seq<Option<string>>) returns (s: string)
    ensures s == builder + Terminated(Kept(qs), '|')
  {
    s := builder;
    var i := 0;
    while i < |qs|
      invariant 0 <= i <= |qs| && s == builder + Terminated(Kept(qs[..i]), '|')
    {
      s := AppendAlternative(s, qs[i]);
      KeptStep(qs, i);
      TerminatedConcat(Kept(qs[..i]), Alternative(qs[i]), '|');
      AppendAssoc(builder, Terminated(Kept(qs[..i]), '|'), Terminated(Alternative(qs[i]), '|'));
      i := i + 1;
    }
    assert qs[..|qs|] == qs;
  }

  /** One turn of that loop: a null is skipped, the entry is trimmed, "("
      and ")" are skipped, and anything else is appended followed by "|". */
  method AppendAlternative(s: string, q: Option<string>) returns (s2: string)
    ensures s2 == s + Terminated(Alternative(q), '|')
  {
    if q.None? {
      assert s + Terminated([], '|') == s;
      return s;
    }
    var t := Trim(q.value);
    if t == "(" || t == ")" {
      assert s + Terminated([], '|') == s;
      return s;
    }
    assert Terminated([t], '|') == t + "|";
    return s + t + "|";
  }

  /** One more entry contributes its alternative. */
  lemma KeptStep(qs: seq<Option<string>>, i: nat)
    requires i < |qs|
    ensures Kept(qs[..i + 1]) == Kept(qs[..i]) + Alternative(qs[i])
  {
    assert qs[..i + 1][..i] == qs[..i];
  }

  /** getQuantifierPatternRegex as written: after the sort, the numeral
      regex, then the default quantifier regex for an empty list, or the
      group of alternatives with its last character deleted. */
  method QuantifierPatternRegexAsWritten(quantifiers: Option<seq<Option<string>>>) returns (r: Result<string>)
    ensures var sorted := SortQuantifiers(quantifiers);
            && (sorted.Failure? ==> r == Failure(NullPointer))
            && (sorted.Success? ==> r == Success(AsWrittenRegex(sorted.value)))
  {
    var sorted := SortQuantifiers(quantifiers);
    if sorted.Failure? {
      return Failure(sorted.error);
    }
    var qs := sorted.value;
    var regex := NumeralOpen;
    if |qs| == 0 {
      regex := regex + DefaultQuantifierRegex;
    } else {
      regex := AppendAlternatives(regex + "(?:", qs);
      regex := DeleteLast(regex);
      regex := regex + ")";
    }
    regex := regex + ")";
    assert |qs| > 0 ==> regex == DeleteLast(GroupOpen + Terminated(Kept(qs), '|')) + "))";
    return Success(regex);
  }

  /** getQuantifierPatternRegex with the deletion applied to a trailing
      "|" only. */
  method QuantifierPatternRegex(quantifiers: Option<seq<Option<string>>>) returns (r: Result<string>)
    ensures var sorted := SortQuantifiers(quantifiers);
            && (sorted.Failure? ==> r == Failure(NullPointer))
            && (sorted.Success? ==> r == Success(IntendedRegex(sorted.value)))
  {
    var sorted := SortQuantifiers(quantifiers);
    if sorted.Failure? {
      return Failure(sorted.error);
    }
    var qs := sorted.value;
    var regex := NumeralOpen;
    if |qs| == 0 {
      regex := regex + DefaultQuantifierRegex;
    } else {
      regex := AppendAlternatives(GroupOpen, qs);
      if Kept(qs) == [] {
        assert regex == GroupOpen + Join(Kept(qs), '|') && regex[|regex| - 1] == ':';
      } else {
        DeleteLastSeparator(GroupOpen, Kept(qs));
      }
      if regex[|regex| - 1] == '|' {
        regex := DeleteLast(regex);
      }
      regex := regex + ")";
    }
    regex := regex + ")";
    assert |qs| > 0 ==> regex == GroupOpen + Join(Kept(qs), '|') + "))";
    return Success(regex);
  }
}
