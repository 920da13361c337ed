/** Token, the text fragment the segmenter emits, and TokenType, the closed
    set of dictionary types. */
module Tokens {
  import opened Common
  import opened JStrings

  /** A fragment of the input: its text, its offsets in the original text,
      whether it is a word, and its types joined with ",". */
  datatype Token = Token(value: Option<string>, startOffset: int, endOffset: int, isWord: bool, types: Option<string>)

  /** new Token(): every field at its Java default. */
  function NewToken(): (t: Token)
    ensures t.value.None? && t.types.None? && !t.isWord
    ensures t.startOffset == 0 && t.endOffset == 0
  {
    Token(None, 0, 0, false, None)
  }

  /** The decimal digit d. */
  function DigitChar(d: nat): (r: char)
    requires d < 10
    ensures '0' <= r <= '9' && r as int - '0' as int == d
  {
    ('0' as int + d) as char
  }

  /** The decimal spelling of n, as Integer.toString gives it. */
  function NatString(n: nat): (r: string)
    ensures |r| >= 1 && (forall i :: 0 <= i < |r| ==> '0' <= r[i] <= '9')
    ensures r[0] == '0' ==> n == 0
  {
    if n < 10 then [DigitChar(n)] else NatString(n / 10) + [DigitChar(n % 10)]
  }

  /** The number a string of decimal digits denotes. */
  function DigitsValue(s: string): int
  {
    if s == [] then 0 else DigitsValue(s[..|s| - 1]) * 10 + (s[|s| - 1] as int - '0' as int)
  }

  /** Reading the decimal spelling back gives the number. */
  lemma {:induction false} NatStringRoundTrip(n: nat)
    ensures DigitsValue(NatString(n)) == n
  {
    if n >= 10 {
      NatStringRoundTrip(n / 10);
      var s := NatString(n / 10) + [DigitChar(n % 10)];
      assert s[..|s| - 1] == NatString(n / 10);
    }
  }

  /** Integer.toString: a minus sign before the digits of a negative number. */
  function IntString(n: int): (r: string)
    ensures |r| >= 1 && (r[0] == '-' <==> n < 0)
  {
    if n < 0 then "-" + NatString(-n) else NatString(n)
  }

  /** Java's string conversion of a possibly null String. */
  function JavaString(s: Option<string>): string
  {
    if s.None? then "null" else s.value
  }

  /** toString: the value, a tab, "type:" and the types, a tab, then the
      offsets in parentheses. */
  function ToString(t: Token): (r: string)
    ensures |r| > |JavaString(t.value)| && r[..|JavaString(t.value)|] == JavaString(t.value)
    ensures r[|r| - 1] == ')'
  {
    JavaString(t.value) + "\ttype:" + JavaString(t.types) + "\t(" + IntString(t.startOffset) + "," + IntString(t.endOffset) + ")"
  }

  /** When the value holds no tab, it is exactly the text before the first tab
      of toString. */
  lemma ToStringValueField(t: Token)
    requires '\t' !in JavaString(t.value)
    ensures IndexOf(ToString(t), '\t') == |JavaString(t.value)|
  {
    var v := JavaString(t.value);
    var r := ToString(t);
    assert r[|v|] == '\t';
    assert r[..|v|] == v;
  }

  /** The token types; each carries its key. */
  datatype TokenType = Normal

  function Key(t: TokenType): string
  {
    match t
    case Normal => "normal"
  }

  /** TokenType.values(), in declaration order. */
  function Values(): seq<TokenType>
  {
    [Normal]
  }

  /** The first type in ts whose key equals k. */
  function FirstWithKey(ts: seq<TokenType>, k: string): (r: Option<TokenType>)
    ensures r.Some? ==> r.value in ts && Key(r.value) == k
    ensures r.None? <==> forall t :: t in ts ==> Key(t) != k
  {
    if ts == [] then None
    else if Key(ts[0]) == k then Some(ts[0])
    else FirstWithKey(ts[1..], k)
  }

  /** getByTypeKey: null for a null or empty key; otherwise the type whose key
      equals the key lower-cased and then trimmed, or null when none does. */
  function GetByTypeKey(key: Option<string>): (r: Option<TokenType>)
    ensures key.None? || key.value == [] ==> r.None?
    ensures r.Some? ==> key.Some? && key.value != [] && Key(r.value) == Trim(Lower(key.value))
    ensures key.Some? && key.value != [] && r.None? ==> forall t :: t in Values() ==> Key(t) != Trim(Lower(key.value))
  {
    if key.None? || key.value == [] then None
    else FirstWithKey(Values(), Trim(Lower(key.value)))
  }

  lemma LowerPadded()
    ensures Lower(" NORMAL ") == " normal "
  {
    var k := Lower(" NORMAL ");
    forall i | 0 <= i < 8
      ensures k[i] == " normal "[i]
    {
    }
  }

  lemma TrimPadded()
    ensures Trim(" normal ") == "normal"
  {
    var lead, word := " normal", "normal";
    assert " normal " == lead + " " && lead[1] == 'n';
    TrimBlankTail(lead, " ");
    assert lead[1..] == word;
    TrimmedAlready(word);
  }

  /** Surrounding blanks and upper case do not matter to the lookup. */
  lemma GetByTypeKeyPadded()
    ensures GetByTypeKey(Some(" NORMAL ")) == Some(Normal)
  {
    LowerPadded();
    TrimPadded();
  }

  /** The keys of ts in order. */
  function Keys(ts: seq<TokenType>): (r: seq<string>)
    ensures |r| == |ts| && forall i :: 0 <= i < |ts| ==> r[i] == Key(ts[i])
  {
    if ts == [] then [] else [Key(ts[0])] + Keys(ts[1..])
  }

  /** showTypes: append every key followed by ",", then keep all but the last
      char. */
  function ShowTypes(): (r: string)
    ensures r == Join(Keys(Values()), ',')
  {
    var built := Terminated(Keys(Values()), ',');
    DropLastSeparator(Keys(Values()), ',');
    built[..|built| - 1]
  }
}
