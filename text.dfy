/** The string handling of the field registry: the whitespace rule used to
    normalise typed identifiers, and the `<kind>_<timestamp>` identifiers
    minted for new fields and for emptied names. */
module Text {

  /** The characters JavaScript's regular-expression class `\s` matches:
      the ASCII whitespace controls, the space, and the Unicode space
      separators, line and paragraph separators and the byte order mark. */
  predicate IsWhitespace(c: char) {
    || c == '\t' || c == '\n' || c == '\U{000B}' || c == '\U{000C}' || c == '\r'
    || c == ' ' || c == '\U{00A0}' || c == '\U{1680}'
    || ('\U{2000}' <= c <= '\U{200A}')
    || c == '\U{2028}' || c == '\U{2029}' || c == '\U{202F}' || c == '\U{205F}'
    || c == '\U{3000}' || c == '\U{FEFF}'
  }

  predicate NoWhitespace(s: string) {
    forall i :: 0 <= i < |s| ==> !IsWhitespace(s[i])
  }

  /** `s.replace(/\s/g, "_")`. */
  function Normalize(s: string): (r: string)
    ensures |r| == |s|
    ensures forall i :: 0 <= i < |s| ==> r[i] == if IsWhitespace(s[i]) then '_' else s[i]
    ensures NoWhitespace(r)
  {
    if s == [] then []
    else [if IsWhitespace(s[0]) then '_' else s[0]] + Normalize(s[1..])
  }

  /** Normalising twice is normalising once, so a name that was normalised
      while typed comes back unchanged when the field loses focus. */
  lemma NormalizeIdempotent(s: string)
    ensures Normalize(Normalize(s)) == Normalize(s)
  {
    NormalizeKeeps(Normalize(s));
  }

  /** Normalising leaves the text as it is exactly when it has no whitespace. */
  lemma {:induction false} NormalizeKeeps(s: string)
    ensures NoWhitespace(s) <==> Normalize(s) == s
  {
    if s != [] && NoWhitespace(s) {
      NormalizeKeeps(s[1..]);
    }
  }

  function DigitChar(d: nat): char
    requires d < 10
  {
    ['0', '1', '2', '3', '4', '5', '6', '7', '8', '9'][d]
  }

  function DigitValue(c: char): nat {
    match c
    case '0' => 0 case '1' => 1 case '2' => 2 case '3' => 3 case '4' => 4
    case '5' => 5 case '6' => 6 case '7' => 7 case '8' => 8 case '9' => 9
    case _ => 0
  }

  predicate IsDigit(c: char) {
    '0' <= c <= '9'
  }

  /** A millisecond timestamp as JavaScript writes it inside a template string. */
  function DecimalString(n: nat): (r: string)
    ensures |r| >= 1
    ensures forall i :: 0 <= i < |r| ==> IsDigit(r[i])
    ensures r[0] == '0' ==> n == 0
  {
    if n < 10 then [DigitChar(n)] else DecimalString(n / 10) + [DigitChar(n % 10)]
  }

  /** The value of a string of decimal digits. */
  function ParseDecimal(s: string): nat {
    if s == [] then 0 else ParseDecimal(s[..|s| - 1]) * 10 + DigitValue(s[|s| - 1])
  }

  /** Reading the digits back gives the timestamp. */
  lemma {:induction false} DecimalRoundTrip(n: nat)
    ensures ParseDecimal(DecimalString(n)) == n
  {
    if n >= 10 {
      var s := DecimalString(n);
      assert s[..|s| - 1] == DecimalString(n / 10);
      DecimalRoundTrip(n / 10);
    }
  }

  /** Digits never include whitespace. */
  lemma DecimalNoWhitespace(n: nat)
    ensures NoWhitespace(DecimalString(n))
  {
  }

  /** `${kind}_${timestamp}`. */
  function MintId(kind: string, timestamp: nat): (r: string)
    ensures |r| > |kind| && r[..|kind|] == kind && r[|kind|] == '_'
    ensures r[|kind| + 1..] == DecimalString(timestamp)
    ensures NoWhitespace(kind) ==> NoWhitespace(r)
  {
    DecimalNoWhitespace(timestamp);
    kind + "_" + DecimalString(timestamp)
  }

  /** For one kind, identifiers minted at different milliseconds differ. */
  lemma MintIdInjective(kind: string, t1: nat, t2: nat)
    requires MintId(kind, t1) == MintId(kind, t2)
    ensures t1 == t2
  {
    var a, b := MintId(kind, t1), MintId(kind, t2);
    assert a[|kind| + 1..] == DecimalString(t1);
    assert b[|kind| + 1..] == DecimalString(t2);
    DecimalRoundTrip(t1);
    DecimalRoundTrip(t2);
  }
}
