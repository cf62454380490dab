/**
  String operations the to-do list relies on: JavaScript's `String.prototype.trim`
  (used on every submitted and edited text) and the decimal rendering of a
  count in a template literal.
 */
module Text {

  /**
    ECMAScript's WhiteSpace and LineTerminator code points, the characters
    `trim` removes: TAB, VT, FF, SPACE, NBSP, ZWNBSP, the Space_Separator
    category, LF, CR, LINE SEPARATOR and PARAGRAPH SEPARATOR. All of them lie
    in the Basic Multilingual Plane, so reading a string as code points rather
    than UTF-16 code units does not change what is trimmed.
   */
  predicate IsWhiteSpace(c: char)
  {
    || c == '\t' || c == '\U{000B}' || c == '\U{000C}' || c == ' '
    || c == '\U{00A0}' || c == '\U{FEFF}' || c == '\U{1680}'
    || ('\U{2000}' <= c <= '\U{200A}')
    || c == '\U{202F}' || c == '\U{205F}' || c == '\U{3000}'
    || c == '\n' || c == '\r' || c == '\U{2028}' || c == '\U{2029}'
  }

  /** Every character of `s` is white space (vacuously so for the empty string). */
  predicate AllWhiteSpace(s: string)
  {
    forall i :: 0 <= i < |s| ==> IsWhiteSpace(s[i])
  }

  /** The first index at or after `from` whose character is not white space, or `|s|`. */
  function FirstNonWhiteSpace(s: string, from: nat): (lo: nat)
    requires from <= |s|
    ensures from <= lo <= |s|
    ensures forall i :: from <= i < lo ==> IsWhiteSpace(s[i])
    ensures lo < |s| ==> !IsWhiteSpace(s[lo])
    decreases |s| - from
  {
    if from < |s| && IsWhiteSpace(s[from]) then FirstNonWhiteSpace(s, from + 1) else from
  }

  /** The end of `s[lo..stop]` once its trailing white space is cut off. */
  function EndOfNonWhiteSpace(s: string, lo: nat, stop: nat): (hi: nat)
    requires lo <= stop <= |s|
    ensures lo <= hi <= stop
    ensures forall i :: hi <= i < stop ==> IsWhiteSpace(s[i])
    ensures hi > lo ==> !IsWhiteSpace(s[hi - 1])
    decreases stop
  {
    if stop > lo && IsWhiteSpace(s[stop - 1]) then EndOfNonWhiteSpace(s, lo, stop - 1) else stop
  }

  /** JavaScript's `s.trim()`: `s` without its leading and trailing white space. */
  function Trim(s: string): (r: string)
  {
    var lo := FirstNonWhiteSpace(s, 0);
    s[lo..EndOfNonWhiteSpace(s, lo, |s|)]
  }

  /**
    `Trim(s)` is the slice `s[lo..hi]`: everything before `lo` and from `hi` on
    is white space, and the slice neither starts nor ends with white space.
   */
  lemma TrimIsSlice(s: string) returns (lo: nat, hi: nat)
    ensures lo <= hi <= |s| && Trim(s) == s[lo..hi]
    ensures AllWhiteSpace(s[..lo]) && AllWhiteSpace(s[hi..])
    ensures Trim(s) != [] ==> !IsWhiteSpace(Trim(s)[0]) && !IsWhiteSpace(Trim(s)[|Trim(s)| - 1])
  {
    lo := FirstNonWhiteSpace(s, 0);
    hi := EndOfNonWhiteSpace(s, lo, |s|);
    assert forall i :: 0 <= i < lo ==> s[..lo][i] == s[i];
    assert forall i :: 0 <= i < |s| - hi ==> s[hi..][i] == s[hi + i];
  }

  /** A text trims to the empty string exactly when it is all white space. */
  lemma TrimEmptyIff(s: string)
    ensures Trim(s) == [] <==> AllWhiteSpace(s)
  {
    var lo := FirstNonWhiteSpace(s, 0);
    var hi := EndOfNonWhiteSpace(s, lo, |s|);
    if AllWhiteSpace(s) {
      assert lo == |s|;
    }
  }

  /** Trimming an already trimmed text changes nothing. */
  lemma TrimIdempotent(s: string)
    ensures Trim(Trim(s)) == Trim(s)
  {
    var t := Trim(s);
    var lo, hi := TrimIsSlice(s);
    if t != [] {
      assert FirstNonWhiteSpace(t, 0) == 0;
      assert EndOfNonWhiteSpace(t, 0, |t|) == |t|;
    }
  }

  /** The digit character for `d`. */
  function DigitChar(d: nat): (c: char)
    requires d < 10
  {
    ['0', '1', '2', '3', '4', '5', '6', '7', '8', '9'][d]
  }

  /** The value of a decimal digit character, 0 for anything else. */
  function DigitValue(c: char): (d: nat)
  {
    if '0' <= c <= '9' then (c as int - '0' as int) as nat else 0
  }

  /** The decimal rendering of `n` that JavaScript uses for a non-negative integer: no sign, no leading zero. */
  function NatToString(n: nat): (r: string)
    ensures r != []
    ensures forall i :: 0 <= i < |r| ==> '0' <= r[i] <= '9'
    ensures |r| > 1 ==> r[0] != '0'
    decreases n
  {
    if n < 10 then [DigitChar(n)] else NatToString(n / 10) + [DigitChar(n % 10)]
  }

  /** Reads a string of decimal digits back as a number. */
  function ParseDecimal(s: string): (n: nat)
    decreases |s|
  {
    if s == [] then 0 else ParseDecimal(s[..|s| - 1]) * 10 + DigitValue(s[|s| - 1])
  }

  /** Reading back the rendering of `n` gives `n`. */
  lemma {:induction false} ParseNatToString(n: nat)
    ensures ParseDecimal(NatToString(n)) == n
    decreases n
  {
    var r := NatToString(n);
    if n < 10 {
      assert DigitValue(DigitChar(n)) == n;
      assert r[..|r| - 1] == [];
    } else {
      ParseNatToString(n / 10);
      assert r[..|r| - 1] == NatToString(n / 10);
      assert DigitValue(DigitChar(n % 10)) == n % 10;
    }
  }
}
