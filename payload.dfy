/** The drag payload's column index, carried as text: `fromColumn.toString()`
    when a drag starts and `Number(...)` when it is dropped. */
module Payload {

  /** The value `Number(s)` gives, as far as an array index is concerned:
      a non-negative integer, or NaN. */
  datatype Number = Num(value: nat) | NaN

  predicate IsDigit(c: char)
  {
    '0' <= c <= '9'
  }

  function DigitValue(c: char): nat
    requires IsDigit(c)
  {
    c as int - '0' as int
  }

  function DigitChar(d: nat): (c: char)
    requires d < 10
    ensures IsDigit(c) && DigitValue(c) == d
  {
    ('0' as int + d) as char
  }

  /** ECMAScript white space and line terminators, which `Number` trims from
      both ends: TAB, VT, FF, ZWNBSP, every space separator (Zs), LF, CR, LS
      and PS. */
  const WhiteSpace: set<char> :=
    {'\t', '\U{B}', '\U{C}', '\U{FEFF}', ' ', '\U{A0}', '\U{1680}',
     '\U{2000}', '\U{2001}', '\U{2002}', '\U{2003}', '\U{2004}', '\U{2005}',
     '\U{2006}', '\U{2007}', '\U{2008}', '\U{2009}', '\U{200A}',
     '\U{202F}', '\U{205F}', '\U{3000}', '\n', '\r', '\U{2028}', '\U{2029}'}

  predicate IsWhiteSpace(c: char)
  {
    c in WhiteSpace
  }

  /** How many white-space characters `s` starts with. */
  function LeadingWhiteSpace(s: string): (n: nat)
    ensures n <= |s|
    ensures forall i :: 0 <= i < n ==> IsWhiteSpace(s[i])
    ensures n < |s| ==> !IsWhiteSpace(s[n])
  {
    if s != [] && IsWhiteSpace(s[0]) then
      var m := LeadingWhiteSpace(s[1..]);
      assert forall i :: 1 <= i <= m ==> s[i] == s[1..][i - 1];
      m + 1
    else 0
  }

  /** `s` without its leading white space. */
  function TrimStart(s: string): (t: string)
    ensures |t| <= |s| && t == s[|s| - |t|..]
    ensures forall i :: 0 <= i < |s| - |t| ==> IsWhiteSpace(s[i])
    ensures t != [] ==> !IsWhiteSpace(t[0])
  {
    s[LeadingWhiteSpace(s)..]
  }

  /** `s` without its trailing white space. */
  function TrimEnd(s: string): (t: string)
    ensures |t| <= |s| && t == s[..|t|]
    ensures forall i :: |t| <= i < |s| ==> IsWhiteSpace(s[i])
    ensures t != [] ==> !IsWhiteSpace(t[|t| - 1])
  {
    if s != [] && IsWhiteSpace(s[|s| - 1]) then TrimEnd(s[..|s| - 1]) else s
  }

  predicate AllDigits(s: string)
  {
    forall i :: 0 <= i < |s| ==> IsDigit(s[i])
  }

  /** The value of a string of decimal digits, most significant first. */
  function DecimalValue(s: string): nat
    requires AllDigits(s)
  {
    if s == [] then 0 else DecimalValue(s[..|s| - 1]) * 10 + DigitValue(s[|s| - 1])
  }

  /** A decimal numeral as `toString` writes a non-negative integer: at least
      one digit, and no leading zero unless the numeral is "0". */
  predicate IsCanonical(s: string)
  {
    s != [] && AllDigits(s) && (s[0] == '0' ==> |s| == 1)
  }

  /** `n.toString()` for a non-negative integer `n` below 10^21 (from there on
      JavaScript switches to exponent notation; a column index is far below). */
  function EncodeIndex(n: nat): (s: string)
    ensures IsCanonical(s)
    ensures s[0] == '0' <==> n == 0
  {
    if n < 10 then [DigitChar(n)] else EncodeIndex(n / 10) + [DigitChar(n % 10)]
  }

  /** `Number(s)` on the strings that matter here: an empty or
      all-white-space string is 0, a string of decimal digits is its value,
      and this model gives NaN for anything else. White space around the
      digits is ignored (`ParsePadded`), white space between them makes
      NaN (`InnerWhiteSpaceIsNaN`). */
  function ParseNumber(s: string): (r: Number)
    ensures (forall i :: 0 <= i < |s| ==> IsWhiteSpace(s[i])) ==> r == Num(0)
    ensures AllDigits(s) ==> r == Num(DecimalValue(s))
    ensures r.Num? ==> forall i :: 0 <= i < |s| ==> IsDigit(s[i]) || IsWhiteSpace(s[i])
  {
    TrimKeepsDigits(s);
    TrimBlank(s);
    TrimRemovesOnlyWhiteSpace(s);
    var t := TrimEnd(TrimStart(s));
    if t == [] then Num(0)
    else if AllDigits(t) then Num(DecimalValue(t))
    else NaN
  }

  /** Trimming keeps a string of digits whole. */
  lemma TrimKeepsDigits(s: string)
    ensures AllDigits(s) ==> TrimEnd(TrimStart(s)) == s
  {
    if s != [] && AllDigits(s) {
      assert !IsWhiteSpace(s[0]);
      assert TrimStart(s) == s;
      assert !IsWhiteSpace(s[|s| - 1]);
    }
  }

  /** Trimming a blank string leaves nothing. */
  lemma TrimBlank(s: string)
    ensures (forall i :: 0 <= i < |s| ==> IsWhiteSpace(s[i])) ==> TrimEnd(TrimStart(s)) == []
  {
  }

  /** Trimming removes only white space: when what is kept is all digits,
      every character of the string is a digit or white space. */
  lemma TrimRemovesOnlyWhiteSpace(s: string)
    ensures AllDigits(TrimEnd(TrimStart(s))) ==>
      forall i :: 0 <= i < |s| ==> IsDigit(s[i]) || IsWhiteSpace(s[i])
  {
    var u := TrimStart(s);
    var t := TrimEnd(u);
    var k := |s| - |u|;
    if AllDigits(t) {
      forall i | 0 <= i < |s|
        ensures IsDigit(s[i]) || IsWhiteSpace(s[i])
      {
        if i < k {
          assert IsWhiteSpace(s[i]);
        } else if i - k < |t| {
          assert s[i] == t[i - k];
          assert IsDigit(t[i - k]);
        } else {
          assert s[i] == u[i - k];
          assert IsWhiteSpace(u[i - k]);
        }
      }
    }
  }

  /** Appending a digit multiplies the value by ten and adds the digit. */
  lemma DecimalValueSnoc(s: string, c: char)
    requires AllDigits(s) && IsDigit(c)
    ensures AllDigits(s + [c])
    ensures DecimalValue(s + [c]) == DecimalValue(s) * 10 + DigitValue(c)
  {
  }

  /** The numeral `EncodeIndex` writes has the value it encodes. */
  lemma {:induction false} DecimalValueOfEncode(n: nat)
    ensures DecimalValue(EncodeIndex(n)) == n
  {
    if n >= 10 {
      DecimalValueOfEncode(n / 10);
      DecimalValueSnoc(EncodeIndex(n / 10), DigitChar(n % 10));
    }
  }

  /** Parsing what `toString` wrote gives back the column index. */
  lemma ParseEncode(n: nat)
    ensures ParseNumber(EncodeIndex(n)) == Num(n)
  {
    DecimalValueOfEncode(n);
  }

  /** Every numeral `toString` can write is the encoding of the index it
      parses to. */
  lemma EncodeParse(s: string)
    requires IsCanonical(s)
    ensures ParseNumber(s).Num? && EncodeIndex(ParseNumber(s).value) == s
  {
    EncodeDecimalValue(s);
  }

  lemma {:induction false} EncodeDecimalValue(s: string)
    requires IsCanonical(s)
    ensures EncodeIndex(DecimalValue(s)) == s
    decreases |s|
  {
    if |s| == 1 {
      assert s[..0] == [];
      assert DigitChar(DigitValue(s[0])) == s[0];
    } else {
      var p := s[..|s| - 1];
      var c := s[|s| - 1];
      assert s == p + [c];
      assert IsCanonical(p);
      EncodeDecimalValue(p);
      var w := DecimalValue(p);
      var d := DigitValue(c);
      assert w != 0;
      assert DecimalValue(s) == w * 10 + d;
      LastDigit(w, d);
      assert DigitChar(d) == c;
      assert EncodeIndex(w * 10 + d) == EncodeIndex(w) + [DigitChar(d)];
    }
  }

  /** Appending digit `d` to the numeral of `w` and taking it off again. */
  lemma LastDigit(w: nat, d: nat)
    requires d < 10
    ensures (w * 10 + d) / 10 == w && (w * 10 + d) % 10 == d
    ensures w > 0 ==> w * 10 + d >= 10
  {
  }

  /** No digit is white space; a separate step to keep the proofs below stable. */
  lemma DigitNotWhiteSpace(c: char)
    ensures IsDigit(c) ==> !IsWhiteSpace(c)
  {
  }

  /** What `ParseNumber` makes of the trimmed string, once it is not empty. */
  lemma ParseOfTrimmed(s: string)
    requires TrimEnd(TrimStart(s)) != []
    ensures AllDigits(TrimEnd(TrimStart(s))) ==>
      ParseNumber(s) == Num(DecimalValue(TrimEnd(TrimStart(s))))
    ensures !AllDigits(TrimEnd(TrimStart(s))) ==> ParseNumber(s) == NaN
  {
  }

  /** Leading white space in front of a non-blank start is exactly what
      `TrimStart` removes. */
  lemma TrimStartPadded(p: string, rest: string)
    requires forall i :: 0 <= i < |p| ==> IsWhiteSpace(p[i])
    requires rest != [] && !IsWhiteSpace(rest[0])
    ensures TrimStart(p + rest) == rest
  {
    var s := p + rest;
    assert s[|p|] == rest[0];
    assert forall m :: 0 <= m < |p| ==> s[m] == p[m];
    assert LeadingWhiteSpace(s) == |p|;
  }

  /** Trailing white space after a non-blank end is exactly what `TrimEnd`
      removes. */
  lemma TrimEndPadded(d: string, q: string)
    requires d != [] && !IsWhiteSpace(d[|d| - 1])
    requires forall i :: 0 <= i < |q| ==> IsWhiteSpace(q[i])
    ensures TrimEnd(d + q) == d
  {
    var u := d + q;
    var t := TrimEnd(u);
    assert u[|d| - 1] == d[|d| - 1];
    assert |t| >= |d|;
    assert forall m :: |d| <= m < |u| ==> u[m] == q[m - |d|];
    assert |t| <= |d|;
  }

  /** A numeral with white space around it parses to the numeral's value:
      `Number(" 12 ")` is 12. */
  lemma ParsePadded(p: string, d: string, q: string)
    requires forall i :: 0 <= i < |p| ==> IsWhiteSpace(p[i])
    requires d != [] && AllDigits(d)
    requires forall i :: 0 <= i < |q| ==> IsWhiteSpace(q[i])
    ensures ParseNumber(p + d + q) == Num(DecimalValue(d))
  {
    DigitNotWhiteSpace(d[0]);
    DigitNotWhiteSpace(d[|d| - 1]);
    assert p + d + q == p + (d + q);
    assert (d + q)[0] == d[0];
    TrimStartPadded(p, d + q);
    TrimEndPadded(d, q);
    ParseOfTrimmed(p + d + q);
  }

  /** Trimming keeps everything from the first to the last character that
      is not white space. */
  lemma TrimKeepsInner(s: string, i: nat, k: nat)
    requires i <= k < |s| && !IsWhiteSpace(s[i]) && !IsWhiteSpace(s[k])
    ensures LeadingWhiteSpace(s) <= i
    ensures k - LeadingWhiteSpace(s) < |TrimEnd(TrimStart(s))|
  {
    StopsAtNonWhiteSpace(s, i);
    TrimStartAt(s, k);
    KeepsNonWhiteSpace(TrimStart(s), k - LeadingWhiteSpace(s));
  }

  /** `TrimStart` read at one index, as its own step to keep the solver stable. */
  lemma TrimStartAt(s: string, k: nat)
    requires LeadingWhiteSpace(s) <= k < |s|
    ensures TrimStart(s)[k - LeadingWhiteSpace(s)] == s[k]
  {
    assert TrimStart(s) == s[LeadingWhiteSpace(s)..];
  }

  /** The leading run stops before any non-white character; an ensures of
      `LeadingWhiteSpace` singled out to keep the solver stable. */
  lemma StopsAtNonWhiteSpace(s: string, i: nat)
    requires i < |s| && !IsWhiteSpace(s[i])
    ensures LeadingWhiteSpace(s) <= i
  {
  }

  /** `TrimEnd` keeps every non-white character; an ensures of `TrimEnd`
      singled out to keep the solver stable. */
  lemma KeepsNonWhiteSpace(u: string, m: nat)
    requires m < |u| && !IsWhiteSpace(u[m])
    ensures m < |TrimEnd(u)|
  {
  }

  /** Inside the trimmed range the trimmed string reads the original. */
  lemma TrimmedAt(s: string, j: nat)
    requires LeadingWhiteSpace(s) <= j
    requires j - LeadingWhiteSpace(s) < |TrimEnd(TrimStart(s))|
    ensures TrimEnd(TrimStart(s))[j - LeadingWhiteSpace(s)] == s[j]
  {
    var u := TrimStart(s);
    var t := TrimEnd(u);
    assert t == u[..|t|];
    TrimStartAt(s, j);
  }

  /** White space between two digits makes the string NaN: `Number("1 2")`
      is NaN. */
  lemma InnerWhiteSpaceIsNaN(s: string, i: nat, j: nat, k: nat)
    requires i < j < k < |s|
    requires IsDigit(s[i]) && IsWhiteSpace(s[j]) && IsDigit(s[k])
    ensures ParseNumber(s) == NaN
  {
    DigitNotWhiteSpace(s[i]);
    DigitNotWhiteSpace(s[j]);
    DigitNotWhiteSpace(s[k]);
    TrimKeepsInner(s, i, k);
    TrimmedAt(s, j);
    var t := TrimEnd(TrimStart(s));
    assert !IsDigit(t[j - LeadingWhiteSpace(s)]);
    ParseOfTrimmed(s);
  }
}
