/** The JavaScript string built-ins the localization table relies on:
    `String.prototype.includes`, `String.prototype.trim`, the removal of
    combining marks U+0300 to U+036F with a global regular expression, and the conversion of an integer
    `number` to its decimal text in a template literal. */
module JsString {
  import opened Sequences

  // ---------------------------------------------------------------------------
  // includes
  // ---------------------------------------------------------------------------

  /** `s.includes(sub)`: `sub` occurs in `s` as a contiguous substring. */
  predicate Includes(s: string, sub: string)
  {
    exists i | 0 <= i <= |s| :: sub <= s[i..]
  }

  /** The empty string is a substring of every string, and a string of
      itself; a substring is never longer than the string. */
  lemma IncludesFacts(s: string, sub: string)
    ensures Includes(s, "")
    ensures Includes(s, s)
    ensures Includes(s, sub) ==> |sub| <= |s|
  {
    assert "" <= s[0..];
    assert s <= s[0..];
  }

  // ---------------------------------------------------------------------------
  // trim
  // ---------------------------------------------------------------------------

  /** ECMAScript WhiteSpace and LineTerminator code points outside the
      block U+2000 to U+200A. */
  const WhiteSpaceChars: set<char> :=
    {'\t', '\n', '\U{000B}', '\U{000C}', '\r', ' ', '\U{00A0}', '\U{1680}',
     '\U{2028}', '\U{2029}', '\U{202F}', '\U{205F}', '\U{3000}', '\U{FEFF}'}

  /** The code points `trim` removes from both ends. */
  predicate IsWhiteSpace(c: char)
  {
    c in WhiteSpaceChars || '\U{2000}' <= c <= '\U{200A}'
  }

  predicate AllWhiteSpace(s: string)
  {
    forall i :: 0 <= i < |s| ==> IsWhiteSpace(s[i])
  }

  /** Drops the leading white space: the result is a suffix of `s`, what was
      dropped is all white space, and the result does not start with any. */
  function TrimStart(s: string): (r: string)
    ensures |r| <= |s| && r == s[|s| - |r|..]
    ensures AllWhiteSpace(s[..|s| - |r|])
    ensures r == [] || !IsWhiteSpace(r[0])
  {
    if s != [] && IsWhiteSpace(s[0]) then TrimStart(s[1..]) else s
  }

  /** Drops the trailing white space: the result is a prefix of `s`, what was
      dropped is all white space, and the result does not end with any. */
  function TrimEnd(s: string): (r: string)
    ensures |r| <= |s| && r == s[..|r|]
    ensures AllWhiteSpace(s[|r|..])
    ensures r == [] || !IsWhiteSpace(r[|r| - 1])
  {
    if s != [] && IsWhiteSpace(s[|s| - 1]) then TrimEnd(s[..|s| - 1]) else s
  }

  /** `r` is `s[i..j]`, and what lies before `i` and from `j` on is all
      white space. */
  predicate TrimmedAt(s: string, r: string, i: int, j: int)
  {
    0 <= i <= j <= |s| && r == s[i..j] && AllWhiteSpace(s[..i]) && AllWhiteSpace(s[j..])
  }

  /** `s.trim()`: a contiguous piece of `s` obtained by removing only white
      space from both ends, with no white space left at either end. */
  function Trim(s: string): (r: string)
    ensures exists i, j :: TrimmedAt(s, r, i, j)
    ensures r == [] || (!IsWhiteSpace(r[0]) && !IsWhiteSpace(r[|r| - 1]))
  {
    var t := TrimStart(s);
    var r := TrimEnd(t);
    TrimBothEnds(s, t, r);
    r
  }

  /** Cutting the leading and then the trailing white space cuts a piece out
      of the middle. */
  lemma TrimBothEnds(s: string, t: string, r: string)
    requires |t| <= |s| && t == s[|s| - |t|..] && AllWhiteSpace(s[..|s| - |t|])
    requires t == [] || !IsWhiteSpace(t[0])
    requires |r| <= |t| && r == t[..|r|] && AllWhiteSpace(t[|r|..])
    requires r == [] || !IsWhiteSpace(r[|r| - 1])
    ensures TrimmedAt(s, r, |s| - |t|, |s| - |t| + |r|)
    ensures r == [] || (!IsWhiteSpace(r[0]) && !IsWhiteSpace(r[|r| - 1]))
  {
    var i := |s| - |t|;
    var j := i + |r|;
    assert s[j..] == t[|r|..];
    assert r == s[i..j];
    assert r == [] || r[0] == t[0];
  }

  /** Trimming a string that has no white space at either end changes
      nothing, so trimming twice is trimming once. */
  lemma {:induction false} TrimIdempotent(s: string)
    ensures Trim(Trim(s)) == Trim(s)
  {
    var r := Trim(s);
    assert TrimStart(r) == r;
    assert TrimEnd(r) == r;
  }

  // ---------------------------------------------------------------------------
  // combining diacritical marks
  // ---------------------------------------------------------------------------

  /** The block of combining diacritical marks, U+0300 to U+036F. */
  predicate IsCombiningMark(c: char)
  {
    '\U{0300}' <= c <= '\U{036F}'
  }

  predicate NoCombiningMarks(s: string)
  {
    forall i :: 0 <= i < |s| ==> !IsCombiningMark(s[i])
  }

  /** Replacing every combining mark by the empty string: keeps every other
      character, in order, and drops every combining mark. */
  function RemoveCombiningMarks(s: string): (r: string)
    ensures |r| <= |s|
    ensures NoCombiningMarks(r)
    ensures forall c :: c in r <==> c in s && !IsCombiningMark(c)
    ensures NoCombiningMarks(s) ==> r == s
  {
    if s == [] then []
    else
      var rest := RemoveCombiningMarks(s[1..]);
      assert s == [s[0]] + s[1..];
      if IsCombiningMark(s[0]) then rest else [s[0]] + rest
  }

  /** Removing marks works piece by piece. */
  lemma {:induction false} RemoveCombiningMarksAppend(s: string, t: string)
    ensures RemoveCombiningMarks(s + t) == RemoveCombiningMarks(s) + RemoveCombiningMarks(t)
  {
    if s != [] {
      assert (s + t)[1..] == s[1..] + t;
      assert (s + t)[0] == s[0];
      RemoveCombiningMarksAppend(s[1..], t);
      var head := if IsCombiningMark(s[0]) then [] else [s[0]];
      assert RemoveCombiningMarks(s + t) == head + RemoveCombiningMarks(s[1..] + t);
      assert RemoveCombiningMarks(s) == head + RemoveCombiningMarks(s[1..]);
      ConcatAssoc(head, RemoveCombiningMarks(s[1..]), RemoveCombiningMarks(t));
    } else {
      assert s + t == t;
    }
  }

  // ---------------------------------------------------------------------------
  // decimal text of an integer number
  // ---------------------------------------------------------------------------

  function DigitChar(d: nat): (c: char)
    requires d < 10
    ensures '0' <= c <= '9'
  {
    ('0' as int + d) as char
  }

  predicate IsDigit(c: char)
  {
    '0' <= c <= '9'
  }

  /** The number a text of decimal digits stands for, most significant
      digit first (Horner's rule). */
  function DigitsValue(s: string): int
    decreases |s|
  {
    if s == [] then 0
    else 10 * DigitsValue(s[..|s| - 1]) + (s[|s| - 1] as int - '0' as int)
  }

  /** Decimal digits of `n`, most significant first, with no leading zero. */
  function NatToDecimal(n: nat): (r: string)
    ensures |r| >= 1
    ensures forall i :: 0 <= i < |r| ==> IsDigit(r[i])
    ensures DigitsValue(r) == n
    ensures r[0] == '0' ==> n == 0
    ensures n >= 10 <==> |r| >= 2
    decreases n
  {
    if n < 10 then
      assert [DigitChar(n)][..0] == [];
      [DigitChar(n)]
    else
      var r := NatToDecimal(n / 10) + [DigitChar(n % 10)];
      assert r[..|r| - 1] == NatToDecimal(n / 10);
      r
  }

  /** `${n}` for an integer-valued `number` below 10^21: the decimal digits
      of its magnitude, preceded by `-` when negative. */
  function NumberToString(n: int): (r: string)
    ensures |r| >= 1
    ensures (r[0] == '-') <==> n < 0
    ensures forall i :: 1 <= i < |r| ==> IsDigit(r[i])
    ensures n >= 0 ==> DigitsValue(r) == n
    ensures n < 0 ==> DigitsValue(r[1..]) == -n
  {
    if n < 0 then
      var r := "-" + NatToDecimal(-n);
      assert r[1..] == NatToDecimal(-n);
      r
    else NatToDecimal(n)
  }

  /** The identifier of a dragon, as the text it is spliced in as. */
  lemma NumberToStringExample()
    ensures NumberToString(1000) == "1000"
    ensures NumberToString(-7) == "-7"
  {
    assert NatToDecimal(1) == "1";
    assert NatToDecimal(10) == "10";
    assert NatToDecimal(100) == "100";
    assert NatToDecimal(7) == "7";
  }

  lemma {:induction false} NatToDecimalInjective(a: nat, b: nat)
    requires NatToDecimal(a) == NatToDecimal(b)
    ensures a == b
    decreases a
  {
    var s := NatToDecimal(a);
    if a >= 10 {
      assert b >= 10;
      assert NatToDecimal(a / 10) == s[..|s| - 1] == NatToDecimal(b / 10);
      NatToDecimalInjective(a / 10, b / 10);
      assert DigitChar(a % 10) == s[|s| - 1] == DigitChar(b % 10);
    }
  }

  /** Distinct numbers have distinct decimal texts. */
  lemma {:induction false} NumberToStringInjective(a: int, b: int)
    ensures NumberToString(a) == NumberToString(b) <==> a == b
  {
    if NumberToString(a) == NumberToString(b) {
      var s := NumberToString(a);
      if a < 0 {
        assert NatToDecimal(-a) == s[1..] == NatToDecimal(-b);
        NatToDecimalInjective(-a, -b);
      } else {
        NatToDecimalInjective(a, b);
      }
    }
  }
}
