/**
  Python string operations that the quiz bot relies on, with Python's own semantics:
  str.isspace / str.strip, str.split with a one-character separator, str.startswith,
  str.find, str(int) and int(str).
 */
module Text {

  datatype Option<+T> = None | Some(value: T)

  /** Python's str.isspace(): exactly the characters str.strip() removes and the regular
      expression class \s matches (bidirectional types WS, B, S and category Zs). */
  predicate IsSpace(c: char) {
    ('\t' <= c <= '\r') || ('\U{1C}' <= c <= '\U{1F}') || c == ' '
    || c == '\U{85}' || c == '\U{A0}' || c == '\U{1680}'
    || ('\U{2000}' <= c <= '\U{200A}') || c == '\U{2028}' || c == '\U{2029}'
    || c == '\U{202F}' || c == '\U{205F}' || c == '\U{3000}'
  }

  /** Every character of t is whitespace. */
  predicate AllSpace(t: string) {
    forall i :: 0 <= i < |t| ==> IsSpace(t[i])
  }

  /** s.lstrip(): drops the leading whitespace (see LStripDropsOnlySpace). */
  function LStrip(s: string): (r: string)
    ensures |r| <= |s| && r == s[|s| - |r|..]
    ensures r == [] || !IsSpace(r[0])
  {
    if s != [] && IsSpace(s[0]) then LStrip(s[1..]) else s
  }

  /** s.rstrip(): drops the trailing whitespace (see RStripDropsOnlySpace). */
  function RStrip(s: string): (r: string)
    ensures |r| <= |s| && r == s[..|r|]
    ensures r == [] || !IsSpace(r[|r| - 1])
  {
    if s != [] && IsSpace(s[|s| - 1]) then RStrip(s[..|s| - 1]) else s
  }

  /** s.strip(): the longest infix of s that neither starts nor ends with whitespace. */
  function Strip(s: string): (r: string)
    ensures |r| <= |s|
    ensures r == [] || (!IsSpace(r[0]) && !IsSpace(r[|r| - 1]))
  {
    RStrip(LStrip(s))
  }

  /** What lstrip drops is whitespace. */
  lemma {:induction false} LStripDropsOnlySpace(s: string)
    ensures AllSpace(s[..|s| - |LStrip(s)|])
  {
    if s != [] && IsSpace(s[0]) {
      LStripDropsOnlySpace(s[1..]);
      var k := |s| - |LStrip(s)|;
      assert s[..k] == [s[0]] + s[1..][..k - 1];
    }
  }

  /** What rstrip drops is whitespace. */
  lemma {:induction false} RStripDropsOnlySpace(s: string)
    ensures AllSpace(s[|RStrip(s)|..])
  {
    if s != [] && IsSpace(s[|s| - 1]) {
      var init := s[..|s| - 1];
      RStripDropsOnlySpace(init);
      assert RStrip(s) == RStrip(init);
      var k := |RStrip(s)|;
      assert s[k..] == init[k..] + [s[|s| - 1]];
      assert forall i :: 0 <= i < |s[k..]| ==> IsSpace(s[k..][i]) by {
        forall i | 0 <= i < |s[k..]|
          ensures IsSpace(s[k..][i])
        {
          if i < |init[k..]| {
            assert s[k..][i] == init[k..][i];
          }
        }
      }
    }
  }

  /** strip() gives the empty string exactly for an all-whitespace string. */
  lemma StripEmptyIff(s: string)
    ensures Strip(s) == [] <==> AllSpace(s)
  {
    LStripDropsOnlySpace(s);
    var l := LStrip(s);
    RStripDropsOnlySpace(l);
    if Strip(s) == [] {
      assert s == s[..|s| - |l|] + l;
      assert l == l[|Strip(s)|..];
    } else {
      assert !IsSpace(Strip(s)[0]);
    }
  }

  /** A string without whitespace at either end is its own strip. */
  lemma StripNoSpaceEnds(s: string)
    requires s == [] || (!IsSpace(s[0]) && !IsSpace(s[|s| - 1]))
    ensures Strip(s) == s
  {
  }

  /** s.startswith(p). */
  predicate StartsWith(s: string, p: string) {
    |p| <= |s| && s[..|p|] == p
  }

  /** p occurs in s at index i. */
  predicate OccursAt(s: string, p: string, i: int) {
    0 <= i && i + |p| <= |s| && s[i..i + |p|] == p
  }

  /** s.find(p) for a non-empty p: the first index where p occurs, None for -1. */
  function Find(s: string, p: string): (r: Option<nat>)
    requires p != []
    ensures r.Some? ==> OccursAt(s, p, r.value) && forall j :: 0 <= j < r.value ==> !OccursAt(s, p, j)
    ensures r.None? ==> forall j :: !OccursAt(s, p, j)
    decreases |s|
  {
    if |s| < |p| then None
    else if s[..|p|] == p then Some(0)
    else
      assert !OccursAt(s, p, 0) by {
        assert s[0..|p|] == s[..|p|];
      }
      match Find(s[1..], p)
      case None =>
        assert forall j :: !OccursAt(s, p, j) by {
          forall j
            ensures !OccursAt(s, p, j)
          {
            if 1 <= j {
              OccursAtShift(s, p, j);
            }
          }
        }
        None
      case Some(k) =>
        assert forall j :: 0 <= j <= k ==> !OccursAt(s, p, j) by {
          forall j | 0 <= j <= k
            ensures !OccursAt(s, p, j)
          {
            if 1 <= j {
              OccursAtShift(s, p, j);
            }
          }
        }
        OccursAtShift(s, p, k + 1);
        Some(k + 1)
  }

  /** An occurrence after the first character is an occurrence in the rest. */
  lemma OccursAtShift(s: string, p: string, j: int)
    requires s != [] && 1 <= j
    ensures OccursAt(s, p, j) <==> OccursAt(s[1..], p, j - 1)
  {
    if j + |p| <= |s| {
      var a, b := s[j..j + |p|], s[1..][j - 1..j - 1 + |p|];
      forall i | 0 <= i < |p|
        ensures a[i] == b[i]
      {
        assert a[i] == s[j + i] && b[i] == s[j + i];
      }
      assert a == b;
    }
  }

  /** p in s. */
  predicate Contains(s: string, p: string)
    requires p != []
  {
    Find(s, p).Some?
  }

  /** The separators put back between the parts: the inverse of SplitOn. */
  function Join(parts: seq<string>, c: char): string
    requires parts != []
  {
    if |parts| == 1 then parts[0] else parts[0] + [c] + Join(parts[1..], c)
  }

  /** s.split(c) for a one-character separator c: every occurrence of c separates two parts,
      so "a__b".split('_') is ["a", "", "b"] and "".split('_') is [""]. */
  function SplitOn(s: string, c: char): (parts: seq<string>)
    ensures parts != []
    ensures forall k :: 0 <= k < |parts| ==> c !in parts[k]
    ensures Join(parts, c) == s
  {
    if s == [] then [[]]
    else
      var rest := SplitOn(s[1..], c);
      if s[0] == c then
        [[]] + rest
      else
        var r := [[s[0]] + rest[0]] + rest[1..];
        assert r[1..] == rest[1..];
        r
  }

  /** Splitting a part that holds no separator, followed by a separator and more text,
      gives that part first and then the split of the rest. */
  lemma {:induction false} SplitOnPrefix(a: string, c: char, b: string)
    requires c !in a
    ensures SplitOn(a + [c] + b, c) == [a] + SplitOn(b, c)
  {
    if a == [] {
      assert a + [c] + b == [c] + b;
      assert ([c] + b)[1..] == b;
    } else {
      assert (a + [c] + b)[1..] == a[1..] + [c] + b;
      SplitOnPrefix(a[1..], c, b);
      assert [a[0]] + a[1..] == a;
    }
  }

  /** A string without the separator splits into itself alone. */
  lemma {:induction false} SplitOnNone(a: string, c: char)
    requires c !in a
    ensures SplitOn(a, c) == [a]
  {
    if a != [] {
      SplitOnNone(a[1..], c);
      assert [a[0]] + a[1..] == a;
    }
  }

  // ---- decimal numbers ----

  predicate IsDigit(c: char) {
    '0' <= c <= '9'
  }

  function DigitChar(d: nat): (c: char)
    requires d < 10
    ensures IsDigit(c) && c as int - '0' as int == d
  {
    ('0' as int + d) as char
  }

  predicate AllDigits(s: string) {
    forall i :: 0 <= i < |s| ==> IsDigit(s[i])
  }

  /** The value of a string of decimal digits, most significant first. */
  function DigitsValue(s: string): nat
    requires AllDigits(s)
  {
    if s == [] then 0 else 10 * DigitsValue(s[..|s| - 1]) + (s[|s| - 1] as int - '0' as int)
  }

  /** str(n) for n >= 0: decimal digits without leading zeros. */
  function NatToString(n: nat): (s: string)
    ensures s != [] && AllDigits(s)
    ensures DigitsValue(s) == n
    ensures s[0] == '0' ==> n == 0
  {
    if n < 10 then [DigitChar(n)]
    else
      var s := NatToString(n / 10) + [DigitChar(n % 10)];
      assert s[..|s| - 1] == NatToString(n / 10);
      s
  }

  /** str(i): a minus sign for negative numbers, then the digits of the magnitude. */
  function IntToString(i: int): (s: string)
    ensures s != [] && !IsSpace(s[0]) && !IsSpace(s[|s| - 1])
    ensures '_' !in s
  {
    if i < 0 then "-" + NatToString(-i) else NatToString(i)
  }

  /** An optional sign followed by at least one decimal digit. */
  function SignedDigits(t: string): Option<int> {
    if t != [] && (t[0] == '-' || t[0] == '+') then
      if t[1..] != [] && AllDigits(t[1..]) then
        var v: int := DigitsValue(t[1..]);
        Some(if t[0] == '-' then -v else v)
      else None
    else if t != [] && AllDigits(t) then Some(DigitsValue(t))
    else None
  }

  /** The ASCII information separators U+001C..U+001F: whitespace to str.strip() but not
      to int(). */
  predicate IsInfoSeparator(c: char) {
    '\U{1C}' <= c <= '\U{1F}'
  }

  /** The whitespace int() skips around a number: \t \n \v \f \r and space among the ASCII
      characters, and every non-ASCII character of str.isspace(). */
  predicate IsIntSpace(c: char) {
    IsSpace(c) && !IsInfoSeparator(c)
  }

  /** The leading whitespace int() skips. */
  function IntLStrip(s: string): (r: string)
    ensures |r| <= |s| && r == s[|s| - |r|..]
    ensures r == [] || !IsIntSpace(r[0])
  {
    if s != [] && IsIntSpace(s[0]) then IntLStrip(s[1..]) else s
  }

  /** The trailing whitespace int() skips. */
  function IntRStrip(s: string): (r: string)
    ensures |r| <= |s| && r == s[..|r|]
    ensures r == [] || !IsIntSpace(r[|r| - 1])
  {
    if s != [] && IsIntSpace(s[|s| - 1]) then IntRStrip(s[..|s| - 1]) else s
  }

  /** What int() skips at the front is its own whitespace. */
  lemma {:induction false} IntLStripDropsOnlySpace(s: string)
    ensures forall i :: 0 <= i < |s| - |IntLStrip(s)| ==> IsIntSpace(s[i])
  {
    if s != [] && IsIntSpace(s[0]) {
      IntLStripDropsOnlySpace(s[1..]);
      forall i | 0 <= i < |s| - |IntLStrip(s)|
        ensures IsIntSpace(s[i])
      {
        if i > 0 {
          assert s[i] == s[1..][i - 1];
        }
      }
    }
  }

  /** What int() skips at the back is its own whitespace. */
  lemma {:induction false} IntRStripDropsOnlySpace(s: string)
    ensures forall i :: |IntRStrip(s)| <= i < |s| ==> IsIntSpace(s[i])
  {
    if s != [] && IsIntSpace(s[|s| - 1]) {
      var init := s[..|s| - 1];
      IntRStripDropsOnlySpace(init);
      forall i | |IntRStrip(s)| <= i < |s|
        ensures IsIntSpace(s[i])
      {
        if i < |s| - 1 {
          assert s[i] == init[i];
        }
      }
    }
  }

  /** The characters of a number that SignedDigits reads: digits and a leading sign. */
  lemma SignedDigitsChars(t: string)
    requires SignedDigits(t).Some?
    ensures t != []
    ensures forall i :: 0 <= i < |t| ==> IsDigit(t[i]) || t[i] == '-' || t[i] == '+'
  {
    if t[0] == '-' || t[0] == '+' {
      forall i | 0 < i < |t|
        ensures IsDigit(t[i])
      {
        assert t[i] == t[1..][i - 1];
      }
    }
  }

  /** A string int() reads as a number holds no information separator, and something is
      left of it after str.strip(). */
  lemma ParsedHasNoSeparator(s: string)
    ensures SignedDigits(IntRStrip(IntLStrip(s))).Some? ==>
      Strip(s) != [] && forall i :: 0 <= i < |s| ==> !IsInfoSeparator(s[i])
  {
    var l := IntLStrip(s);
    var t := IntRStrip(l);
    if SignedDigits(t).Some? {
      SignedDigitsChars(t);
      IntLStripDropsOnlySpace(s);
      IntRStripDropsOnlySpace(l);
      var k := |s| - |l|;
      assert s[k..] == l && l[..|t|] == t;
      SpacedNumber(s, k, l, t);
      NotAllSpace(s, k);
    }
  }

  /** Around a string of digits and signs, int()'s whitespace on both sides: no
      information separator anywhere. */
  lemma SpacedNumber(s: string, k: nat, l: string, t: string)
    requires k <= |s| && s[k..] == l && |t| <= |l| && l[..|t|] == t
    requires forall i :: 0 <= i < k ==> IsIntSpace(s[i])
    requires forall i :: |t| <= i < |l| ==> IsIntSpace(l[i])
    requires forall i :: 0 <= i < |t| ==> IsDigit(t[i]) || t[i] == '-' || t[i] == '+'
    ensures forall i :: 0 <= i < |s| ==> !IsInfoSeparator(s[i])
  {
    forall i | k <= i < |s|
      ensures !IsInfoSeparator(s[i])
    {
      assert s[i] == l[i - k];
      if i - k < |t| {
        assert l[i - k] == t[i - k];
      }
    }
  }

  /** A string with a non-whitespace character does not strip to nothing. */
  lemma NotAllSpace(s: string, k: int)
    requires 0 <= k < |s| && !IsSpace(s[k])
    ensures Strip(s) != []
  {
    StripEmptyIff(s);
  }

  /** int(s) on ASCII digits: the whitespace int() skips is ignored at both ends, then one
      optional sign and at least one decimal digit; anything else raises ValueError (None).
      An information separator anywhere makes it fail, although str.strip() drops one. */
  function ParseInt(s: string): (r: Option<int>)
    ensures r.Some? ==> Strip(s) != []
    ensures r.Some? ==> forall i :: 0 <= i < |s| ==> !IsInfoSeparator(s[i])
  {
    ParsedHasNoSeparator(s);
    SignedDigits(IntRStrip(IntLStrip(s)))
  }

  /** int() fails on a string holding an information separator; on any other string it
      reads what str.strip() leaves. */
  lemma ParseIntViaStrip(s: string)
    ensures ParseInt(s) ==
      if exists i :: 0 <= i < |s| && IsInfoSeparator(s[i]) then None else SignedDigits(Strip(s))
  {
    if forall i :: 0 <= i < |s| ==> !IsInfoSeparator(s[i]) {
      IntLStripIsLStrip(s);
      IntRStripIsRStrip(LStrip(s));
    }
  }

  /** Without information separators, int()'s leading whitespace is lstrip's. */
  lemma {:induction false} IntLStripIsLStrip(s: string)
    requires forall i :: 0 <= i < |s| ==> !IsInfoSeparator(s[i])
    ensures IntLStrip(s) == LStrip(s)
  {
    if s != [] {
      assert !IsInfoSeparator(s[0]);
      if IsSpace(s[0]) {
        assert forall i :: 0 <= i < |s[1..]| ==> s[1..][i] == s[i + 1];
        IntLStripIsLStrip(s[1..]);
      }
    }
  }

  /** Without information separators, int()'s trailing whitespace is rstrip's. */
  lemma {:induction false} IntRStripIsRStrip(s: string)
    requires forall i :: 0 <= i < |s| ==> !IsInfoSeparator(s[i])
    ensures IntRStrip(s) == RStrip(s)
  {
    if s != [] {
      assert !IsInfoSeparator(s[|s| - 1]);
      if IsSpace(s[|s| - 1]) {
        assert forall i :: 0 <= i < |s[..|s| - 1]| ==> s[..|s| - 1][i] == s[i];
        IntRStripIsRStrip(s[..|s| - 1]);
      }
    }
  }

  /** int(str(i)) == i for every integer i. */
  lemma IntRoundTrip(i: int)
    ensures ParseInt(IntToString(i)) == Some(i)
  {
    ParseUnspaced(IntToString(i));
    if i < 0 {
      NegativeDigits(NatToString(-i));
    } else {
      UnsignedDigits(NatToString(i));
    }
  }

  /** int() of a string without whitespace at its ends reads the string itself. */
  lemma ParseUnspaced(s: string)
    requires s == [] || (!IsSpace(s[0]) && !IsSpace(s[|s| - 1]))
    ensures ParseInt(s) == SignedDigits(s)
  {
    assert IntLStrip(s) == s;
  }

  /** A minus sign and decimal digits read back as the negated value. */
  lemma NegativeDigits(d: string)
    requires d != [] && AllDigits(d)
    ensures SignedDigits("-" + d) == Some(0 - DigitsValue(d) as int)
  {
    assert ("-" + d)[1..] == d;
  }

  /** Decimal digits alone read back as their value. */
  lemma UnsignedDigits(d: string)
    requires d != [] && AllDigits(d)
    ensures SignedDigits(d) == Some(DigitsValue(d))
  {
    assert IsDigit(d[0]);
  }
}
