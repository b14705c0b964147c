/**
 * The parts of java.lang.String and java.lang.Integer that the request
 * handler depends on, over Dafny strings: contains, split on a one-character
 * delimiter, trim, upper-casing, and parseInt with its partner toString.
 */
module JavaStrings {
  import opened Wrappers

  /** Bounds of a Java `int`. */
  const INT_MIN := -0x8000_0000
  const INT_MAX := 0x7FFF_FFFF

  // ---------------------------------------------------------------------
  // String.contains

  /** `sub` occurs in `s` starting at index `i`. */
  predicate OccursAt(s: string, sub: string, i: int)
  {
    0 <= i && i + |sub| <= |s| && s[i..i + |sub|] == sub
  }

  /** String.contains: tries each start position from the left. */
  predicate Contains(s: string, sub: string)
    ensures Contains(s, sub) ==> |sub| <= |s|
    ensures sub == [] ==> Contains(s, sub)
    decreases |s|
  {
    (|sub| <= |s| && s[..|sub|] == sub) || (|s| > 0 && Contains(s[1..], sub))
  }

  /** `Contains` holds exactly when `sub` occurs at some position of `s`. */
  lemma {:induction false} ContainsIff(s: string, sub: string)
    ensures Contains(s, sub) <==> exists i :: OccursAt(s, sub, i)
    decreases |s|
  {
    if |sub| <= |s| && s[..|sub|] == sub {
      assert OccursAt(s, sub, 0);
    } else if |s| > 0 {
      ContainsIff(s[1..], sub);
      if Contains(s[1..], sub) {
        var i :| OccursAt(s[1..], sub, i);
        assert s[i + 1..i + 1 + |sub|] == s[1..][i..i + |sub|];
        assert OccursAt(s, sub, i + 1);
      }
      if exists i :: OccursAt(s, sub, i) {
        var i :| OccursAt(s, sub, i);
        assert i != 0;
        assert s[1..][i - 1..i - 1 + |sub|] == s[i..i + |sub|];
        assert OccursAt(s[1..], sub, i - 1);
      }
    }
  }

  /** An occurrence in `s` is an occurrence in `p + s`, shifted by `|p|`, and back. */
  lemma OccursAfterPrefix(p: string, s: string, sub: string, i: int)
    requires 0 <= i
    ensures OccursAt(s, sub, i) <==> OccursAt(p + s, sub, i + |p|)
  {
    if 0 <= i && i + |sub| <= |s| {
      assert (p + s)[i + |p|..i + |p| + |sub|] == s[i..i + |sub|];
    }
  }

  /**
   * An occurrence of a non-empty `sub` in `p + s` starts with its first
   * character, so it starts past `p` when `p` lacks that character.
   */
  lemma OccurrencePastPrefix(p: string, s: string, sub: string, i: int)
    requires |sub| > 0 && sub[0] !in p && OccursAt(p + s, sub, i)
    ensures i >= |p|
  {
    assert (p + s)[i..i + |sub|][0] == (p + s)[i];
  }

  /**
   * A prefix that does not hold the first character of `sub` cannot hide an
   * occurrence: `p + s` contains `sub` exactly when `s` does.
   */
  lemma ContainsAfterPrefix(p: string, s: string, sub: string)
    requires |sub| > 0 && sub[0] !in p
    ensures Contains(p + s, sub) <==> Contains(s, sub)
  {
    ContainsIff(p + s, sub);
    ContainsIff(s, sub);
    if exists i :: OccursAt(p + s, sub, i) {
      var i :| OccursAt(p + s, sub, i);
      OccurrencePastPrefix(p, s, sub, i);
      OccursAfterPrefix(p, s, sub, i - |p|);
    }
    if exists i :: OccursAt(s, sub, i) {
      var i :| OccursAt(s, sub, i);
      OccursAfterPrefix(p, s, sub, i);
    }
  }

  /** A string without the first character of `sub` does not contain `sub`. */
  lemma NotContainsWithoutFirstChar(s: string, sub: string)
    requires |sub| > 0 && sub[0] !in s
    ensures !Contains(s, sub)
  {
    ContainsAfterPrefix(s, "", sub);
    assert s + "" == s;
  }

  // ---------------------------------------------------------------------
  // String.split with a one-character delimiter

  /** Index of the first occurrence of `d` in `s`. */
  function IndexOf(s: string, d: char): (i: nat)
    requires d in s
    ensures i < |s| && s[i] == d && d !in s[..i]
  {
    if s[0] == d then 0
    else
      var j := IndexOf(s[1..], d);
      assert s[..j + 1] == [s[0]] + s[1..][..j];
      j + 1
  }

  /**
   * The pieces of `s` between occurrences of `d`, empty ones included: the
   * list String.split builds before it drops trailing empty strings.
   */
  function Pieces(s: string, d: char): (ps: seq<string>)
    ensures |ps| >= 1
    ensures forall k :: 0 <= k < |ps| ==> d !in ps[k]
    decreases |s|
  {
    if d !in s then [s]
    else
      var i := IndexOf(s, d);
      [s[..i]] + Pieces(s[i + 1..], d)
  }

  /** Glues pieces back together with `d` between neighbours. */
  function Join(ps: seq<string>, d: char): (s: string)
  {
    if |ps| == 0 then ""
    else if |ps| == 1 then ps[0]
    else ps[0] + [d] + Join(ps[1..], d)
  }

  /** `Pieces` loses nothing: joining them restores `s`. */
  lemma {:induction false} PiecesJoin(s: string, d: char)
    ensures Join(Pieces(s, d), d) == s
    decreases |s|
  {
    if d in s {
      var i := IndexOf(s, d);
      PiecesJoin(s[i + 1..], d);
      var rest := Pieces(s[i + 1..], d);
      assert Pieces(s, d) == [s[..i]] + rest;
      assert ([s[..i]] + rest)[1..] == rest;
      assert s == s[..i] + [d] + s[i + 1..];
    }
  }

  /** A piece free of `d`, then `d`, then the rest: the piece comes off whole. */
  lemma PiecesCons(a: string, d: char, b: string)
    requires d !in a
    ensures Pieces(a + [d] + b, d) == [a] + Pieces(b, d)
  {
    var s := a + [d] + b;
    assert s[|a|] == d;
    var i := IndexOf(s, d);
    assert s[..i] == a;
    assert s[i + 1..] == b;
  }

  /** Removes the empty strings at the end, as String.split with limit 0 does. */
  function DropTrailingEmpty(ps: seq<string>): (r: seq<string>)
    ensures r <= ps
    ensures |r| > 0 ==> r[|r| - 1] != ""
    ensures forall k :: |r| <= k < |ps| ==> ps[k] == ""
  {
    if |ps| > 0 && ps[|ps| - 1] == "" then DropTrailingEmpty(ps[..|ps| - 1]) else ps
  }

  /**
   * String.split(String.valueOf(d)) for a delimiter that is not a
   * regular-expression metacharacter ('/' and '=' here): with no occurrence
   * the result is the whole string alone, otherwise the pieces with the
   * trailing empty ones removed.
   */
  function Split(s: string, d: char): (parts: seq<string>)
    ensures |parts| <= |Pieces(s, d)| && parts == Pieces(s, d)[..|parts|]
    ensures forall k :: 0 <= k < |parts| ==> d !in parts[k]
    ensures d in s && |parts| > 0 ==> parts[|parts| - 1] != ""
    ensures forall k :: |parts| <= k < |Pieces(s, d)| ==> Pieces(s, d)[k] == ""
    ensures d !in s ==> parts == [s]
  {
    if d !in s then [s] else DropTrailingEmpty(Pieces(s, d))
  }

  /** A list that ends in a non-empty string loses nothing to `DropTrailingEmpty`. */
  lemma DropTrailingEmptyKeeps(ps: seq<string>)
    requires |ps| > 0 && ps[|ps| - 1] != ""
    ensures DropTrailingEmpty(ps) == ps
  {
  }

  /** One delimiter at the very end leaves no piece behind it: split drops the empty one. */
  lemma SplitTrailingDelimiter(a: string, d: char)
    requires a != "" && d !in a
    ensures Split(a + [d], d) == [a]
  {
    PiecesCons(a, d, "");
    assert a + [d] + "" == a + [d];
    assert Pieces("", d) == [""];
    assert DropTrailingEmpty([a] + [""]) == DropTrailingEmpty([a]);
  }

  // ---------------------------------------------------------------------
  // String.trim

  /** The characters String.trim strips: every code point up to the space. */
  predicate IsBlank(c: char)
  {
    c <= ' '
  }

  /** Strips the leading blanks. */
  function TrimStart(s: string): (r: string)
    ensures |r| <= |s| && r == s[|s| - |r|..]
    ensures forall k :: 0 <= k < |s| - |r| ==> IsBlank(s[k])
    ensures |r| > 0 ==> !IsBlank(r[0])
    decreases |s|
  {
    if |s| > 0 && IsBlank(s[0]) then TrimStart(s[1..]) else s
  }

  /** Strips the trailing blanks. */
  function TrimEnd(s: string): (r: string)
    ensures |r| <= |s| && r == s[..|r|]
    ensures forall k :: |r| <= k < |s| ==> IsBlank(s[k])
    ensures |r| > 0 ==> !IsBlank(r[|r| - 1])
  {
    if |s| > 0 && IsBlank(s[|s| - 1]) then TrimEnd(s[..|s| - 1]) else s
  }

  /** `r` is `s` with only blanks cut off: `i` characters at the front, the rest at the back. */
  predicate BlanksAround(s: string, r: string, i: int)
  {
    && 0 <= i <= |s| - |r| && r == s[i..i + |r|]
    && (forall k :: 0 <= k < i ==> IsBlank(s[k]))
    && (forall k :: i + |r| <= k < |s| ==> IsBlank(s[k]))
  }

  /** Cutting blanks from the front of `s` and then from the back of the rest leaves `s` with blanks around. */
  lemma CutBothEnds(s: string, t: string, r: string)
    requires |t| <= |s| && t == s[|s| - |t|..]
    requires forall k :: 0 <= k < |s| - |t| ==> IsBlank(s[k])
    requires |r| <= |t| && r == t[..|r|]
    requires forall k :: |r| <= k < |t| ==> IsBlank(t[k])
    ensures BlanksAround(s, r, |s| - |t|)
  {
    var i := |s| - |t|;
    forall k | i + |r| <= k < |s|
      ensures IsBlank(s[k])
    {
      assert s[k] == t[k - i];
    }
  }

  /** String.trim: the longest middle part of `s` with no blank at either end. */
  function Trim(s: string): (r: string)
    ensures |r| <= |s|
    ensures |r| > 0 ==> !IsBlank(r[0]) && !IsBlank(r[|r| - 1])
    ensures exists i :: BlanksAround(s, r, i)
  {
    var t := TrimStart(s);
    var r := TrimEnd(t);
    CutBothEnds(s, t, r);
    r
  }

  /** The trimmed string is empty exactly when `s` is all blanks. */
  lemma TrimEmptyIff(s: string)
    ensures Trim(s) == "" <==> forall k :: 0 <= k < |s| ==> IsBlank(s[k])
  {
  }

  /** Trimming twice is trimming once. */
  lemma TrimIdempotent(s: string)
    ensures Trim(Trim(s)) == Trim(s)
  {
    var r := Trim(s);
    if |r| > 0 {
      assert TrimStart(r) == r;
      assert TrimEnd(r) == r;
    }
  }

  // ---------------------------------------------------------------------
  // String.toUpperCase

  /** Upper-cases the ASCII letters a-z and keeps every other character. */
  function UpperChar(c: char): (u: char)
  {
    if 'a' <= c <= 'z' then (c as int - 32) as char else c
  }

  /** The lower-case letter of an upper-case ASCII letter. */
  function LowerChar(c: char): (l: char)
    requires 'A' <= c <= 'Z'
  {
    (c as int + 32) as char
  }

  /** String.toUpperCase, character by character. */
  function ToUpperCase(s: string): (r: string)
    ensures |r| == |s|
    ensures forall k :: 0 <= k < |s| ==> r[k] == UpperChar(s[k])
  {
    if |s| == 0 then "" else [UpperChar(s[0])] + ToUpperCase(s[1..])
  }

  /** Upper-casing an upper-cased string changes nothing. */
  lemma ToUpperCaseIdempotent(s: string)
    ensures ToUpperCase(ToUpperCase(s)) == ToUpperCase(s)
  {
    var u := ToUpperCase(s);
    assert forall k :: 0 <= k < |u| ==> ToUpperCase(u)[k] == u[k];
  }

  /** `w` is a word of upper-case ASCII letters. */
  predicate IsUpperWord(w: string)
  {
    forall k :: 0 <= k < |w| ==> 'A' <= w[k] <= 'Z'
  }

  /** A character upper-cases to the letter `u` exactly when it is `u` in either case. */
  lemma UpperCharMatches(c: char, u: char)
    requires 'A' <= u <= 'Z'
    ensures UpperChar(c) == u <==> c == u || c == LowerChar(u)
  {
  }

  /**
   * Upper-casing turns `s` into the upper-case word `w` exactly when `s`
   * spells `w` with each letter in either case.
   */
  lemma ToUpperCaseMatches(s: string, w: string)
    requires IsUpperWord(w)
    ensures ToUpperCase(s) == w <==>
      |s| == |w| && forall k :: 0 <= k < |s| ==> s[k] == w[k] || s[k] == LowerChar(w[k])
  {
    var u := ToUpperCase(s);
    if |s| == |w| {
      forall k | 0 <= k < |s|
        ensures u[k] == w[k] <==> s[k] == w[k] || s[k] == LowerChar(w[k])
      {
        UpperCharMatches(s[k], w[k]);
      }
      if forall k :: 0 <= k < |s| ==> u[k] == w[k] {
        assert u == w;
      }
    }
  }

  // ---------------------------------------------------------------------
  // Integer.parseInt and Integer.toString (radix 10)

  predicate IsDigit(c: char)
  {
    '0' <= c <= '9'
  }

  predicate AllDigits(ds: string)
  {
    forall k :: 0 <= k < |ds| ==> IsDigit(ds[k])
  }

  function DigitValue(c: char): (v: nat)
    requires IsDigit(c)
  {
    c as int - '0' as int
  }

  function DigitChar(n: nat): (c: char)
    requires n < 10
  {
    ('0' as int + n) as char
  }

  /** The number a run of decimal digits denotes, most significant first. */
  function DigitsValue(ds: string): (v: nat)
    requires AllDigits(ds)
  {
    if |ds| == 0 then 0 else DigitsValue(ds[..|ds| - 1]) * 10 + DigitValue(ds[|ds| - 1])
  }

  /**
   * Integer.parseInt: an optional '+' or '-', then one or more ASCII digits,
   * denoting a value inside the `int` range; None where Java throws
   * NumberFormatException.
   */
  function ParseInt(s: string): (r: Option<int>)
    ensures r.Some? ==> INT_MIN <= r.value <= INT_MAX
    ensures r.Some? ==> |s| > 0 && (IsDigit(s[0]) || s[0] == '+' || s[0] == '-')
    ensures r.Some? ==> forall k :: 0 < k < |s| ==> IsDigit(s[k])
    ensures r.Some? ==> IsDigit(s[|s| - 1])
  {
    if |s| == 0 then None
    else
      var digits := if s[0] == '-' || s[0] == '+' then s[1..] else s;
      if |digits| == 0 || !AllDigits(digits) then None
      else
        var v := SignedValue(if s[0] == '-' then "-" else "", digits);
        if INT_MIN <= v <= INT_MAX then Some(v) else None
  }

  /** The value an optional sign in front of a run of digits gives: negated after '-'. */
  function SignedValue(sign: string, digits: string): (v: int)
    requires AllDigits(digits)
    ensures sign == "-" ==> v <= 0
    ensures sign != "-" ==> v >= 0
  {
    if sign == "-" then -(DigitsValue(digits) as int) else DigitsValue(digits)
  }

  /**
   * parseInt accepts every optional sign followed by one or more digits
   * whose signed value fits an `int`, leading zeros and "-0" included, and
   * gives that value.
   */
  lemma ParseIntAccepts(sign: string, digits: string)
    requires sign == "" || sign == "+" || sign == "-"
    requires |digits| > 0 && AllDigits(digits)
    requires INT_MIN <= SignedValue(sign, digits) <= INT_MAX
    ensures ParseInt(sign + digits) == Some(SignedValue(sign, digits))
  {
    var s := sign + digits;
    if sign == "" {
      assert s == digits;
      assert IsDigit(s[0]);
    } else {
      assert s[0] == sign[0];
      assert s[1..] == digits;
    }
  }

  /**
   * For a text made of an optional sign and digits, parseInt refuses exactly
   * the bare sign (or the empty text) and the digit runs whose signed value
   * falls outside the `int` range.
   */
  lemma ParseIntRefuses(sign: string, digits: string)
    requires sign == "" || sign == "+" || sign == "-"
    requires AllDigits(digits)
    ensures ParseInt(sign + digits).None? <==>
              (|digits| == 0 || !(INT_MIN <= SignedValue(sign, digits) <= INT_MAX))
  {
    var s := sign + digits;
    if sign == "" {
      assert s == digits;
    } else {
      assert s[0] == sign[0];
      assert s[1..] == digits;
    }
  }

  /** Decimal digits of `n` without leading zeros. */
  function NatToString(n: nat): (s: string)
    ensures |s| > 0 && AllDigits(s)
  {
    if n < 10 then [DigitChar(n)] else NatToString(n / 10) + [DigitChar(n % 10)]
  }

  /** Integer.toString: a minus sign for negative values, then the digits. */
  function IntToString(n: int): (s: string)
    ensures |s| > 0
    ensures forall k :: 0 <= k < |s| ==> IsDigit(s[k]) || s[k] == '-'
  {
    if n < 0 then "-" + NatToString(-n) else NatToString(n)
  }

  /** Reading back the digits of `n` gives `n`. */
  lemma {:induction false} NatToStringValue(n: nat)
    ensures DigitsValue(NatToString(n)) == n
  {
    var s := NatToString(n);
    if n >= 10 {
      NatToStringValue(n / 10);
      assert s[..|s| - 1] == NatToString(n / 10);
    }
  }

  /** parseInt inverts toString on every `int`. */
  lemma ParseIntToString(n: int)
    requires INT_MIN <= n <= INT_MAX
    ensures ParseInt(IntToString(n)) == Some(n)
  {
    var s := IntToString(n);
    if n < 0 {
      NatToStringValue(-n);
      assert s[1..] == NatToString(-n);
    } else {
      NatToStringValue(n);
    }
  }
}
