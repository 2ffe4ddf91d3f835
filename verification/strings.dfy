/** Small wrapper types shared by every module. */
module Wrappers {
  datatype Option<+T> = None | Some(value: T)
}

/**
  The PHP string primitives the script relies on: `empty()`, `strtolower`,
  `trim`, `str_contains`, `explode`/`implode`, the `(int)` cast, decimal
  formatting of integers, `urlencode` and `mysqli_real_escape_string`.
  PHP strings are byte strings; here each `char` stands for one byte.
 */
module PhpStrings {
  import opened Wrappers

  /** PHP `empty()` on a string: only "" and "0" are empty. */
  predicate Empty(s: string) {
    s == "" || s == "0"
  }

  /** Every character is a byte (code below 256), as in a PHP string. */
  predicate IsBytes(s: string) {
    forall i :: 0 <= i < |s| ==> s[i] as int < 256
  }

  // ---------------------------------------------------------------- case

  function LowerChar(c: char): char {
    if 'A' <= c <= 'Z' then (c as int + 32) as char else c
  }

  /** `strtolower`: ASCII-only, byte for byte. */
  function Lower(s: string): string {
    seq(|s|, i requires 0 <= i < |s| => LowerChar(s[i]))
  }

  predicate HasNoUpper(s: string) {
    forall i :: 0 <= i < |s| ==> !('A' <= s[i] <= 'Z')
  }

  lemma LowerOfLowercase(s: string)
    requires HasNoUpper(s)
    ensures Lower(s) == s
  {
  }

  // ---------------------------------------------------------------- trim

  /** The bytes `trim` strips by default: space, \t, \n, \r, \0 and \x0B. */
  predicate IsTrimChar(c: char) {
    c == ' ' || c == '\t' || c == '\n' || c == '\r' || c == '\0' || c == 11 as char
  }

  function TrimLeft(s: string): (r: string)
    ensures |r| <= |s| && r == s[|s| - |r|..]
    ensures |r| == 0 || !IsTrimChar(r[0])
    ensures forall i :: 0 <= i < |s| - |r| ==> IsTrimChar(s[i])
  {
    if |s| > 0 && IsTrimChar(s[0]) then TrimLeft(s[1..]) else s
  }

  function TrimRight(s: string): (r: string)
    ensures |r| <= |s| && r == s[..|r|]
    ensures |r| == 0 || !IsTrimChar(r[|r| - 1])
    ensures forall i :: |r| <= i < |s| ==> IsTrimChar(s[i])
  {
    if |s| > 0 && IsTrimChar(s[|s| - 1]) then TrimRight(s[..|s| - 1]) else s
  }

  /** `trim($s)`: the longest infix of `s` that neither starts nor ends with a trim byte. */
  function Trim(s: string): (r: string)
    ensures |r| <= |s|
    ensures |r| == 0 || (!IsTrimChar(r[0]) && !IsTrimChar(r[|r| - 1]))
  {
    TrimRight(TrimLeft(s))
  }

  /** The result of `trim` in terms of its two steps, for `TrimIsInfix`. */
  predicate TrimmedAt(s: string, r: string, k: int) {
    && 0 <= k <= |s| - |r| && s[k..k + |r|] == r
    && (forall i :: 0 <= i < k ==> IsTrimChar(s[i]))
    && (forall i :: k + |r| <= i < |s| ==> IsTrimChar(s[i]))
  }

  /**
    `trim` removes only trim bytes, and only from the two ends: the result
    sits in the input at some offset, with nothing but trim bytes before
    and after it. With the end conditions of `Trim`, this makes the result
    the longest such infix.
   */
  lemma TrimIsInfix(s: string)
    ensures exists k :: TrimmedAt(s, Trim(s), k)
  {
    var l := TrimLeft(s);
    var r := TrimRight(l);
    StripsCompose(s, l, r);
    assert TrimmedAt(s, Trim(s), |s| - |l|);
  }

  lemma StripsCompose(s: string, l: string, r: string)
    requires |l| <= |s| && l == s[|s| - |l|..]
    requires forall i :: 0 <= i < |s| - |l| ==> IsTrimChar(s[i])
    requires |r| <= |l| && r == l[..|r|]
    requires forall i :: |r| <= i < |l| ==> IsTrimChar(l[i])
    ensures TrimmedAt(s, r, |s| - |l|)
  {
    var k := |s| - |l|;
    forall i | k + |r| <= i < |s|
      ensures IsTrimChar(s[i])
    {
      assert s[i] == l[i - k];
    }
    assert s[k..k + |r|] == r;
  }

  // ---------------------------------------------------------- substrings

  /** `d` occurs in `s` starting at index `k`. */
  predicate OccursAt(s: string, d: string, k: int) {
    0 <= k && k + |d| <= |s| && s[k..k + |d|] == d
  }

  function IndexFrom(s: string, d: string, i: nat): (r: Option<nat>)
    requires |d| > 0 && i <= |s|
    ensures r.Some? ==> i <= r.value && OccursAt(s, d, r.value)
    ensures r.Some? ==> forall k :: i <= k < r.value ==> !OccursAt(s, d, k)
    ensures r.None? ==> forall k :: i <= k ==> !OccursAt(s, d, k)
    decreases |s| - i
  {
    if i + |d| > |s| then None
    else if s[i..i + |d|] == d then Some(i)
    else IndexFrom(s, d, i + 1)
  }

  /** `strpos($s, $d)`: the leftmost occurrence of a non-empty needle. */
  function IndexOf(s: string, d: string): (r: Option<nat>)
    requires |d| > 0
    ensures r.Some? ==> OccursAt(s, d, r.value)
    ensures r.Some? ==> forall k :: 0 <= k < r.value ==> !OccursAt(s, d, k)
    ensures r.None? ==> forall k :: !OccursAt(s, d, k)
  {
    IndexFrom(s, d, 0)
  }

  /** `str_contains($s, $d)`; the empty needle is contained everywhere. */
  predicate Contains(s: string, d: string) {
    |d| == 0 || IndexOf(s, d).Some?
  }

  lemma ContainsIff(s: string, d: string)
    ensures Contains(s, d) <==> exists k :: OccursAt(s, d, k)
  {
    if |d| == 0 {
      assert OccursAt(s, d, 0);
    }
  }

  lemma ContainsLength(s: string, d: string)
    requires Contains(s, d)
    ensures |d| <= |s|
  {
  }

  // ------------------------------------------------------ explode/implode

  /** `explode($d, $s)`: the pieces between the leftmost non-overlapping occurrences of `d`. */
  function Explode(d: string, s: string): (parts: seq<string>)
    requires |d| > 0
    ensures |parts| >= 1
    ensures forall i, k :: 0 <= i < |parts| ==> !OccursAt(parts[i], d, k)
    decreases |s|
  {
    match IndexOf(s, d)
    case None => [s]
    case Some(i) =>
      var head := s[..i];
      forall k | 0 <= k
        ensures !OccursAt(head, d, k)
      {
        if k + |d| <= |head| {
          assert head[k..k + |d|] == s[k..k + |d|];
          assert k < i && !OccursAt(s, d, k);
        }
      }
      var rest := Explode(d, s[i + |d|..]);
      assert forall j :: 1 <= j < |rest| + 1 ==> ([head] + rest)[j] == rest[j - 1];
      [head] + rest
  }

  /** A string without the one-byte needle `[c]` does not hold `c`. */
  lemma NoByteWithoutNeedle(p: string, c: char)
    requires forall k :: !OccursAt(p, [c], k)
    ensures c !in p
  {
    forall k | 0 <= k < |p|
      ensures p[k] != c
    {
      assert !OccursAt(p, [c], k);
      assert p[k..k + 1][0] == p[k];
    }
  }

  /** `implode($d, $xs)`. */
  function Implode(d: string, xs: seq<string>): string
    decreases |xs|
  {
    if |xs| == 0 then ""
    else if |xs| == 1 then xs[0]
    else xs[0] + d + Implode(d, xs[1..])
  }

  /** Joining the pieces of `explode` gives back the original string. */
  lemma {:induction false} ImplodeExplode(d: string, s: string)
    requires |d| > 0
    ensures Implode(d, Explode(d, s)) == s
    decreases |s|
  {
    match IndexOf(s, d)
    case None =>
    case Some(i) =>
      var rest := Explode(d, s[i + |d|..]);
      ImplodeExplode(d, s[i + |d|..]);
      assert Explode(d, s) == [s[..i]] + rest;
      assert ([s[..i]] + rest)[1..] == rest;
      assert s == s[..i] + d + s[i + |d|..];
  }

  /**
    `d` first occurs in `x + d` right at the joint: no occurrence starts
    inside `x`, neither wholly in `x` nor overlapping the joint.
   */
  predicate FirstAtJoint(x: string, d: string) {
    forall k :: 0 <= k < |x| ==> !OccursAt(x + d, d, k)
  }

  /**
    The pieces survive a round trip through `implode` and `explode` when
    every piece but the last meets `d` only at its joint and the last
    does not contain `d` at all.
   */
  predicate Separable(xs: seq<string>, d: string) {
    && (forall i :: 0 <= i < |xs| - 1 ==> FirstAtJoint(xs[i], d))
    && (|xs| > 0 ==> !Contains(xs[|xs| - 1], d))
  }

  lemma JointIsLeftmost(x: string, d: string, rest: string)
    requires |d| > 0 && FirstAtJoint(x, d)
    ensures IndexOf(x + d + rest, d) == Some(|x|)
  {
    var s := x + d + rest;
    assert s[|x|..|x| + |d|] == d;
    assert OccursAt(s, d, |x|);
    forall k | 0 <= k < |x|
      ensures !OccursAt(s, d, k)
    {
      if OccursAt(s, d, k) {
        assert (x + d)[k..k + |d|] == s[k..k + |d|];
        assert OccursAt(x + d, d, k);
      }
    }
  }

  lemma {:induction false} ExplodeImplode(d: string, xs: seq<string>)
    requires |d| > 0 && |xs| > 0 && Separable(xs, d)
    ensures Explode(d, Implode(d, xs)) == xs
    decreases |xs|
  {
    if |xs| == 1 {
      assert IndexOf(xs[0], d).None?;
    } else {
      var rest := Implode(d, xs[1..]);
      assert Implode(d, xs) == xs[0] + d + rest;
      JointIsLeftmost(xs[0], d, rest);
      var s := xs[0] + d + rest;
      assert s[..|xs[0]|] == xs[0];
      assert s[|xs[0]| + |d|..] == rest;
      assert Explode(d, s) == [xs[0]] + Explode(d, rest);
      assert Separable(xs[1..], d);
      ExplodeImplode(d, xs[1..]);
      assert [xs[0]] + xs[1..] == xs;
    }
  }

  // --------------------------------------------------------- integers

  predicate IsDigit(c: char) {
    '0' <= c <= '9'
  }

  predicate AllDigits(s: string) {
    forall i :: 0 <= i < |s| ==> IsDigit(s[i])
  }

  /** A non-empty run of decimal digits. */
  predicate IsDecimal(s: string) {
    |s| > 0 && AllDigits(s)
  }

  function DigitChar(n: nat): char
    requires n < 10
  {
    ('0' as int + n) as char
  }

  /** The value of a run of decimal digits. */
  function DigitsValue(ds: string): nat
    requires AllDigits(ds)
  {
    if |ds| == 0 then 0
    else
      var last := ds[|ds| - 1];
      assert IsDigit(last);
      DigitsValue(ds[..|ds| - 1]) * 10 + (last as int - '0' as int)
  }

  /** The longest prefix of `s` made of digits. */
  function LeadingDigits(s: string): (r: string)
    ensures |r| <= |s| && r == s[..|r|] && AllDigits(r)
    ensures |r| == |s| || !IsDigit(s[|r|])
  {
    if |s| > 0 && IsDigit(s[0]) then
      var t := LeadingDigits(s[1..]);
      assert [s[0]] + t == s[..|t| + 1];
      [s[0]] + t
    else ""
  }

  /** The whitespace PHP skips before a numeric string: space, \t, \n, \r, \v, \f. */
  predicate IsNumericSpace(c: char) {
    c == ' ' || c == '\t' || c == '\n' || c == '\r' || c == 11 as char || c == 12 as char
  }

  function SkipNumericSpace(s: string): (r: string)
    ensures |r| <= |s| && r == s[|s| - |r|..]
    ensures |r| == 0 || !IsNumericSpace(r[0])
  {
    if |s| > 0 && IsNumericSpace(s[0]) then SkipNumericSpace(s[1..]) else s
  }

  /**
    PHP's `(int)` cast of a string: leading whitespace, an optional sign and
    the leading run of digits; a string without leading digits casts to 0.
   */
  function IntCast(s: string): (r: int)
    ensures var t := SkipNumericSpace(s);
      && (r < 0 ==> |t| > 1 && t[0] == '-' && IsDigit(t[1]))
      && (r > 0 ==> |t| > 0 && (IsDigit(t[0]) || (|t| > 1 && t[0] == '+' && IsDigit(t[1]))))
  {
    var t := SkipNumericSpace(s);
    if |t| > 0 && t[0] == '-' then 0 - DigitsValue(LeadingDigits(t[1..]))
    else if |t| > 0 && t[0] == '+' then DigitsValue(LeadingDigits(t[1..]))
    else DigitsValue(LeadingDigits(t))
  }

  /** The decimal text of a natural number, as PHP and MySQL print it. */
  function NatToString(n: nat): (r: string)
    ensures IsDecimal(r)
  {
    if n < 10 then [DigitChar(n)] else NatToString(n / 10) + [DigitChar(n % 10)]
  }

  lemma {:induction false} DigitsValueOfNatToString(n: nat)
    ensures DigitsValue(NatToString(n)) == n
  {
    if n >= 10 {
      var p := NatToString(n / 10);
      var s := p + [DigitChar(n % 10)];
      assert s[..|s| - 1] == p;
      DigitsValueOfNatToString(n / 10);
    }
  }

  /** `(int)` inverts decimal formatting, for positive and negative numbers alike. */
  lemma IntCastOfNatToString(n: nat)
    ensures IntCast(NatToString(n)) == n
    ensures IntCast("-" + NatToString(n)) == 0 - n
  {
    var s := NatToString(n);
    DigitsValueOfNatToString(n);
    IntCastOfDecimal(s);
  }

  /** A digit run casts to its value, and to its negation after a minus sign. */
  lemma IntCastOfDecimal(s: string)
    requires IsDecimal(s)
    ensures IntCast(s) == DigitsValue(s)
    ensures IntCast("-" + s) == 0 - DigitsValue(s)
  {
    LeadingDigitsOfDecimal(s);
    assert !IsNumericSpace(s[0]) && s[0] != '-' && s[0] != '+';
    assert SkipNumericSpace(s) == s;
    var m := "-" + s;
    assert m[0] == '-' && !IsNumericSpace(m[0]);
    assert SkipNumericSpace(m) == m;
    assert m[1..] == s;
  }

  lemma LeadingDigitsOfDecimal(s: string)
    requires AllDigits(s)
    ensures LeadingDigits(s) == s
  {
  }

  lemma IntCastOfNonNumeric(s: string)
    requires |s| > 0 && !IsDigit(s[0]) && !IsNumericSpace(s[0]) && s[0] != '-' && s[0] != '+'
    ensures IntCast(s) == 0
  {
  }

  /** `(int)` skips leading whitespace and reads only the leading digits, so `" 7"` is 7 and `"3abc"` is 3. */
  lemma IntCastOfPrefix(ws: string, ds: string, rest: string)
    requires forall i :: 0 <= i < |ws| ==> IsNumericSpace(ws[i])
    requires |ds| > 0 && AllDigits(ds)
    requires |rest| == 0 || !IsDigit(rest[0])
    ensures IntCast(ws + (ds + rest)) == DigitsValue(ds)
  {
    var t := ds + rest;
    var x := ws + t;
    assert t[0] == ds[0];
    SkipSpacePrefix(ws, t);
    LeadingDigitsPrefix(ds, rest);
    IntCastOfUnsigned(x, t);
  }

  lemma IntCastOfUnsigned(s: string, t: string)
    requires SkipNumericSpace(s) == t && |t| > 0 && IsDigit(t[0])
    ensures IntCast(s) == DigitsValue(LeadingDigits(t))
  {
    assert t[0] != '-' && t[0] != '+';
  }

  lemma {:induction false} SkipSpacePrefix(ws: string, t: string)
    requires forall i :: 0 <= i < |ws| ==> IsNumericSpace(ws[i])
    requires |t| > 0 && IsDigit(t[0])
    ensures SkipNumericSpace(ws + t) == t
    decreases |ws|
  {
    if |ws| > 0 {
      assert (ws + t)[1..] == ws[1..] + t;
      SkipSpacePrefix(ws[1..], t);
    }
  }

  lemma {:induction false} LeadingDigitsPrefix(ds: string, rest: string)
    requires AllDigits(ds)
    requires |rest| == 0 || !IsDigit(rest[0])
    ensures LeadingDigits(ds + rest) == ds
    decreases |ds|
  {
    if |ds| > 0 {
      assert (ds + rest)[1..] == ds[1..] + rest;
      LeadingDigitsPrefix(ds[1..], rest);
    }
  }

  // ---------------------------------------------------------- urlencode

  /** The bytes `urlencode` leaves unchanged: `[A-Za-z0-9_.-]`. */
  predicate IsUnreserved(c: char) {
    'a' <= c <= 'z' || 'A' <= c <= 'Z' || '0' <= c <= '9' || c == '-' || c == '_' || c == '.'
  }

  function HexDigit(n: nat): char
    requires n < 16
  {
    "0123456789ABCDEF"[n]
  }

  function UrlEncodeChar(c: char): string
    requires c as int < 256
  {
    if IsUnreserved(c) then [c]
    else if c == ' ' then "+"
    else ['%', HexDigit(c as int / 16), HexDigit(c as int % 16)]
  }

  /** `urlencode`: unreserved bytes pass, space becomes `+`, every other byte `%XX`. */
  function UrlEncode(s: string): (r: string)
    requires IsBytes(s)
    ensures |r| >= |s|
    ensures forall i :: 0 <= i < |r| ==> IsUnreserved(r[i]) || r[i] == '%' || r[i] == '+'
  {
    if |s| == 0 then "" else UrlEncodeChar(s[0]) + UrlEncode(s[1..])
  }

  /** `urlencode` changes a string exactly when some byte is reserved. */
  lemma {:induction false} UrlEncodeIdentity(s: string)
    requires IsBytes(s)
    ensures UrlEncode(s) == s <==> forall i :: 0 <= i < |s| ==> IsUnreserved(s[i])
  {
    if |s| > 0 {
      UrlEncodeIdentity(s[1..]);
      var e := UrlEncode(s);
      if !IsUnreserved(s[0]) {
        if s[0] == ' ' {
          assert e[0] == '+';
        } else {
          assert |e| >= 3 + |s[1..]|;
        }
        assert e != s;
      } else {
        assert e == [s[0]] + UrlEncode(s[1..]);
        if e == s {
          assert UrlEncode(s[1..]) == e[1..];
        }
        assert (forall i :: 0 <= i < |s| ==> IsUnreserved(s[i]))
          <==> (forall i :: 0 <= i < |s[1..]| ==> IsUnreserved(s[1..][i]));
      }
    }
  }

  // --------------------------------------------------- SQL string escaping

  /** The bytes `mysqli_real_escape_string` prefixes with a backslash. */
  predicate IsSqlSpecial(c: char) {
    c == '\0' || c == '\n' || c == '\r' || c == '\\' || c == '\'' || c == '"' || c == 26 as char
  }

  function EscapeChar(c: char): (r: string)
    ensures IsSqlSpecial(c) <==> |r| == 2
    ensures !IsSqlSpecial(c) ==> r == [c]
    ensures IsSqlSpecial(c) ==> r[0] == '\\'
  {
    if c == '\0' then "\\0"
    else if c == '\n' then "\\n"
    else if c == '\r' then "\\r"
    else if c == '\\' then "\\\\"
    else if c == '\'' then "\\'"
    else if c == '"' then "\\\""
    else if c == 26 as char then "\\Z"
    else [c]
  }

  /** `mysqli_real_escape_string`, byte by byte. */
  function SqlEscape(s: string): string {
    if |s| == 0 then "" else EscapeChar(s[0]) + SqlEscape(s[1..])
  }

  lemma {:induction false} SqlEscapeIdentity(s: string)
    requires forall i :: 0 <= i < |s| ==> !IsSqlSpecial(s[i])
    ensures SqlEscape(s) == s
  {
    if |s| > 0 {
      SqlEscapeIdentity(s[1..]);
    }
  }

  lemma EscapeCharInjective(a: char, b: char)
    requires EscapeChar(a) == EscapeChar(b)
    ensures a == b
  {
  }

  /** Distinct strings escape to distinct strings. */
  lemma {:induction false} SqlEscapeInjective(a: string, b: string)
    requires SqlEscape(a) == SqlEscape(b)
    ensures a == b
    decreases |a|
  {
    if |a| > 0 && |b| > 0 {
      var ea, eb := EscapeChar(a[0]), EscapeChar(b[0]);
      var s := SqlEscape(a);
      assert s == ea + SqlEscape(a[1..]);
      assert s == eb + SqlEscape(b[1..]);
      assert s[0] == ea[0] && s[0] == eb[0];
      assert IsSqlSpecial(a[0]) <==> s[0] == '\\';
      assert IsSqlSpecial(b[0]) <==> s[0] == '\\';
      assert |ea| == |eb|;
      assert ea == s[..|ea|] == eb;
      EscapeCharInjective(a[0], b[0]);
      assert SqlEscape(a[1..]) == s[|ea|..] == SqlEscape(b[1..]);
      SqlEscapeInjective(a[1..], b[1..]);
      assert a == [a[0]] + a[1..];
      assert b == [b[0]] + b[1..];
    }
  }
}
