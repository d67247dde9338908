/** Decimal text of integers as Python 2 writes it with `str()` and reads it
    with `int()`, and the `"%05d"` zero-padded form used for file names. */
module Decimal {
  import opened Wrappers

  predicate IsDigit(c: char)
  {
    '0' <= c <= '9'
  }

  predicate AllDigits(s: string)
  {
    forall i :: 0 <= i < |s| ==> IsDigit(s[i])
  }

  function DigitChar(d: nat): (c: char)
    requires d < 10
    ensures IsDigit(c) && c as int - '0' as int == d
  {
    (d + '0' as int) as char
  }

  function DigitValue(c: char): (d: nat)
    requires IsDigit(c)
    ensures d < 10 && DigitChar(d) == c
  {
    c as int - '0' as int
  }

  /** Value of a digit string, most significant digit first; leading zeros
      add nothing. */
  function DigitsValue(s: string): nat
    requires AllDigits(s)
  {
    if |s| == 0 then 0 else DigitsValue(s[..|s| - 1]) * 10 + DigitValue(s[|s| - 1])
  }

  /** `str(n)` for a natural number: no sign, no leading zero except "0". */
  function NatToString(n: nat): (s: string)
    ensures |s| > 0 && AllDigits(s)
    ensures |s| > 1 ==> s[0] != '0'
  {
    if n < 10 then [DigitChar(n)] else NatToString(n / 10) + [DigitChar(n % 10)]
  }

  /** `str(i)` for any integer: a minus sign before the magnitude when negative. */
  function IntToString(i: int): (s: string)
    ensures |s| > 0 && IsDigit(s[|s| - 1])
    ensures s[0] == '-' <==> i < 0
  {
    if i < 0 then "-" + NatToString(-i) else NatToString(i)
  }

  lemma {:induction false} NatToStringValue(n: nat)
    ensures DigitsValue(NatToString(n)) == n
  {
    if n >= 10 {
      var s := NatToString(n);
      assert s[..|s| - 1] == NatToString(n / 10);
      NatToStringValue(n / 10);
    }
  }

  /** Distinct numbers have distinct decimal texts. */
  lemma NatToStringInjective(a: nat, b: nat)
    requires NatToString(a) == NatToString(b)
    ensures a == b
  {
    NatToStringValue(a);
    NatToStringValue(b);
  }

  function Zeros(n: nat): (s: string)
    ensures |s| == n && AllDigits(s)
    ensures forall i :: 0 <= i < n ==> s[i] == '0'
  {
    if n == 0 then "" else "0" + Zeros(n - 1)
  }

  /** `"%05d" % k`: the decimal text of k left-padded with zeros to width five;
      wider numbers are written in full. */
  function Pad5(k: nat): (s: string)
    ensures AllDigits(s)
    ensures |s| == if |NatToString(k)| < 5 then 5 else |NatToString(k)|
  {
    var d := NatToString(k);
    if |d| < 5 then Zeros(5 - |d|) + d else d
  }

  lemma {:induction false} ZerosPrefixValue(n: nat, d: string)
    requires AllDigits(d)
    ensures AllDigits(Zeros(n) + d)
    ensures DigitsValue(Zeros(n) + d) == DigitsValue(d)
    decreases |d|
  {
    var s := Zeros(n) + d;
    if |d| == 0 {
      assert s == Zeros(n);
      ZerosValue(n);
    } else {
      assert s[..|s| - 1] == Zeros(n) + d[..|d| - 1];
      ZerosPrefixValue(n, d[..|d| - 1]);
    }
  }

  lemma {:induction false} ZerosValue(n: nat)
    ensures DigitsValue(Zeros(n)) == 0
  {
    if n > 0 {
      assert Zeros(n)[..n - 1] == Zeros(n - 1);
      ZerosValue(n - 1);
    }
  }

  /** The padded text still denotes k, so padding loses no information. */
  lemma Pad5Value(k: nat)
    ensures DigitsValue(Pad5(k)) == k
  {
    var d := NatToString(k);
    NatToStringValue(k);
    if |d| < 5 {
      ZerosPrefixValue(5 - |d|, d);
    }
  }

  lemma Pad5Injective(a: nat, b: nat)
    requires Pad5(a) == Pad5(b)
    ensures a == b
  {
    Pad5Value(a);
    Pad5Value(b);
  }

  /** The white space `isspace` knows in the C locale. */
  predicate IsSpace(c: char)
  {
    c == ' ' || c == '\t' || c == '\n' || c == '\r' || c == '\U{B}' || c == '\U{C}'
  }

  predicate AllSpace(s: string)
  {
    forall i :: 0 <= i < |s| ==> IsSpace(s[i])
  }

  /** White space dropped from the front. */
  function TrimLeft(s: string): (t: string)
    ensures |t| <= |s| && t == s[|s| - |t|..]
    ensures AllSpace(s[..|s| - |t|])
    ensures |t| > 0 ==> !IsSpace(t[0])
  {
    s[SpaceEnd(s, 0)..]
  }

  /** Where the white space at the front of `s` ends, reading on from `i`. */
  function SpaceEnd(s: string, i: nat): (k: nat)
    requires i <= |s| && AllSpace(s[..i])
    ensures i <= k <= |s| && AllSpace(s[..k]) && (k < |s| ==> !IsSpace(s[k]))
    decreases |s| - i
  {
    if i < |s| && IsSpace(s[i]) then SpaceEnd(s, i + 1) else i
  }

  /** Where the white space at the back of `s[..j]` begins, reading back to `i`. */
  function SpaceStart(s: string, i: nat, j: nat): (k: nat)
    requires i <= j <= |s| && AllSpace(s[j..])
    ensures i <= k <= j && AllSpace(s[k..]) && (i < k ==> !IsSpace(s[k - 1]))
  {
    if i < j && IsSpace(s[j - 1]) then SpaceStart(s, i, j - 1) else j
  }

  /** Python's `s.strip()` with no argument: the part of `s` between the white
      space at its two ends. */
  function Strip(s: string): (t: string)
    ensures exists i, j :: 0 <= i <= j <= |s| && t == s[i..j] && AllSpace(s[..i]) && AllSpace(s[j..])
    ensures forall c :: c in t ==> c in s
    ensures |t| > 0 ==> !IsSpace(t[0]) && !IsSpace(t[|t| - 1])
  {
    var i := SpaceEnd(s, 0);
    var j := SpaceStart(s, i, |s|);
    SliceChars(s, i, j);
    s[i..j]
  }

  /** A slice holds only characters of the whole. */
  lemma SliceChars(s: string, i: nat, j: nat)
    requires i <= j <= |s|
    ensures forall c :: c in s[i..j] ==> c in s
  {
    forall c | c in s[i..j]
      ensures c in s
    {
      var k :| 0 <= k < j - i && s[i..j][k] == c;
      assert s[i + k] == c;
    }
  }

  /** Removing white space from both ends of text that has white space only
      at its ends gives back the middle. */
  lemma TrimLeftPast(a: string, m: string)
    requires AllSpace(a) && (|m| == 0 || !IsSpace(m[0]))
    ensures TrimLeft(a + m) == m
  {
    var s := a + m;
    assert s[..|a|] == a && s[|a|..] == m;
    assert |a| < |s| ==> s[|a|] == m[0];
    SpaceEndAt(s, 0, |a|);
  }

  /** The front white space ends at the first other character, wherever the
      reading starts. */
  lemma {:induction false} SpaceEndAt(s: string, i: nat, k: nat)
    requires i <= k <= |s| && AllSpace(s[..i]) && AllSpace(s[..k])
    requires k < |s| ==> !IsSpace(s[k])
    ensures SpaceEnd(s, i) == k
    decreases k - i
  {
    if i < k {
      assert s[..k][i] == s[i];
      assert forall x :: 0 <= x < i + 1 ==> s[..i + 1][x] == s[..k][x];
      SpaceEndAt(s, i + 1, k);
    }
  }

  /** The back white space begins after the last other character. */
  lemma {:induction false} SpaceStartAt(s: string, i: nat, j: nat, k: nat)
    requires i <= k <= j <= |s| && AllSpace(s[j..]) && AllSpace(s[k..])
    requires i < k ==> !IsSpace(s[k - 1])
    ensures SpaceStart(s, i, j) == k
    decreases j - k
  {
    if k < j {
      assert s[k..][j - 1 - k] == s[j - 1];
      assert s[j - 1..] == [s[j - 1]] + s[j..];
      SpaceStartAt(s, i, j - 1, k);
    }
  }

  /** The three pieces of `a + m + e`, cut back out. */
  lemma ThreeParts(a: string, m: string, e: string)
    ensures var s := a + m + e;
      s[..|a|] == a && s[|a|..|a| + |m|] == m && s[|a| + |m|..] == e
  {
  }

  lemma StripPast(a: string, m: string, e: string)
    requires AllSpace(a) && AllSpace(e)
    requires |m| > 0 && !IsSpace(m[0]) && !IsSpace(m[|m| - 1])
    ensures Strip(a + m + e) == m
  {
    var s := a + m + e;
    ThreeParts(a, m, e);
    assert s[|a|] == m[0] && s[|a| + |m| - 1] == m[|m| - 1];
    SpaceEndAt(s, 0, |a|);
    SpaceStartAt(s, |a|, |s|, |a| + |m|);
  }

  /** Text with no white space at either end is its own `strip()`. */
  lemma StripUntrimmed(s: string)
    requires |s| > 0 && !IsSpace(s[0]) && !IsSpace(s[|s| - 1])
    ensures Strip(s) == s
  {
    assert "" + s + "" == s;
    StripPast("", s, "");
  }

  /** One or more digits read as their value; anything else is refused. */
  function ParseDigits(d: string): Option<int>
  {
    if |d| > 0 && AllDigits(d) then Some(DigitsValue(d)) else None
  }

  /** The stripped text read as an integer: an optional sign, white space
      after a sign, then the digits. */
  function ParseSigned(t: string): Option<int>
  {
    if |t| > 0 && (t[0] == '-' || t[0] == '+') then
      match ParseDigits(TrimLeft(t[1..]))
      case Some(v) => Some(if t[0] == '-' then -v else v)
      case None => None
    else
      ParseDigits(t)
  }

  /** The five parts of a literal, one after the other. */
  function Compose(a: string, sign: string, b: string, d: string, e: string): string
  {
    a + sign + b + d + e
  }

  /** What `int()` accepts, stated without the scanner: white space, an
      optional sign, white space, one or more decimal digits, white space.
      `v` is the value of the digits, negated after a minus sign. */
  ghost predicate IsIntLiteral(s: string, v: int)
  {
    exists a, sign, b, d, e ::
      && s == Compose(a, sign, b, d, e)
      && AllSpace(a) && AllSpace(b) && AllSpace(e)
      && (sign == "" || sign == "+" || sign == "-")
      && |d| > 0 && AllDigits(d)
      && v == (if sign == "-" then -(DigitsValue(d) as int) else DigitsValue(d))
  }

  /** Signed digits, with white space after the sign, read as their value. */
  lemma ParseSignedSign(m: string, d: string)
    requires |m| > 0 && (m[0] == '-' || m[0] == '+') && TrimLeft(m[1..]) == d
    requires |d| > 0 && AllDigits(d)
    ensures ParseSigned(m) == Some(if m[0] == '-' then -(DigitsValue(d) as int) else DigitsValue(d))
  {
  }

  lemma ParseSignedDigits(d: string)
    requires |d| > 0 && AllDigits(d)
    ensures ParseSigned(d) == Some(DigitsValue(d))
  {
    assert IsDigit(d[0]);
  }

  /** A one-character sign before white space and digits: the sign comes
      first, the last digit last, and dropping the sign leaves the rest. */
  lemma SignedMiddle(sign: string, b: string, d: string)
    requires |sign| == 1 && |d| > 0
    ensures var m := sign + b + d; m[0] == sign[0] && m[|m| - 1] == d[|d| - 1] && m[1..] == b + d
  {
  }

  /** White space after a sign is dropped up to the digits. */
  lemma TrimAfterSign(m: string, b: string, d: string)
    requires |m| > 0 && m[1..] == b + d && AllSpace(b) && |d| > 0 && AllDigits(d)
    ensures TrimLeft(m[1..]) == d
  {
    assert IsDigit(d[0]);
    TrimLeftPast(b, d);
  }

  /** A literal's parts around its middle. */
  lemma ComposeMiddle(a: string, sign: string, b: string, d: string, e: string)
    ensures Compose(a, sign, b, d, e) == a + (sign + b + d) + e
  {
  }

  /** The middle of a signed literal is what `Strip` keeps. */
  lemma StripSigned(s: string, a: string, sign: string, b: string, d: string, e: string) returns (m: string)
    requires s == Compose(a, sign, b, d, e)
    requires AllSpace(a) && AllSpace(b) && AllSpace(e) && (sign == "+" || sign == "-")
    requires |d| > 0 && AllDigits(d)
    ensures |m| > 0 && Strip(s) == m && m[1..] == b + d
    ensures (m[0] == '-' || m[0] == '+') && (m[0] == '-' <==> sign == "-")
  {
    m := sign + b + d;
    ComposeMiddle(a, sign, b, d, e);
    SignedMiddle(sign, b, d);
    assert IsDigit(d[|d| - 1]);
    StripPast(a, m, e);
  }

  /** The middle of an unsigned literal is its digits. */
  lemma StripUnsigned(s: string, a: string, b: string, d: string, e: string)
    requires s == Compose(a, "", b, d, e)
    requires AllSpace(a) && AllSpace(b) && AllSpace(e) && |d| > 0 && AllDigits(d)
    ensures Strip(s) == d
  {
    var ab := a + b;
    assert AllSpace(ab) by {
      forall k | 0 <= k < |ab| ensures IsSpace(ab[k]) {
        if k < |a| { assert ab[k] == a[k]; } else { assert ab[k] == b[k - |a|]; }
      }
    }
    assert IsDigit(d[0]) && IsDigit(d[|d| - 1]);
    assert s == ab + d + e;
    StripPast(ab, d, e);
  }

  /** A signed literal reads as its value. */
  lemma ParseSignedLiteral(s: string, a: string, sign: string, b: string, d: string, e: string, v: int)
    requires s == Compose(a, sign, b, d, e)
    requires AllSpace(a) && AllSpace(b) && AllSpace(e) && (sign == "+" || sign == "-")
    requires |d| > 0 && AllDigits(d)
    requires v == (if sign == "-" then -(DigitsValue(d) as int) else DigitsValue(d))
    ensures ParseSigned(Strip(s)) == Some(v)
  {
    var m := StripSigned(s, a, sign, b, d, e);
    TrimAfterSign(m, b, d);
    ParseSignedSign(m, d);
  }

  /** Every literal reads as its value. */
  lemma ParseLiteral(s: string, v: int)
    requires IsIntLiteral(s, v)
    ensures ParseSigned(Strip(s)) == Some(v)
  {
    var a, sign, b, d, e :|
      && s == Compose(a, sign, b, d, e)
      && AllSpace(a) && AllSpace(b) && AllSpace(e)
      && (sign == "" || sign == "+" || sign == "-")
      && |d| > 0 && AllDigits(d)
      && v == (if sign == "-" then -(DigitsValue(d) as int) else DigitsValue(d));
    if sign == "" {
      StripUnsigned(s, a, b, d, e);
      ParseSignedDigits(d);
    } else {
      ParseSignedLiteral(s, a, sign, b, d, e, v);
    }
  }

  /** The parts of a literal witness it. */
  lemma LiteralWitness(s: string, a: string, sign: string, b: string, d: string, e: string, v: int)
    requires s == Compose(a, sign, b, d, e)
    requires AllSpace(a) && AllSpace(b) && AllSpace(e)
    requires sign == "" || sign == "+" || sign == "-"
    requires |d| > 0 && AllDigits(d)
    requires v == (if sign == "-" then -(DigitsValue(d) as int) else DigitsValue(d))
    ensures IsIntLiteral(s, v)
  {
  }

  lemma ComposeUnsigned(a: string, d: string, e: string)
    ensures Compose(a, "", "", d, e) == a + d + e
  {
    assert a + "" + "" == a;
  }

  /** Text around a literal's middle composes back into the whole. */
  lemma ComposeAround(s: string, a: string, sign: string, b: string, d: string, e: string, t: string)
    requires t == sign + b + d && s == a + t + e
    ensures s == Compose(a, sign, b, d, e)
  {
  }

  /** A signed text that reads as a number has digits after its sign and
      the white space that follows it. */
  lemma ParseSignedUnfold(t: string)
    requires |t| > 0 && (t[0] == '-' || t[0] == '+') && ParseSigned(t).Some?
    ensures var d := TrimLeft(t[1..]);
            && |d| > 0 && AllDigits(d)
            && ParseSigned(t).value == (if t[0] == '-' then -(DigitsValue(d) as int) else DigitsValue(d))
  {
  }

  /** A text is its head and its tail, or its two parts at any cut. */
  lemma CutAt(x: string, k: nat)
    requires 0 < |x| && k <= |x|
    ensures x == [x[0]] + x[1..] && x == x[..k] + x[k..]
  {
  }

  lemma AppendAssoc(x: string, y: string, z: string)
    ensures x + (y + z) == x + y + z
  {
  }

  /** A text cut after its first character and before what `TrimLeft`
      keeps of the rest. */
  lemma SplitSign(t: string) returns (sign: string, b: string, d: string)
    requires |t| > 0
    ensures t == sign + b + d && sign == [t[0]] && AllSpace(b) && d == TrimLeft(t[1..])
  {
    var rest := t[1..];
    d := TrimLeft(rest);
    b := rest[..|rest| - |d|];
    sign := [t[0]];
    CutAt(t, 0);
    if |rest| > 0 {
      CutAt(rest, |rest| - |d|);
    }
    AppendAssoc(sign, b, d);
  }

  /** A signed text read as a number: its digits are what follows the sign
      and the white space after it. */
  lemma ParseSignedParts(t: string) returns (sign: string, b: string, d: string)
    requires |t| > 0 && (t[0] == '-' || t[0] == '+') && ParseSigned(t).Some?
    ensures t == sign + b + d && AllSpace(b) && |d| > 0 && AllDigits(d)
    ensures (sign == "-" || sign == "+") && (sign == "-" <==> t[0] == '-')
    ensures ParseSigned(t).value == (if sign == "-" then -(DigitsValue(d) as int) else DigitsValue(d))
  {
    sign, b, d := SplitSign(t);
    ParseSignedUnfold(t);
  }

  /** A stripped middle with a sign that reads as a number makes a literal. */
  lemma LiteralOfSigned(s: string, a: string, t: string, e: string)
    requires s == a + t + e && AllSpace(a) && AllSpace(e)
    requires |t| > 0 && (t[0] == '-' || t[0] == '+') && ParseSigned(t).Some?
    ensures IsIntLiteral(s, ParseSigned(t).value)
  {
    var sign, b, d := ParseSignedParts(t);
    ComposeAround(s, a, sign, b, d, e, t);
    LiteralWitness(s, a, sign, b, d, e, ParseSigned(t).value);
  }

  /** A stripped middle of plain digits makes a literal. */
  lemma LiteralOfDigits(s: string, a: string, t: string, e: string)
    requires s == a + t + e && AllSpace(a) && AllSpace(e)
    requires |t| > 0 && AllDigits(t)
    ensures IsIntLiteral(s, DigitsValue(t))
  {
    ComposeUnsigned(a, t, e);
    LiteralWitness(s, a, "", "", t, e, DigitsValue(t));
  }

  /** A text is its part before, its slice and its part after. */
  lemma SplitThree(s: string, i: nat, j: nat)
    requires i <= j <= |s|
    ensures s == s[..i] + s[i..j] + s[j..]
  {
  }

  /** A slice with white space around it that reads as a number makes a literal. */
  lemma LiteralOfSlice(s: string, i: nat, j: nat, t: string)
    requires i <= j <= |s| && t == s[i..j] && AllSpace(s[..i]) && AllSpace(s[j..])
    requires ParseSigned(t).Some?
    ensures IsIntLiteral(s, ParseSigned(t).value)
  {
    SplitThree(s, i, j);
    if |t| > 0 && (t[0] == '-' || t[0] == '+') {
      LiteralOfSigned(s, s[..i], t, s[j..]);
    } else {
      LiteralOfDigits(s, s[..i], t, s[j..]);
    }
  }

  /** Whatever reads as a number is a literal of that value. */
  lemma LiteralOfParse(s: string)
    ensures ParseSigned(Strip(s)).Some? ==> IsIntLiteral(s, ParseSigned(Strip(s)).value)
  {
    var t := Strip(s);
    if ParseSigned(t).Some? {
      var i, j :| 0 <= i <= j <= |s| && t == s[i..j] && AllSpace(s[..i]) && AllSpace(s[j..]);
      LiteralOfSlice(s, i, j, t);
    }
  }

  /** A literal holds only white space, signs and digits. */
  lemma LiteralChars(s: string, v: int)
    requires IsIntLiteral(s, v)
    ensures forall c :: c in s ==> IsDigit(c) || IsSpace(c) || c == '+' || c == '-'
    ensures exists c :: c in s && IsDigit(c)
  {
    var a, sign, b, d, e :|
      && s == Compose(a, sign, b, d, e)
      && AllSpace(a) && AllSpace(b) && AllSpace(e)
      && (sign == "" || sign == "+" || sign == "-")
      && |d| > 0 && AllDigits(d)
      && v == (if sign == "-" then -(DigitsValue(d) as int) else DigitsValue(d));
    forall c | c in s
      ensures IsDigit(c) || IsSpace(c) || c == '+' || c == '-'
    {
      assert c in a || c in sign || c in b || c in d || c in e;
    }
    assert d[0] in s && IsDigit(d[0]);
  }

  lemma ParseLiterals(s: string)
    ensures forall v :: IsIntLiteral(s, v) ==> ParseSigned(Strip(s)) == Some(v)
  {
    forall v | IsIntLiteral(s, v)
      ensures ParseSigned(Strip(s)) == Some(v)
    {
      ParseLiteral(s, v);
    }
  }

  /** Python 2's `int(s)` on a str: the literals `IsIntLiteral` describes and
      nothing else; any other text is a ValueError, here `None`. */
  function ParseInt(s: string): (r: Option<int>)
    ensures r.Some? ==> IsIntLiteral(s, r.value)
    ensures forall v :: IsIntLiteral(s, v) ==> r == Some(v)
    ensures r.Some? ==> forall c :: c in s ==> IsDigit(c) || IsSpace(c) || c == '+' || c == '-'
    ensures r.Some? ==> exists c :: c in s && IsDigit(c)
  {
    LiteralOfParse(s);
    ParseLiterals(s);
    var r := ParseSigned(Strip(s));
    if r.Some? then
      LiteralChars(s, r.value);
      r
    else r
  }

  /** Plain digits read as their value. */
  lemma ParseIntDigits(s: string)
    requires |s| > 0 && AllDigits(s)
    ensures ParseInt(s) == Some(DigitsValue(s))
  {
    ComposeBare("", s);
    LiteralWitness(s, "", "", "", s, "", DigitsValue(s));
    ParseIntLiteral(s, DigitsValue(s));
  }

  /** A literal with no white space is its sign and its digits. */
  lemma ComposeBare(sign: string, d: string)
    ensures Compose("", sign, "", d, "") == sign + d
  {
    assert "" + sign + "" == sign;
  }

  /** `int()` reads a literal as its value. */
  lemma ParseIntLiteral(s: string, v: int)
    requires IsIntLiteral(s, v)
    ensures ParseInt(s) == Some(v)
  {
  }

  /** Reading back what `str()` wrote gives the same integer. */
  lemma ParseIntToString(i: int)
    ensures ParseInt(IntToString(i)) == Some(i)
  {
    var s := IntToString(i);
    if i < 0 {
      var t := NatToString(-i);
      NatToStringValue(-i);
      ComposeBare("-", t);
      LiteralWitness(s, "", "-", "", t, "", i);
    } else {
      var t := NatToString(i);
      NatToStringValue(i);
      ComposeBare("", t);
      LiteralWitness(s, "", "", "", t, "", i);
    }
    ParseIntLiteral(s, i);
  }

  /** White space after the sign is allowed, as `int("- 12") == -12`. */
  lemma ParseIntSpacedSign()
    ensures ParseInt(" - 12\n") == Some(-12)
    ensures ParseInt("+ 5") == Some(5)
  {
    assert " - 12\n" == Compose(" ", "-", " ", "12", "\n");
    assert DigitsValue("12") == 12 by {
      assert "12"[..1] == "1";
    }
    assert IsIntLiteral(" - 12\n", -12);
    assert "+ 5" == Compose("", "+", " ", "5", "");
    assert IsIntLiteral("+ 5", 5);
  }

  /** Text holding any character other than white space, a sign or a digit
      is not a number. */
  lemma ParseIntForeign(s: string, c: char)
    requires c in s && !IsDigit(c) && !IsSpace(c) && c != '+' && c != '-'
    ensures ParseInt(s) == None
  {
  }

  /** Text without a digit is not a number. */
  lemma ParseIntNoDigit(s: string)
    requires forall i :: 0 <= i < |s| ==> !IsDigit(s[i])
    ensures ParseInt(s) == None
  {
  }

  /** `int()` reads the stripped text. */
  lemma ParseIntStripped(s: string)
    ensures ParseInt(s) == ParseSigned(Strip(s))
  {
  }

  /** A sign directly after a sign leaves no digits to read. */
  lemma ParseSignedDoubleSign(t: string)
    requires |t| > 1 && (t[0] == '-' || t[0] == '+') && (t[1] == '-' || t[1] == '+')
    ensures ParseSigned(t) == None
  {
    var d := TrimLeft(t[1..]);
    assert d == t[1..] && !IsDigit(d[0]);
  }

  /** A sign right after a sign is not a number. */
  lemma ParseIntDoubleSign(s: string)
    requires |s| > 1 && (s[0] == '-' || s[0] == '+') && (s[1] == '-' || s[1] == '+')
    requires !IsSpace(s[|s| - 1])
    ensures ParseInt(s) == None
  {
    ParseIntStripped(s);
    StripUntrimmed(s);
    ParseSignedDoubleSign(s);
  }
}
