/** The fragment of Python's `re` that the file-name exclusion patterns use:
    literal characters, `.` (any character except a newline) and a bounded
    run of digits `\d{m,n}`. Matching is `re.match`: anchored at the start of
    the name only, so whatever follows the match is ignored. */
module Patterns {
  import opened Decimal

  datatype Atom =
    | Lit(c: char)
    | AnyChar
    | Digits(min: nat, max: nat)

  type Pattern = seq<Atom>

  /** The pattern written as a plain string, every character literal. */
  function Literal(s: string): (p: Pattern)
    ensures |p| == |s|
    ensures forall i :: 0 <= i < |s| ==> p[i] == Lit(s[i])
  {
    if |s| == 0 then [] else [Lit(s[0])] + Literal(s[1..])
  }

  /** `sitemap\d{0,5}.xml`, the builder's default file exclusion; its `.` is
      unescaped and so stands for any character. */
  const DefaultExclude: Pattern := Literal("sitemap") + [Digits(0, 5), AnyChar] + Literal("xml")

  /** Pattern `p` matches some prefix of `s` (the greedy/backtracking choice
      of how many digits `\d{m,n}` takes is existential here). */
  predicate MatchPrefix(p: Pattern, s: string)
    decreases |s|, |p|
  {
    if |p| == 0 then true
    else match p[0]
      case Lit(c) => |s| > 0 && s[0] == c && MatchPrefix(p[1..], s[1..])
      case AnyChar => |s| > 0 && s[0] != '\n' && MatchPrefix(p[1..], s[1..])
      case Digits(lo, hi) =>
        if hi < lo then false
        else if lo > 0 then
          |s| > 0 && IsDigit(s[0]) && MatchPrefix([Digits(lo - 1, hi - 1)] + p[1..], s[1..])
        else
          MatchPrefix(p[1..], s) ||
          (hi > 0 && |s| > 0 && IsDigit(s[0]) && MatchPrefix([Digits(0, hi - 1)] + p[1..], s[1..]))
  }

  /** `exclude_file`: some pattern of the list matches the start of the name,
      tried in list order. */
  predicate ExcludeFile(patterns: seq<Pattern>, name: string)
  {
    |patterns| > 0 && (MatchPrefix(patterns[0], name) || ExcludeFile(patterns[1..], name))
  }

  /** Excluded exactly when one of the patterns matches; in particular an
      empty list excludes nothing. */
  lemma {:induction false} ExcludeFileSpec(patterns: seq<Pattern>, name: string)
    ensures ExcludeFile(patterns, name) <==> exists i :: 0 <= i < |patterns| && MatchPrefix(patterns[i], name)
  {
    if |patterns| > 0 {
      ExcludeFileSpec(patterns[1..], name);
      if ExcludeFile(patterns[1..], name) {
        var i :| 0 <= i < |patterns[1..]| && MatchPrefix(patterns[1..][i], name);
        assert MatchPrefix(patterns[i + 1], name);
      }
      if exists i :: 0 <= i < |patterns| && MatchPrefix(patterns[i], name) {
        var i :| 0 <= i < |patterns| && MatchPrefix(patterns[i], name);
        if i > 0 {
          assert MatchPrefix(patterns[1..][i - 1], name);
        }
      }
    }
  }

  /** Matching looks only at the start: a name that matches still matches
      whatever is appended to it. */
  lemma {:induction false} MatchPrefixAppend(p: Pattern, s: string, t: string)
    requires MatchPrefix(p, s)
    ensures MatchPrefix(p, s + t)
    decreases |s|, |p|
  {
    if |p| > 0 {
      match p[0]
      case Lit(c) =>
        assert (s + t)[1..] == s[1..] + t;
        MatchPrefixAppend(p[1..], s[1..], t);
      case AnyChar =>
        assert (s + t)[1..] == s[1..] + t;
        MatchPrefixAppend(p[1..], s[1..], t);
      case Digits(lo, hi) =>
        if lo > 0 {
          assert (s + t)[1..] == s[1..] + t;
          MatchPrefixAppend([Digits(lo - 1, hi - 1)] + p[1..], s[1..], t);
        } else if MatchPrefix(p[1..], s) {
          MatchPrefixAppend(p[1..], s, t);
        } else {
          assert (s + t)[1..] == s[1..] + t;
          MatchPrefixAppend([Digits(0, hi - 1)] + p[1..], s[1..], t);
        }
    }
  }

  /** A literal prefix consumes exactly its own text. */
  lemma {:induction false} LiteralThen(lit: string, q: Pattern, s: string)
    ensures MatchPrefix(Literal(lit) + q, s) <==>
            |lit| <= |s| && s[..|lit|] == lit && MatchPrefix(q, s[|lit|..])
  {
    if |lit| > 0 {
      var p := Literal(lit) + q;
      assert p[0] == Lit(lit[0]);
      assert p[1..] == Literal(lit[1..]) + q;
      if |s| > 0 {
        LiteralThen(lit[1..], q, s[1..]);
        if |lit| <= |s| {
          assert s[1..][|lit[1..]|..] == s[|lit|..];
          assert s[..|lit|] == [s[0]] + s[1..][..|lit[1..]|];
          assert lit == [lit[0]] + lit[1..];
        }
      }
    } else {
      assert Literal(lit) + q == q;
    }
  }

  /** Some number of leading digits between `lo` and `hi`, then `q`. */
  predicate TakesDigits(lo: nat, hi: nat, q: Pattern, s: string)
  {
    exists k :: lo <= k <= hi && k <= |s| && AllDigits(s[..k]) && MatchPrefix(q, s[k..])
  }

  /** `\d{lo,hi}` consumes some number of digits between its bounds. */
  lemma {:induction false} DigitsThen(lo: nat, hi: nat, q: Pattern, s: string)
    requires lo <= hi
    ensures MatchPrefix([Digits(lo, hi)] + q, s) <==> TakesDigits(lo, hi, q, s)
    decreases |s|
  {
    if |s| > 0 && IsDigit(s[0]) && hi > 0 {
      if lo > 0 {
        DigitsThen(lo - 1, hi - 1, q, s[1..]);
        DigitsShift(lo, hi, q, s);
        DigitsTake(lo, hi, q, s);
      } else {
        DigitsThen(0, hi - 1, q, s[1..]);
        DigitsShift(1, hi, q, s);
        DigitsOptional(hi, q, s);
      }
    } else {
      DigitsStop(lo, hi, q, s);
    }
  }

  /** With digits still required, `\d{lo,hi}` must take the leading digit. */
  lemma DigitsTake(lo: nat, hi: nat, q: Pattern, s: string)
    requires 1 <= lo <= hi && |s| > 0 && IsDigit(s[0])
    requires MatchPrefix([Digits(lo - 1, hi - 1)] + q, s[1..]) <==> TakesDigits(lo - 1, hi - 1, q, s[1..])
    requires TakesDigits(lo, hi, q, s) <==> TakesDigits(lo - 1, hi - 1, q, s[1..])
    ensures MatchPrefix([Digits(lo, hi)] + q, s) <==> TakesDigits(lo, hi, q, s)
  {
    var p := [Digits(lo, hi)] + q;
    assert p[0] == Digits(lo, hi) && p[1..] == q;
  }

  /** With no digit required, `\d{0,hi}` either takes none or takes the
      leading digit and continues with one fewer allowed. */
  lemma DigitsOptional(hi: nat, q: Pattern, s: string)
    requires 0 < hi && |s| > 0 && IsDigit(s[0])
    requires MatchPrefix([Digits(0, hi - 1)] + q, s[1..]) <==> TakesDigits(0, hi - 1, q, s[1..])
    requires TakesDigits(1, hi, q, s) <==> TakesDigits(0, hi - 1, q, s[1..])
    ensures MatchPrefix([Digits(0, hi)] + q, s) <==> TakesDigits(0, hi, q, s)
  {
    var p := [Digits(0, hi)] + q;
    assert p[0] == Digits(0, hi) && p[1..] == q;
    assert s[0..] == s && AllDigits(s[..0]);
    if TakesDigits(0, hi, q, s) && !MatchPrefix(q, s) {
      var k :| 0 <= k <= hi && k <= |s| && AllDigits(s[..k]) && MatchPrefix(q, s[k..]);
      assert k != 0;
    }
  }

  /** Without a leading digit, or with no room left, `\d{lo,hi}` takes no
      digit: it matches only when nothing is required. */
  lemma DigitsStop(lo: nat, hi: nat, q: Pattern, s: string)
    requires lo <= hi && !(|s| > 0 && IsDigit(s[0]) && hi > 0)
    ensures MatchPrefix([Digits(lo, hi)] + q, s) <==> TakesDigits(lo, hi, q, s)
  {
    var p := [Digits(lo, hi)] + q;
    assert p[0] == Digits(lo, hi) && p[1..] == q;
    assert s[0..] == s && AllDigits(s[..0]);
    assert forall k :: 1 <= k <= hi && k <= |s| ==> s[..k][0] == s[0];
  }

  /** Helper for DigitsThen: taking k >= 1 digits is taking the first digit and
      then k - 1 more from the rest. */
  lemma DigitsShift(lo: nat, hi: nat, q: Pattern, s: string)
    requires 1 <= lo <= hi && |s| > 0 && IsDigit(s[0])
    ensures TakesDigits(lo, hi, q, s) <==> TakesDigits(lo - 1, hi - 1, q, s[1..])
  {
    forall k | 1 <= k <= |s|
      ensures AllDigits(s[..k]) <==> AllDigits(s[1..][..k - 1])
      ensures s[k..] == s[1..][k - 1..]
    {
      assert s[..k] == [s[0]] + s[1..][..k - 1];
    }
    if TakesDigits(lo, hi, q, s) {
      var k :| lo <= k <= hi && k <= |s| && AllDigits(s[..k]) && MatchPrefix(q, s[k..]);
      assert AllDigits(s[1..][..k - 1]) && MatchPrefix(q, s[1..][k - 1..]);
    }
    if TakesDigits(lo - 1, hi - 1, q, s[1..]) {
      var j :| lo - 1 <= j <= hi - 1 && j <= |s[1..]| && AllDigits(s[1..][..j]) && MatchPrefix(q, s[1..][j..]);
      assert AllDigits(s[..j + 1]) && MatchPrefix(q, s[j + 1..]);
    }
  }

  /** The default exclusion spelled out: "sitemap", up to five digits, any
      character but a newline, then "xml", at the start of the name. */
  predicate SitemapLike(s: string, k: nat)
  {
    11 + k <= |s| && s[..7] == "sitemap" && AllDigits(s[7..7 + k]) && s[7 + k] != '\n' && s[8 + k..11 + k] == "xml"
  }

  lemma AnyThenXml(t: string)
    ensures MatchPrefix([AnyChar] + Literal("xml"), t) <==> |t| >= 4 && t[0] != '\n' && t[1..4] == "xml"
  {
    var p := [AnyChar] + Literal("xml");
    assert p[0] == AnyChar && p[1..] == Literal("xml");
    if |t| > 0 {
      LiteralThen("xml", [], t[1..]);
      assert Literal("xml") + [] == Literal("xml");
      if |t| >= 4 {
        assert t[1..][..3] == t[1..4];
      }
    }
  }

  /** What the default exclusion pattern matches, without reference to the
      matcher. */
  lemma DefaultExcludeSpec(s: string)
    ensures MatchPrefix(DefaultExclude, s) <==> exists k :: 0 <= k <= 5 && SitemapLike(s, k)
  {
    if MatchPrefix(DefaultExclude, s) {
      DefaultExcludeSound(s);
    }
    if exists k :: 0 <= k <= 5 && SitemapLike(s, k) {
      var k :| 0 <= k <= 5 && SitemapLike(s, k);
      DefaultExcludeComplete(s, k);
    }
  }

  lemma DefaultExcludeSound(s: string)
    requires MatchPrefix(DefaultExclude, s)
    ensures exists k :: 0 <= k <= 5 && SitemapLike(s, k)
  {
    var tail := [AnyChar] + Literal("xml");
    assert DefaultExclude == Literal("sitemap") + ([Digits(0, 5)] + tail);
    LiteralThen("sitemap", [Digits(0, 5)] + tail, s);
    var u := s[7..];
    DigitsThen(0, 5, tail, u);
    var k :| 0 <= k <= 5 && k <= |u| && AllDigits(u[..k]) && MatchPrefix(tail, u[k..]);
    AnyThenXml(u[k..]);
    SitemapLikeAt(s, k);
  }

  /** The default exclusion's parts, read at their places in the name. */
  lemma SitemapLikeAt(s: string, k: nat)
    requires 7 <= |s| && s[..7] == "sitemap" && k <= |s| - 7 && AllDigits(s[7..][..k])
    requires |s[7..][k..]| >= 4 && s[7..][k..][0] != '\n' && s[7..][k..][1..4] == "xml"
    ensures SitemapLike(s, k)
  {
    assert s[7..][..k] == s[7..7 + k] && s[7..][k..][1..4] == s[8 + k..11 + k];
  }

  lemma DefaultExcludeComplete(s: string, k: nat)
    requires k <= 5 && SitemapLike(s, k)
    ensures MatchPrefix(DefaultExclude, s)
  {
    var tail := [AnyChar] + Literal("xml");
    assert DefaultExclude == Literal("sitemap") + ([Digits(0, 5)] + tail);
    var u := s[7..];
    AnyThenXml(u[k..]);
    assert u[..k] == s[7..7 + k] && u[k..][1..4] == s[8 + k..11 + k];
    assert MatchPrefix(tail, u[k..]);
    DigitsThen(0, 5, tail, u);
    LiteralThen("sitemap", [Digits(0, 5)] + tail, s);
  }

  /** The single sitemap file and the numbered pieces of a split sitemap are
      excluded by default, and so is anything that merely starts like one. */
  lemma DefaultExcludesSitemaps()
    ensures MatchPrefix(DefaultExclude, "sitemap.xml")
    ensures MatchPrefix(DefaultExclude, "sitemap00001.xml")
    ensures MatchPrefix(DefaultExclude, "sitemap.xml.gz")
    ensures MatchPrefix(DefaultExclude, "sitemapXxml")
  {
    SitemapNamesSpelled();
    SitemapName("", '.', "");
    SitemapName("00001", '.', "");
    SitemapName("", '.', ".gz");
    SitemapName("", 'X', "");
  }

  /** "sitemap", up to five digits, any character but a newline and "xml"
      start a name the default exclusion matches, whatever follows. */
  lemma SitemapName(digits: string, c: char, rest: string)
    requires |digits| <= 5 && AllDigits(digits) && c != '\n'
    ensures MatchPrefix(DefaultExclude, "sitemap" + digits + [c] + "xml" + rest)
  {
    var s := "sitemap" + digits + [c] + "xml" + rest;
    var k := |digits|;
    assert s[..7] == "sitemap" && s[7..7 + k] == digits && s[7 + k] == c && s[8 + k..11 + k] == "xml";
    DefaultExcludeComplete(s, k);
  }

  lemma SitemapNamesSpelled()
    ensures "sitemap.xml" == "sitemap" + "" + ['.'] + "xml" + ""
    ensures "sitemap00001.xml" == "sitemap" + "00001" + ['.'] + "xml" + ""
    ensures "sitemap.xml.gz" == "sitemap" + "" + ['.'] + "xml" + ".gz"
    ensures "sitemapXxml" == "sitemap" + "" + ['X'] + "xml" + ""
  {
  }

  /** Names that do not start with "sitemap" are kept, since the match is
      anchored at the start; so is a piece numbered with six digits, which
      the five-digit bound does not reach. */
  lemma DefaultKeepsOthers()
    ensures !MatchPrefix(DefaultExclude, "file_a")
    ensures !MatchPrefix(DefaultExclude, "file_b")
    ensures !MatchPrefix(DefaultExclude, "mysitemap.xml")
    ensures !MatchPrefix(DefaultExclude, "sitemap100000.xml")
  {
    KeptUnlessSitemap("file_a", 0);
    KeptUnlessSitemap("file_b", 0);
    KeptUnlessSitemap("mysitemap.xml", 0);
    SixDigitsKept();
  }

  /** A name whose first seven characters are not "sitemap" is kept. */
  lemma KeptUnlessSitemap(s: string, i: nat)
    requires i < 7 && (|s| <= i || s[i] != "sitemap"[i])
    ensures !MatchPrefix(DefaultExclude, s)
  {
    DefaultExcludeSpec(s);
    if |s| >= 7 {
      assert s[..7][i] == s[i];
      assert s[..7] != "sitemap";
    }
  }

  lemma SixDigitsKept()
    ensures !MatchPrefix(DefaultExclude, "sitemap100000.xml")
  {
    var w := "sitemap100000.xml";
    DefaultExcludeSpec(w);
    forall k | 0 <= k <= 5 ensures !SitemapLike(w, k) {
      assert w[8 + k..11 + k] != "xml" by {
        assert w[8 + k + 2] != 'l';
      }
    }
  }
}
