/**
 * The regular expression the plugin builds from the site's feed permalink
 * structure when the host's canonical redirect did not fire:
 *   preg_quote($struct, '#')  ->  str_replace('%feed%', '(\w+)?', ...)  ->  preg_replace('#/+#', '/', ...)
 * and the full pattern '#' . $struct . '/?$#' handed to preg_replace.
 */
module FeedPattern {

  /** The characters preg_quote escapes with a backslash (PHP 7.3 and later, '#' included). */
  predicate IsRegexSpecial(c: char) {
    || c == '.' || c == '\\' || c == '+' || c == '*' || c == '?' || c == '[' || c == '^'
    || c == ']' || c == '$' || c == '(' || c == ')' || c == '{' || c == '}' || c == '='
    || c == '!' || c == '<' || c == '>' || c == '|' || c == ':' || c == '-' || c == '#'
  }

  /** The delimiter the plugin passes to preg_quote. */
  const Delimiter: char := '#'

  /** The placeholder of the feed type in a permastruct, and what replaces it. */
  const FeedTag: string := "%feed%"
  const FeedGroup: string := "(\\w+)?"

  /** The quoted form of one character: NUL becomes \000, a special character or the delimiter gets a backslash. */
  function QuoteChar(c: char): string {
    if c == '\0' then "\\000"
    else if IsRegexSpecial(c) || c == Delimiter then ['\\', c]
    else [c]
  }

  /** preg_quote(s, '#') */
  function PregQuote(s: string): string
    decreases |s|
  {
    if s == [] then [] else QuoteChar(s[0]) + PregQuote(s[1..])
  }

  /** How PCRE reads a quoted literal back: \000 is NUL, a backslash before any other character stands for that character. */
  function Unquote(q: string): string
    decreases |q|
  {
    if q == [] then []
    else if q[0] == '\\' && |q| >= 4 && q[1..4] == "000" then ['\0'] + Unquote(q[4..])
    else if q[0] == '\\' && |q| >= 2 then [q[1]] + Unquote(q[2..])
    else [q[0]] + Unquote(q[1..])
  }

  lemma UnquoteQuoteChar(c: char, t: string)
    ensures Unquote(QuoteChar(c) + t) == [c] + Unquote(t)
  {
    var q := QuoteChar(c) + t;
    if c == '\0' {
      assert q[1..4] == "000";
      assert q[4..] == t;
    } else if IsRegexSpecial(c) || c == Delimiter {
      assert q[1] == c && c != '0';
      assert q[2..] == t;
    } else {
      assert q[1..] == t;
    }
  }

  /** Quoting loses nothing: the quoted text reads back as exactly the original string. */
  lemma {:induction false} UnquotePregQuote(s: string)
    ensures Unquote(PregQuote(s)) == s
    decreases |s|
  {
    if s != [] {
      UnquoteQuoteChar(s[0], PregQuote(s[1..]));
      UnquotePregQuote(s[1..]);
    }
  }

  /** A regex body PCRE matches literally: every special character, NUL and delimiter sits behind a backslash. */
  predicate LiteralRegex(q: string)
    decreases |q|
  {
    if q == [] then true
    else if q[0] == '\\' then |q| >= 2 && LiteralRegex(q[2..])
    else !IsRegexSpecial(q[0]) && q[0] != '\0' && q[0] != Delimiter && LiteralRegex(q[1..])
  }

  lemma LiteralQuoteChar(c: char, t: string)
    requires LiteralRegex(t)
    ensures LiteralRegex(QuoteChar(c) + t)
  {
    var q := QuoteChar(c) + t;
    if c == '\0' {
      assert q[2..] == "00" + t && q[3..] == "0" + t && q[4..] == t;
      assert (q[3..])[1..] == t;
      assert (q[2..])[1..] == q[3..];
    } else if IsRegexSpecial(c) || c == Delimiter {
      assert q[2..] == t;
    } else {
      assert q[1..] == t;
    }
  }

  /** preg_quote escapes what it must: its output has no special character, NUL or '#' left unescaped. */
  lemma {:induction false} PregQuoteIsLiteral(s: string)
    ensures LiteralRegex(PregQuote(s))
    decreases |s|
  {
    if s != [] {
      PregQuoteIsLiteral(s[1..]);
      LiteralQuoteChar(s[0], PregQuote(s[1..]));
    }
  }

  /** A string with no special character, NUL or delimiter is left as it is by preg_quote. */
  lemma {:induction false} PregQuotePlain(s: string)
    requires forall i :: 0 <= i < |s| ==> !IsRegexSpecial(s[i]) && s[i] != '\0'
    ensures PregQuote(s) == s
    decreases |s|
  {
    if s != [] {
      PregQuotePlain(s[1..]);
    }
  }

  /** p occurs somewhere in t. */
  predicate Occurs(p: string, t: string)
    decreases |t|
  {
    p <= t || (|t| > 0 && Occurs(p, t[1..]))
  }

  /** str_replace('%feed%', '(\w+)?', s): a left-to-right scan replacing non-overlapping occurrences. */
  function ReplaceFeedTag(s: string): string
    decreases |s|
  {
    if s == [] then []
    else if FeedTag <= s then FeedGroup + ReplaceFeedTag(s[|FeedTag|..])
    else [s[0]] + ReplaceFeedTag(s[1..])
  }

  /** Putting characters that cannot start p in front of t creates no occurrence of p. */
  lemma {:induction false} NoOccurrenceBehind(p: string, u: string, t: string)
    requires |p| > 0
    requires forall i :: 0 <= i < |u| ==> u[i] != p[0]
    requires !Occurs(p, t)
    ensures !Occurs(p, u + t)
    decreases |u|
  {
    if u != [] {
      assert (u + t)[0] == u[0];
      assert !(p <= u + t);
      assert (u + t)[1..] == u[1..] + t;
      NoOccurrenceBehind(p, u[1..], t);
    } else {
      assert u + t == t;
    }
  }

  lemma ReplaceFirstChar(s: string)
    requires s != []
    ensures ReplaceFeedTag(s) != []
    ensures ReplaceFeedTag(s)[0] == if FeedTag <= s then FeedGroup[0] else s[0]
  {
  }

  /** A text without '(' at the start of the replaced string was already there before the replacement. */
  lemma {:induction false} ReplacePrefixIsOriginal(s: string, w: string)
    requires forall i :: 0 <= i < |w| ==> w[i] != FeedGroup[0]
    requires w <= ReplaceFeedTag(s)
    ensures w <= s
    decreases |s|
  {
    if w != [] {
      assert s != [];
      ReplaceFirstChar(s);
      assert !(FeedTag <= s);
      var rest := ReplaceFeedTag(s[1..]);
      assert ReplaceFeedTag(s) == [s[0]] + rest;
      assert w[1..] <= rest;
      ReplacePrefixIsOriginal(s[1..], w[1..]);
    }
  }

  /** After str_replace no '%feed%' is left, not even one formed across a replacement boundary. */
  lemma {:induction false} ReplaceLeavesNoFeedTag(s: string)
    ensures !Occurs(FeedTag, ReplaceFeedTag(s))
    decreases |s|
  {
    if s == [] {
    } else if FeedTag <= s {
      ReplaceLeavesNoFeedTag(s[|FeedTag|..]);
      NoOccurrenceBehind(FeedTag, FeedGroup, ReplaceFeedTag(s[|FeedTag|..]));
    } else {
      var rest := ReplaceFeedTag(s[1..]);
      var r := [s[0]] + rest;
      assert ReplaceFeedTag(s) == r;
      ReplaceLeavesNoFeedTag(s[1..]);
      if FeedTag <= r {
        assert FeedTag[1..] <= rest;
        ReplacePrefixIsOriginal(s[1..], FeedTag[1..]);
        assert false;
      }
      assert r[1..] == rest;
    }
  }

  /** Each '%feed%' becomes '(\w+)?': text before the first placeholder is copied, the placeholder is replaced. */
  lemma {:induction false} ReplaceAtFeedTag(a: string, b: string)
    requires forall i :: 0 <= i < |a| ==> !(FeedTag <= (a + FeedTag + b)[i..])
    ensures ReplaceFeedTag(a + FeedTag + b) == a + FeedGroup + ReplaceFeedTag(b)
    decreases |a|
  {
    var s := a + FeedTag + b;
    if a == [] {
      assert s == FeedTag + b;
      assert s[|FeedTag|..] == b;
    } else {
      assert s[0..] == s;
      assert s[0] == a[0] && !(FeedTag <= s);
      assert s[1..] == a[1..] + FeedTag + b;
      forall i | 0 <= i < |a[1..]| ensures !(FeedTag <= (a[1..] + FeedTag + b)[i..]) {
        assert (a[1..] + FeedTag + b)[i..] == s[i + 1..];
      }
      ReplaceAtFeedTag(a[1..], b);
    }
  }

  /** A string without '%feed%' is not changed by the replacement. */
  lemma {:induction false} ReplaceWithoutFeedTag(s: string)
    requires !Occurs(FeedTag, s)
    ensures ReplaceFeedTag(s) == s
    decreases |s|
  {
    if s != [] {
      ReplaceWithoutFeedTag(s[1..]);
    }
  }

  /** No two consecutive slashes. */
  predicate NoDoubleSlash(t: string) {
    forall i :: 0 <= i < |t| - 1 ==> !(t[i] == '/' && t[i + 1] == '/')
  }

  /** preg_replace('#/+#', '/', s): every run of slashes becomes one slash. */
  function CollapseSlashes(s: string): (r: string)
    ensures |r| <= |s|
    ensures |s| > 0 ==> |r| > 0 && r[0] == s[0]
    ensures NoDoubleSlash(r)
    decreases |s|
  {
    if s == [] then []
    else if |s| >= 2 && s[0] == '/' && s[1] == '/' then CollapseSlashes(s[1..])
    else [s[0]] + CollapseSlashes(s[1..])
  }

  /** A double slash collapses exactly as a single one: a run of slashes keeps one slash. */
  lemma {:induction false} CollapseStep(u: string, v: string)
    ensures CollapseSlashes(u + "//" + v) == CollapseSlashes(u + "/" + v)
    decreases |u|
  {
    var s := u + "//" + v;
    if u == [] {
      assert s == "//" + v && s[1..] == "/" + v;
    } else {
      var t := u + "/" + v;
      assert s[0] == t[0] == u[0];
      assert s[1..] == u[1..] + "//" + v && t[1..] == u[1..] + "/" + v;
      assert |s| >= 2 && |t| >= 2 && s[1] == t[1];
      CollapseStep(u[1..], v);
    }
  }

  /** Collapsing changes a string exactly when it holds a double slash. */
  lemma {:induction false} CollapseFixedPoint(s: string)
    ensures CollapseSlashes(s) == s <==> NoDoubleSlash(s)
    decreases |s|
  {
    if s != [] && NoDoubleSlash(s) {
      assert NoDoubleSlash(s[1..]) by {
        forall i | 0 <= i < |s[1..]| - 1
          ensures !(s[1..][i] == '/' && s[1..][i + 1] == '/')
        {
          assert s[1..][i] == s[i + 1] && s[1..][i + 1] == s[i + 2];
        }
      }
      CollapseFixedPoint(s[1..]);
    }
  }

  /** Collapsing twice is collapsing once. */
  lemma CollapseIdempotent(s: string)
    ensures CollapseSlashes(CollapseSlashes(s)) == CollapseSlashes(s)
  {
    CollapseFixedPoint(CollapseSlashes(s));
  }

  /** The non-slash characters of a string, in order. */
  function WithoutSlashes(s: string): string
    decreases |s|
  {
    if s == [] then [] else (if s[0] == '/' then [] else [s[0]]) + WithoutSlashes(s[1..])
  }

  /** Collapsing removes slashes only: every other character is kept, in order. */
  lemma {:induction false} CollapseKeepsOtherChars(s: string)
    ensures WithoutSlashes(CollapseSlashes(s)) == WithoutSlashes(s)
    decreases |s|
  {
    if s != [] {
      CollapseKeepsOtherChars(s[1..]);
      if !(|s| >= 2 && s[0] == '/' && s[1] == '/') {
        var r := [s[0]] + CollapseSlashes(s[1..]);
        assert r[0] == s[0] && r[1..] == CollapseSlashes(s[1..]);
      }
    }
  }

  /** A slash-free text at the start of a collapsed string was already at the start before. */
  lemma {:induction false} CollapsePrefixIsOriginal(s: string, w: string)
    requires forall i :: 0 <= i < |w| ==> w[i] != '/'
    requires w <= CollapseSlashes(s)
    ensures w <= s
    decreases |s|
  {
    if w != [] {
      assert s != [] && s[0] == w[0] && s[0] != '/';
      var rest := CollapseSlashes(s[1..]);
      assert CollapseSlashes(s) == [s[0]] + rest;
      assert w[1..] <= rest;
      CollapsePrefixIsOriginal(s[1..], w[1..]);
    }
  }

  /** Collapsing slashes cannot create an occurrence of a slash-free text. */
  lemma {:induction false} CollapseCreatesNoOccurrence(p: string, s: string)
    requires |p| > 0
    requires forall i :: 0 <= i < |p| ==> p[i] != '/'
    requires !Occurs(p, s)
    ensures !Occurs(p, CollapseSlashes(s))
    decreases |s|
  {
    if s == [] {
    } else if |s| >= 2 && s[0] == '/' && s[1] == '/' {
      CollapseCreatesNoOccurrence(p, s[1..]);
    } else {
      var rest := CollapseSlashes(s[1..]);
      var r := [s[0]] + rest;
      CollapseCreatesNoOccurrence(p, s[1..]);
      if p <= r {
        assert p[1..] <= rest;
        CollapsePrefixIsOriginal(s[1..], p[1..]);
        assert false;
      }
      assert r[1..] == rest;
    }
  }

  /** The permastruct turned into a regular expression fragment (lines 213-215 of the plugin). */
  function FeedPermalinkPattern(struct: string): (r: string)
    ensures !Occurs(FeedTag, r)
    ensures NoDoubleSlash(r)
  {
    var replaced := ReplaceFeedTag(PregQuote(struct));
    ReplaceLeavesNoFeedTag(PregQuote(struct));
    CollapseCreatesNoOccurrence(FeedTag, replaced);
    CollapseSlashes(replaced)
  }

  /** The complete pattern given to preg_replace: '#' . $struct . '/?$#'. */
  function FeedSuffixRegex(struct: string): string {
    "#" + FeedPermalinkPattern(struct) + "/?$#"
  }

  /** A permastruct ending in '%feed%', with nothing to quote before it and no double slash, keeps its text and gains the group. */
  lemma PlainPermastructPattern(a: string)
    requires forall i :: 0 <= i < |a| ==> !IsRegexSpecial(a[i]) && a[i] != '\0' && a[i] != '%'
    requires NoDoubleSlash(a)
    ensures FeedPermalinkPattern(a + FeedTag) == a + FeedGroup
  {
    var s := a + FeedTag;
    assert forall i :: 0 <= i < |s| ==> !IsRegexSpecial(s[i]) && s[i] != '\0' by {
      forall i | 0 <= i < |s| ensures !IsRegexSpecial(s[i]) && s[i] != '\0' {
        if i >= |a| {
          assert s[i] == FeedTag[i - |a|];
        }
      }
    }
    PregQuotePlain(s);
    assert s == a + FeedTag + [];
    forall i | 0 <= i < |a| ensures !(FeedTag <= (a + FeedTag + [])[i..]) {
      assert (a + FeedTag + [])[i..][0] == a[i];
    }
    ReplaceAtFeedTag(a, []);
    assert ReplaceFeedTag(PregQuote(s)) == a + FeedGroup;
    var t := a + FeedGroup;
    assert NoDoubleSlash(t) by {
      forall i | 0 <= i < |t| - 1 ensures !(t[i] == '/' && t[i + 1] == '/') {
        if i + 1 >= |a| {
          assert t[i + 1] == FeedGroup[i + 1 - |a|];
        } else {
          assert t[i] == a[i] && t[i + 1] == a[i + 1];
        }
      }
    }
    CollapseFixedPoint(t);
  }

  /** The default feed permastruct '/feed/%feed%' gives the pattern '/feed/(\w+)?'. */
  lemma DefaultFeedPermastruct()
    ensures FeedPermalinkPattern("/feed/" + FeedTag) == "/feed/" + FeedGroup
  {
    PlainPermastructPattern("/feed/");
  }
}
