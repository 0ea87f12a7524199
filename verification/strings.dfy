/** The string primitives the application relies on: `startsWith`, `includes`,
    `trim`, and the ordering of text used when listing members by name. */
module Strings {

  /** `s.startsWith(prefix)`, compared character by character. */
  predicate StartsWith(s: string, prefix: string)
    decreases prefix
  {
    prefix == [] || (s != [] && s[0] == prefix[0] && StartsWith(s[1..], prefix[1..]))
  }

  /** `StartsWith` agrees with the definition of a prefix by concatenation. */
  lemma {:induction false} StartsWithIsPrefix(s: string, prefix: string)
    ensures StartsWith(s, prefix) <==> exists rest :: s == prefix + rest
    decreases prefix
  {
    if prefix == [] {
      assert s == prefix + s;
    } else if s == [] {
    } else {
      StartsWithIsPrefix(s[1..], prefix[1..]);
      if StartsWith(s, prefix) {
        var rest :| s[1..] == prefix[1..] + rest;
        assert s == [s[0]] + s[1..];
        assert s == prefix + rest;
      }
      if exists rest :: s == prefix + rest {
        var rest :| s == prefix + rest;
        assert s[0] == prefix[0];
        assert s[1..] == prefix[1..] + rest;
      }
    }
  }

  /** `s.includes(infix)`: some suffix of `s` starts with `infix`. */
  predicate Contains(s: string, infix: string)
    decreases s
  {
    StartsWith(s, infix) || (s != [] && Contains(s[1..], infix))
  }

  /** `Contains` agrees with the definition of an infix by concatenation. */
  lemma {:induction false} ContainsIsInfix(s: string, infix: string)
    ensures Contains(s, infix) <==> exists pre, post :: s == pre + infix + post
    decreases s
  {
    StartsWithIsPrefix(s, infix);
    if Contains(s, infix) {
      if StartsWith(s, infix) {
        var post :| s == infix + post;
        assert s == [] + infix + post;
      } else {
        ContainsIsInfix(s[1..], infix);
        var pre, post :| s[1..] == pre + infix + post;
        assert s == [s[0]] + s[1..];
        assert s == ([s[0]] + pre) + infix + post;
      }
    }
    if exists pre, post :: s == pre + infix + post {
      var pre, post :| s == pre + infix + post;
      if pre == [] {
        assert s == infix + post;
      } else {
        assert s[1..] == pre[1..] + infix + post;
        ContainsIsInfix(s[1..], infix);
      }
    }
  }

  /** The characters `String.prototype.trim` removes: the ECMAScript
      WhiteSpace and LineTerminator code points. */
  predicate IsWhitespace(c: char) {
    || c in {'\t', '\n', '\U{B}', '\U{C}', '\r', ' ', '\U{A0}', '\U{1680}'}
    || ('\U{2000}' <= c <= '\U{200A}')
    || c in {'\U{2028}', '\U{2029}', '\U{202F}', '\U{205F}', '\U{3000}', '\U{FEFF}'}
  }

  predicate AllWhitespace(s: string) {
    forall i :: 0 <= i < |s| ==> IsWhitespace(s[i])
  }

  /** `s.trimStart()`: drops the longest all-whitespace prefix. */
  function TrimStart(s: string): (r: string)
    ensures |r| <= |s| && r == s[|s| - |r|..]
    ensures AllWhitespace(s[..|s| - |r|])
    ensures r == [] || !IsWhitespace(r[0])
  {
    if s != [] && IsWhitespace(s[0]) then
      var r := TrimStart(s[1..]);
      assert s[..|s| - |r|] == [s[0]] + s[1..][..|s| - 1 - |r|];
      r
    else
      s
  }

  /** `s.trimEnd()`: drops the longest all-whitespace suffix. */
  function TrimEnd(s: string): (r: string)
    ensures |r| <= |s| && r == s[..|r|]
    ensures AllWhitespace(s[|r|..])
    ensures r == [] || !IsWhitespace(r[|r| - 1])
  {
    if s != [] && IsWhitespace(s[|s| - 1]) then
      var r := TrimEnd(s[..|s| - 1]);
      assert s[|r|..] == s[..|s| - 1][|r|..] + [s[|s| - 1]];
      r
    else
      s
  }

  /** `s.trim()`. */
  function Trim(s: string): string {
    TrimEnd(TrimStart(s))
  }

  /** `!s.trim()` holds exactly when every character of `s` is whitespace. */
  lemma TrimEmptyIffBlank(s: string)
    ensures Trim(s) == "" <==> AllWhitespace(s)
  {
    var t := TrimStart(s);
    if Trim(s) == "" {
      assert AllWhitespace(t[0..]);
      assert s == s[..|s| - |t|] + t;
    }
  }

  /** Code-point lexicographic order on strings (`a <= b`). */
  predicate LexLe(a: string, b: string)
    decreases a
  {
    a == [] || (b != [] && (a[0] < b[0] || (a[0] == b[0] && LexLe(a[1..], b[1..]))))
  }

  lemma {:induction false} LexLeTotal(a: string, b: string)
    ensures LexLe(a, b) || LexLe(b, a)
    decreases a
  {
    if a != [] && b != [] && a[0] == b[0] {
      LexLeTotal(a[1..], b[1..]);
    }
  }

  lemma {:induction false} LexLeTransitive(a: string, b: string, c: string)
    requires LexLe(a, b) && LexLe(b, c)
    ensures LexLe(a, c)
    decreases a
  {
    if a != [] && a[0] == b[0] && b[0] == c[0] {
      LexLeTransitive(a[1..], b[1..], c[1..]);
    }
  }
}
