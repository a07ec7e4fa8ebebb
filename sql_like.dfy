/**
  The category search of the browse page. `Item.category.contains(q)` is
  rendered by the database layer as `category LIKE '%' || q || '%'`, run by
  SQLite: `%` matches any run of characters, `_` matches any one character,
  other characters match themselves with ASCII letters compared without
  regard to case, and, since no escape character is given, a `%` or `_`
  inside `q` acts as a wildcard too. SQLite's NUL cut-off and its limit on
  pattern length are not modelled (see README).
*/
module SqlLike {
  import opened Text

  /** ASCII case-insensitive equality of two characters, as LIKE compares them. */
  predicate SameLetter(a: char, b: char) {
    LowerChar(a) == LowerChar(b)
  }

  predicate IsWildcard(c: char) {
    c == '%' || c == '_'
  }

  /** `s LIKE pattern`. */
  predicate Like(s: string, pattern: string)
    decreases |s| + |pattern|
  {
    if pattern == [] then s == []
    else if pattern[0] == '%' then Like(s, pattern[1..]) || (s != [] && Like(s[1..], pattern))
    else s != [] && (pattern[0] == '_' || SameLetter(s[0], pattern[0])) && Like(s[1..], pattern[1..])
  }

  /** The pattern `contains(q)` builds: `'%' || q || '%'`. */
  function ContainsPattern(q: string): string {
    ['%'] + q + ['%']
  }

  /** `q` is, letter case aside, a prefix of `s`. */
  predicate PrefixIgnoringCase(q: string, s: string) {
    q == [] || (s != [] && SameLetter(s[0], q[0]) && PrefixIgnoringCase(q[1..], s[1..]))
  }

  /** `q` occurs in `s`, letter case aside. */
  predicate ContainsIgnoringCase(s: string, q: string) {
    exists i :: 0 <= i <= |s| && PrefixIgnoringCase(q, s[i..])
  }

  /** `q` occurs in `s` exactly as written. */
  predicate ContainsLiterally(s: string, q: string) {
    exists i :: 0 <= i <= |s| && q <= s[i..]
  }

  /** A trailing `%` accepts any remaining text. */
  lemma {:induction false} LikeAnyRest(s: string)
    ensures Like(s, "%")
  {
    if s != [] {
      LikeAnyRest(s[1..]);
    }
  }

  /** Every case-insensitive prefix is matched by the prefix followed by `%`,
      whatever wildcards the prefix holds. */
  lemma {:induction false} PrefixMatches(q: string, s: string)
    requires PrefixIgnoringCase(q, s)
    ensures Like(s, q + "%")
  {
    if q == [] {
      assert q + "%" == "%";
      LikeAnyRest(s);
    } else {
      var p := q + "%";
      assert p[1..] == q[1..] + "%";
      PrefixMatches(q[1..], s[1..]);
      if q[0] == '%' {
        // the leading `%` swallows s[0], then matches the empty run
        assert Like(s[1..], p[1..]);
        assert Like(s[1..], p);
      }
    }
  }

  /** Without wildcards the converse holds: `q || '%'` matches only texts
      that start with `q`, letter case aside. */
  lemma {:induction false} MatchIsPrefix(q: string, s: string)
    requires forall k :: 0 <= k < |q| ==> !IsWildcard(q[k])
    requires Like(s, q + "%")
    ensures PrefixIgnoringCase(q, s)
  {
    if q != [] {
      var p := q + "%";
      assert p[0] == q[0] && p[1..] == q[1..] + "%";
      MatchIsPrefix(q[1..], s[1..]);
    }
  }

  /** A leading `%` matches when the rest of the pattern matches some suffix. */
  lemma {:induction false} LeadingPercent(s: string, rest: string)
    ensures Like(s, ['%'] + rest) <==> exists i :: 0 <= i <= |s| && Like(s[i..], rest)
  {
    var p := ['%'] + rest;
    assert p[1..] == rest;
    assert s[0..] == s;
    if s != [] {
      LeadingPercent(s[1..], rest);
      if Like(s, p) && !Like(s, rest) {
        var i :| 0 <= i <= |s| - 1 && Like(s[1..][i..], rest);
        assert s[1..][i..] == s[i + 1..];
      }
      if i :| 0 < i <= |s| && Like(s[i..], rest) {
        assert s[1..][i - 1..] == s[i..];
      }
    }
  }

  /** The search matches every category that holds the query, letter case
      aside; when the query holds no `%` or `_` it matches no other. */
  lemma ContainsPatternMeaning(s: string, q: string)
    ensures ContainsIgnoringCase(s, q) ==> Like(s, ContainsPattern(q))
    ensures (forall k :: 0 <= k < |q| ==> !IsWildcard(q[k])) ==>
              (Like(s, ContainsPattern(q)) <==> ContainsIgnoringCase(s, q))
  {
    var rest := q + "%";
    assert ContainsPattern(q) == ['%'] + rest;
    LeadingPercent(s, rest);
    if ContainsIgnoringCase(s, q) {
      var i :| 0 <= i <= |s| && PrefixIgnoringCase(q, s[i..]);
      PrefixMatches(q, s[i..]);
    }
    if (forall k :: 0 <= k < |q| ==> !IsWildcard(q[k])) && Like(s, ContainsPattern(q)) {
      var i :| 0 <= i <= |s| && Like(s[i..], rest);
      MatchIsPrefix(q, s[i..]);
    }
  }

  /** A literal occurrence is in particular a case-insensitive one. */
  lemma LiteralIsIgnoringCase(s: string, q: string)
    requires ContainsLiterally(s, q)
    ensures ContainsIgnoringCase(s, q)
  {
    var i :| 0 <= i <= |s| && q <= s[i..];
    LiteralPrefix(q, s[i..]);
  }

  lemma {:induction false} LiteralPrefix(q: string, s: string)
    requires q <= s
    ensures PrefixIgnoringCase(q, s)
  {
    if q != [] {
      assert q[1..] <= s[1..];
      LiteralPrefix(q[1..], s[1..]);
    }
  }
}
