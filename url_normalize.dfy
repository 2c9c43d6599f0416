/** The per-token rewrite `url.split('?')[0].replace(/\/$/, '')`. It works on
    the raw token text, not on a parsed URL. */
module UrlNormalize {

  /** `s.split('?')[0]`: the longest prefix of `s` without a `?`. It stops at
      the first `?` wherever it stands, inside a fragment as well. */
  function BeforeQuery(s: string): (r: string)
    ensures |r| <= |s| && r == s[..|r|]
    ensures '?' !in r
    ensures r == s || s[|r|] == '?'
  {
    if s == "" || s[0] == '?' then "" else [s[0]] + BeforeQuery(s[1..])
  }

  /** `s.replace(/\/$/, '')`: without the `m` flag `$` matches only at the very
      end, and the pattern matches a single `/`. */
  function StripTrailingSlash(s: string): (r: string)
    ensures |r| <= |s| && r == s[..|r|]
    ensures |r| < |s| <==> |s| > 0 && s[|s| - 1] == '/'
    ensures |s| <= |r| + 1
  {
    if |s| > 0 && s[|s| - 1] == '/' then s[..|s| - 1] else s
  }

  /** The normal form of one token. */
  function Normalize(token: string): (r: string)
    ensures |r| <= |token| && r == token[..|r|]
    ensures '?' !in r
  {
    StripTrailingSlash(BeforeQuery(token))
  }

  /** The normal form is a prefix of the token, holds no `?`, and differs from
      the part before the first `?` by exactly one trailing `/` when that part
      ends in `/`, and not at all otherwise. */
  lemma NormalizeSpec(token: string)
    ensures var u := Normalize(token);
      && |u| <= |token| && u == token[..|u|]
      && '?' !in u
      && var q := BeforeQuery(token);
         (if |q| > 0 && q[|q| - 1] == '/' then q == u + "/" else q == u)
  {
    var q := BeforeQuery(token);
    if |q| > 0 && q[|q| - 1] == '/' {
      assert q == q[..|q| - 1] + "/";
    }
  }

  /** Only one `/` goes: a part before the `?` that ends in `//` keeps one. */
  lemma NormalizeKeepsSecondSlash(token: string)
    requires var q := BeforeQuery(token); |q| >= 2 && q[|q| - 2..] == "//"
    ensures |Normalize(token)| > 0 && Normalize(token)[|Normalize(token)| - 1] == '/'
  {
    var q := BeforeQuery(token);
    assert q[|q| - 2] == '/';
  }

  /** A string without `?` is its own part before the `?`. */
  lemma BeforeQueryOfQueryless(s: string)
    requires '?' !in s
    ensures BeforeQuery(s) == s
  {
  }

  /** A string without `?` and without a trailing `/` is its own normal form. */
  lemma NormalizeOfNormalForm(u: string)
    requires '?' !in u && (u == "" || u[|u| - 1] != '/')
    ensures Normalize(u) == u
  {
    BeforeQueryOfQueryless(u);
  }

  /** Normalizing a normal form again changes it exactly when it still ends in
      `/`: normalization is not idempotent. */
  lemma NormalizeFixedPoint(token: string)
    ensures var u := Normalize(token);
      Normalize(u) == u <==> (u == "" || u[|u| - 1] != '/')
  {
    var u := Normalize(token);
    NormalizeSpec(token);
    BeforeQueryOfQueryless(u);
  }

  /** The two passes that `https://a.com//` needs: the first gives
      `https://a.com/`, the second `https://a.com`. */
  lemma DoubleSlashNeedsTwoPasses(base: string)
    requires '?' !in base
    ensures Normalize(base + "//") == base + "/"
    ensures Normalize(Normalize(base + "//")) == base
  {
    BeforeQueryOfQueryless(base + "//");
    assert (base + "//")[..|base + "//"| - 1] == base + "/";
    BeforeQueryOfQueryless(base + "/");
    assert (base + "/")[..|base + "/"| - 1] == base;
  }

  /** Appending a query to a query-free string changes nothing. */
  lemma {:induction false} BeforeQueryDropsQuery(s: string, query: string)
    requires '?' !in s
    ensures BeforeQuery(s + "?" + query) == s
    decreases |s|
  {
    if s == "" {
      assert (s + "?" + query)[0] == '?';
    } else {
      assert (s + "?" + query)[1..] == s[1..] + "?" + query;
      BeforeQueryDropsQuery(s[1..], query);
      assert s == [s[0]] + s[1..];
    }
  }
}
