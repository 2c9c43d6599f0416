/** `removeDuplicateUrls`, the per-row toggle and the text view of the list.
    The platform's `URL` constructor is the parameter `isUrl`: `isUrl(t)` holds
    exactly when `new URL(t)` returns instead of throwing. */
module UrlList {
  import opened JsSplit
  import opened UrlNormalize
  import opened OrderedSet

  datatype UrlItem = UrlItem(url: string, isUsed: bool)

  function Urls(items: seq<UrlItem>): (r: seq<string>)
    ensures |r| == |items|
  {
    seq(|items|, k requires 0 <= k < |items| => items[k].url)
  }

  predicate UniqueUrls(items: seq<UrlItem>) {
    forall i, j :: 0 <= i < j < |items| ==> items[i].url != items[j].url
  }

  /** What the URL standard's parser guarantees without a base URL: the input
      needs a scheme, so an accepted token is not empty and starts neither with
      `?` nor with `/`. Only the lemmas that say so assume it. */
  ghost predicate ParsesOnlyAbsolute(isUrl: string -> bool) {
    forall t :: isUrl(t) ==> t != "" && t[0] != '?' && t[0] != '/'
  }

  /** The tokens the `filter` keeps: those the `URL` constructor accepts. */
  function ValidTokens(tokens: seq<string>, isUrl: string -> bool): (r: seq<string>)
    ensures |r| <= |tokens|
    ensures forall t :: t in r <==> t in tokens && isUrl(t)
  {
    if tokens == [] then []
    else
      var rest := ValidTokens(tokens[1..], isUrl);
      assert tokens == [tokens[0]] + tokens[1..];
      if isUrl(tokens[0]) then [tokens[0]] + rest else rest
  }

  /** The filter keeps the accepted tokens in input order, repeats included:
      filtering a concatenation filters each part. */
  lemma {:induction false} ValidTokensAppend(a: seq<string>, b: seq<string>, isUrl: string -> bool)
    ensures ValidTokens(a + b, isUrl) == ValidTokens(a, isUrl) + ValidTokens(b, isUrl)
    decreases |a|
  {
    if a == [] {
      assert a + b == b;
    } else {
      assert (a + b)[1..] == a[1..] + b;
      ValidTokensAppend(a[1..], b, isUrl);
    }
  }

  /** One token is kept exactly when the `URL` constructor accepts it. */
  lemma ValidTokensOne(t: string, isUrl: string -> bool)
    ensures ValidTokens([t], isUrl) == if isUrl(t) then [t] else []
  {
  }

  /** The sequence handed to `new Set`: the normal forms of the valid tokens,
      in input order. */
  function Candidates(text: string, isUrl: string -> bool): (r: seq<string>)
    ensures |r| <= |Split(text)|
    ensures forall k :: 0 <= k < |r| ==> '?' !in r[k]
  {
    var valid := ValidTokens(Split(text), isUrl);
    seq(|valid|, k requires 0 <= k < |valid| => Normalize(valid[k]))
  }

  /** The final `map`: each url becomes an item that is not used yet. */
  function AsUnusedItems(urls: seq<string>): (r: seq<UrlItem>)
    ensures |r| == |urls| && Urls(r) == urls
    ensures forall i :: 0 <= i < |r| ==> !r[i].isUsed
    ensures Distinct(urls) ==> UniqueUrls(r)
  {
    seq(|urls|, k requires 0 <= k < |urls| => UrlItem(urls[k], false))
  }

  /** `removeDuplicateUrls(text)`: split, keep what the `URL` constructor
      accepts, normalize, deduplicate through a `Set`, wrap as unused items. */
  function RemoveDuplicateUrls(text: string, isUrl: string -> bool): (r: seq<UrlItem>)
    ensures UniqueUrls(r)
    ensures |r| <= |Split(text)|
    ensures forall i :: 0 <= i < |r| ==> !r[i].isUsed
  {
    AsUnusedItems(FromSeq(Candidates(text, isUrl)))
  }

  /** `u` is the normal form of some token of `text` that the `URL` constructor
      accepts. */
  ghost predicate ArisesFrom(u: string, text: string, isUrl: string -> bool) {
    exists t :: t in Split(text) && isUrl(t) && Normalize(t) == u
  }

  lemma CandidatesSpec(text: string, isUrl: string -> bool)
    ensures |Candidates(text, isUrl)| <= |Split(text)|
    ensures forall u :: u in Candidates(text, isUrl) <==> ArisesFrom(u, text, isUrl)
  {
    var valid := ValidTokens(Split(text), isUrl);
    var cs := Candidates(text, isUrl);
    forall u | u in cs ensures ArisesFrom(u, text, isUrl) {
      var k :| 0 <= k < |cs| && cs[k] == u;
      assert valid[k] in valid;
    }
    forall u | ArisesFrom(u, text, isUrl) ensures u in cs {
      var t :| t in Split(text) && isUrl(t) && Normalize(t) == u;
      var k :| 0 <= k < |valid| && valid[k] == t;
      assert cs[k] == u;
    }
  }

  /** The list has no two items with the same url, and a url is in it exactly
      when it is the normal form of a token the `URL` constructor accepts;
      rejected tokens contribute nothing. */
  lemma RemoveDuplicateUrlsContents(text: string, isUrl: string -> bool)
    ensures UniqueUrls(RemoveDuplicateUrls(text, isUrl))
    ensures forall u :: u in Urls(RemoveDuplicateUrls(text, isUrl)) <==> ArisesFrom(u, text, isUrl)
  {
    var cs := Candidates(text, isUrl);
    FromSeqSpec(cs);
    CandidatesSpec(text, isUrl);
    assert Urls(RemoveDuplicateUrls(text, isUrl)) == FromSeq(cs);
  }

  /** The urls come in the order in which their normal forms first arise from
      the accepted tokens, scanned left to right. */
  lemma RemoveDuplicateUrlsOrder(text: string, isUrl: string -> bool)
    ensures var items, cs := RemoveDuplicateUrls(text, isUrl), Candidates(text, isUrl);
      && (forall i :: 0 <= i < |items| ==> items[i].url in cs)
      && (forall i, j :: 0 <= i < j < |items| ==> IndexOf(cs, items[i].url) < IndexOf(cs, items[j].url))
  {
    FromSeqSpec(Candidates(text, isUrl));
  }

  /** Every item starts unused, the list is no longer than the token list,
      and each url is a prefix of an accepted token, free of `?` and of
      whitespace. */
  lemma RemoveDuplicateUrlsItems(text: string, isUrl: string -> bool)
    ensures var items := RemoveDuplicateUrls(text, isUrl);
      && |items| <= |Split(text)|
      && (forall i :: 0 <= i < |items| ==> !items[i].isUsed)
      && (forall i :: 0 <= i < |items| ==>
            && '?' !in items[i].url
            && NoWs(items[i].url)
            && exists t :: t in Split(text) && isUrl(t) && |items[i].url| <= |t| && items[i].url == t[..|items[i].url|])
  {
    var items := RemoveDuplicateUrls(text, isUrl);
    var cs := Candidates(text, isUrl);
    FromSeqSpec(cs);
    CandidatesSpec(text, isUrl);
    forall i | 0 <= i < |items|
      ensures '?' !in items[i].url && NoWs(items[i].url)
      ensures exists t :: t in Split(text) && isUrl(t) && |items[i].url| <= |t| && items[i].url == t[..|items[i].url|]
    {
      assert items[i].url in cs;
      CandidateShape(text, isUrl, items[i].url);
    }
  }

  /** A string handed to the `Set` is a `?`-free, whitespace-free prefix of an
      accepted token. */
  lemma CandidateShape(text: string, isUrl: string -> bool, u: string)
    requires ArisesFrom(u, text, isUrl)
    ensures '?' !in u && NoWs(u)
    ensures exists t :: t in Split(text) && isUrl(t) && |u| <= |t| && u == t[..|u|]
  {
    var t :| t in Split(text) && isUrl(t) && Normalize(t) == u;
    NormalizeSpec(t);
    assert NoWs(t);
  }

  /** The list is empty exactly when the `URL` constructor accepts no token. */
  lemma RemoveDuplicateUrlsEmpty(text: string, isUrl: string -> bool)
    ensures RemoveDuplicateUrls(text, isUrl) == [] <==>
      forall t :: t in Split(text) ==> !isUrl(t)
  {
    var items := RemoveDuplicateUrls(text, isUrl);
    RemoveDuplicateUrlsContents(text, isUrl);
    if items != [] {
      assert Urls(items)[0] == items[0].url;
      assert ArisesFrom(items[0].url, text, isUrl);
    }
    if t :| t in Split(text) && isUrl(t) {
      assert ArisesFrom(Normalize(t), text, isUrl);
      assert Normalize(t) in Urls(items);
    }
  }

  /** Input made of whitespace only, the empty string included, gives the
      empty list, since the parser rejects the empty tokens it splits into. */
  lemma WhitespaceOnlyGivesNothing(text: string, isUrl: string -> bool)
    requires AllWs(text)
    requires ParsesOnlyAbsolute(isUrl)
    ensures RemoveDuplicateUrls(text, isUrl) == []
  {
    SplitOfAllWs(text);
    RemoveDuplicateUrlsEmpty(text, isUrl);
  }

  /** Distinct accepted tokens joined by whitespace come back in input order,
      each as its normal form, when no two share a normal form. */
  lemma DistinctTokensKeepOrder(ts: seq<string>, sep: string, isUrl: string -> bool)
    requires |ts| >= 1 && forall k :: 0 <= k < |ts| ==> ts[k] != "" && NoWs(ts[k]) && isUrl(ts[k])
    requires sep != "" && AllWs(sep)
    requires forall i, j :: 0 <= i < j < |ts| ==> Normalize(ts[i]) != Normalize(ts[j])
    ensures RemoveDuplicateUrls(Join(ts, sep), isUrl) ==
      seq(|ts|, k requires 0 <= k < |ts| => UrlItem(Normalize(ts[k]), false))
  {
    var text := Join(ts, sep);
    var cs := seq(|ts|, k requires 0 <= k < |ts| => Normalize(ts[k]));
    JoinedCandidates(ts, sep, isUrl);
    assert FromSeq(cs) == cs by {
      assert Distinct(cs);
      FromSeqOfDistinct(cs);
    }
    WrapUrls(text, isUrl, cs);
  }

  /** Accepted tokens joined by whitespace reach the `Set` as their normal
      forms, one for one and in order. */
  lemma JoinedCandidates(ts: seq<string>, sep: string, isUrl: string -> bool)
    requires Splittable(ts) && forall k :: 0 <= k < |ts| ==> isUrl(ts[k])
    requires sep != "" && AllWs(sep)
    ensures Candidates(Join(ts, sep), isUrl) == seq(|ts|, k requires 0 <= k < |ts| => Normalize(ts[k]))
  {
    SplitJoin(ts, sep);
    AllValid(ts, isUrl);
    CandidatesOfAccepted(Join(ts, sep), isUrl);
  }

  /** The items are the urls the `Set` gives back, each wrapped unused. */
  lemma WrapUrls(text: string, isUrl: string -> bool, urls: seq<string>)
    requires FromSeq(Candidates(text, isUrl)) == urls
    ensures RemoveDuplicateUrls(text, isUrl) == AsUnusedItems(urls)
  {
  }

  /** When every token is accepted, the strings handed to the `Set` are the
      tokens' normal forms, one for one. */
  lemma CandidatesOfAccepted(text: string, isUrl: string -> bool)
    requires ValidTokens(Split(text), isUrl) == Split(text)
    ensures var ts := Split(text);
      Candidates(text, isUrl) == seq(|ts|, k requires 0 <= k < |ts| => Normalize(ts[k]))
  {
  }

  /** Two different accepted urls, each already in normal form, separated by
      whitespace come back as two unused items in the order given. */
  lemma TwoUrlsKeepOrder(b: string, a: string, sep: string, isUrl: string -> bool)
    requires b != "" && NoWs(b) && '?' !in b && b[|b| - 1] != '/' && isUrl(b)
    requires a != "" && NoWs(a) && '?' !in a && a[|a| - 1] != '/' && isUrl(a)
    requires a != b && sep != "" && AllWs(sep)
    ensures RemoveDuplicateUrls(b + sep + a, isUrl) == [UrlItem(b, false), UrlItem(a, false)]
  {
    NormalizeOfNormalForm(b);
    NormalizeOfNormalForm(a);
    TwoTokens(b, a, sep, isUrl);
    FromSeqOfDistinct([b, a]);
    WrapUrls(b + sep + a, isUrl, [b, a]);
  }

  /** Two accepted tokens separated by whitespace reach the `Set` as their two
      normal forms, in order. */
  lemma TwoTokens(b: string, a: string, sep: string, isUrl: string -> bool)
    requires b != "" && NoWs(b) && isUrl(b)
    requires a != "" && NoWs(a) && isUrl(a)
    requires sep != "" && AllWs(sep)
    ensures Candidates(b + sep + a, isUrl) == [Normalize(b), Normalize(a)]
  {
    var ts := [b, a];
    assert Join(ts, sep) == b + sep + a;
    JoinedCandidates(ts, sep, isUrl);
  }

  lemma TwoLiteralUrls(isUrl: string -> bool)
    requires isUrl("https://b.com") && isUrl("https://a.com")
    ensures RemoveDuplicateUrls("https://b.com https://a.com", isUrl) ==
      [UrlItem("https://b.com", false), UrlItem("https://a.com", false)]
  {
    assert "https://b.com https://a.com" == "https://b.com" + " " + "https://a.com";
    TwoUrlsKeepOrder("https://b.com", "https://a.com", " ", isUrl);
  }

  lemma NoWsAppend(a: string, b: string)
    requires NoWs(a) && NoWs(b)
    ensures NoWs(a + b)
  {
    forall k | 0 <= k < |a + b| ensures !IsWs((a + b)[k]) {
      if k >= |a| {
        assert (a + b)[k] == b[k - |a|];
      }
    }
  }

  lemma {:induction false} AllValid(ts: seq<string>, isUrl: string -> bool)
    requires forall k :: 0 <= k < |ts| ==> isUrl(ts[k])
    ensures ValidTokens(ts, isUrl) == ts
  {
    if ts != [] {
      AllValid(ts[1..], isUrl);
    }
  }

  /** Tokens that differ only in their query collapse into one item. */
  lemma QueryVariantsCollapse(base: string, q1: string, q2: string, isUrl: string -> bool)
    requires base != "" && NoWs(base) && '?' !in base
    requires NoWs(q1) && NoWs(q2)
    requires isUrl(base + "?" + q1) && isUrl(base + "?" + q2)
    ensures RemoveDuplicateUrls(base + "?" + q1 + "\n" + base + "?" + q2, isUrl) ==
      [UrlItem(StripTrailingSlash(base), false)]
  {
    var u := StripTrailingSlash(base);
    QueryVariantsCandidates(base, q1, q2, isUrl);
    FromSeqOfTwin(u);
    WrapUrls(base + "?" + q1 + "\n" + base + "?" + q2, isUrl, [u]);
    assert AsUnusedItems([u])[0] == UrlItem(u, false);
  }

  /** Both query variants reach the `Set` as the same normal form. */
  lemma QueryVariantsCandidates(base: string, q1: string, q2: string, isUrl: string -> bool)
    requires base != "" && NoWs(base) && '?' !in base
    requires NoWs(q1) && NoWs(q2)
    requires isUrl(base + "?" + q1) && isUrl(base + "?" + q2)
    ensures var u := StripTrailingSlash(base);
      Candidates(base + "?" + q1 + "\n" + base + "?" + q2, isUrl) == [u, u]
  {
    var t1, t2 := base + "?" + q1, base + "?" + q2;
    QueryToken(base, q1);
    QueryToken(base, q2);
    assert AllWs("\n") && t1 != "" && t2 != "";
    TwoTokens(t1, t2, "\n", isUrl);
    assert t1 + "\n" + t2 == base + "?" + q1 + "\n" + base + "?" + q2;
  }

  /** A query-free, whitespace-free base with a query appended is one token
      whose normal form is the base without a trailing `/`. */
  lemma QueryToken(base: string, query: string)
    requires NoWs(base) && '?' !in base && NoWs(query)
    ensures NoWs(base + "?" + query)
    ensures Normalize(base + "?" + query) == StripTrailingSlash(base)
  {
    assert NoWs("?");
    NoWsAppend(base, "?");
    NoWsAppend(base + "?", query);
    BeforeQueryDropsQuery(base, query);
  }

  /** `handleCheckboxChange(index)`: the `map` that negates `isUsed` of the
      item at `index` and keeps every other item as it is. */
  function ToggleAt(items: seq<UrlItem>, index: int): (r: seq<UrlItem>)
    ensures |r| == |items|
    ensures forall i :: 0 <= i < |r| ==> r[i].url == items[i].url
  {
    seq(|items|, i requires 0 <= i < |items| =>
      if i == index then items[i].(isUsed := !items[i].isUsed) else items[i])
  }

  /** The toggle keeps the length and every url, flips `isUsed` at `index`
      only, and changes nothing when `index` is out of range. */
  lemma ToggleAtSpec(items: seq<UrlItem>, index: int)
    ensures var r := ToggleAt(items, index);
      && |r| == |items|
      && Urls(r) == Urls(items)
      && (forall i :: 0 <= i < |r| && i != index ==> r[i] == items[i])
      && (0 <= index < |items| ==> r[index].isUsed == !items[index].isUsed)
      && (!(0 <= index < |items|) ==> r == items)
  {
  }

  /** Toggling the same row twice restores the list. */
  lemma ToggleAtTwice(items: seq<UrlItem>, index: int)
    ensures ToggleAt(ToggleAt(items, index), index) == items
  {
  }

  lemma ToggleAtKeepsUnique(items: seq<UrlItem>, index: int)
    requires UniqueUrls(items)
    ensures UniqueUrls(ToggleAt(items, index))
  {
  }

  /** The text view: the urls joined by newlines. */
  function TextOutput(items: seq<UrlItem>): (r: string)
    ensures items == [] ==> r == ""
    ensures items != [] ==> |items[0].url| <= |r| && r[..|items[0].url|] == items[0].url
  {
    Join(Urls(items), "\n")
  }

  /** The text view splits back into the urls of a non-empty list whose urls
      are non-empty and free of whitespace. */
  lemma TextOutputSplitsBack(items: seq<UrlItem>)
    requires |items| >= 1
    requires forall i :: 0 <= i < |items| ==> items[i].url != "" && NoWs(items[i].url)
    ensures Split(TextOutput(items)) == Urls(items)
  {
    assert AllWs("\n");
    SplitJoin(Urls(items), "\n");
  }

  /** The text view of a produced list splits back into exactly its urls. */
  lemma ProducedTextSplitsBack(text: string, isUrl: string -> bool)
    requires ParsesOnlyAbsolute(isUrl)
    requires RemoveDuplicateUrls(text, isUrl) != []
    ensures Split(TextOutput(RemoveDuplicateUrls(text, isUrl))) == Urls(RemoveDuplicateUrls(text, isUrl))
  {
    var items := RemoveDuplicateUrls(text, isUrl);
    RemoveDuplicateUrlsItems(text, isUrl);
    ProducedUrlsNotEmpty(text, isUrl);
    TextOutputSplitsBack(items);
  }

  /** Under the parser's guarantee no produced url is empty. */
  lemma ProducedUrlsNotEmpty(text: string, isUrl: string -> bool)
    requires ParsesOnlyAbsolute(isUrl)
    ensures var items := RemoveDuplicateUrls(text, isUrl);
      forall i :: 0 <= i < |items| ==> items[i].url != ""
  {
    var items := RemoveDuplicateUrls(text, isUrl);
    RemoveDuplicateUrlsContents(text, isUrl);
    forall i | 0 <= i < |items| ensures items[i].url != "" {
      assert Urls(items)[i] == items[i].url;
      assert ArisesFrom(items[i].url, text, isUrl);
      var t :| t in Split(text) && isUrl(t) && Normalize(t) == items[i].url;
      NormalizedAbsoluteNotEmpty(t);
    }
  }

  /** A token that starts with neither `?` nor `/` keeps a non-empty normal form. */
  lemma NormalizedAbsoluteNotEmpty(t: string)
    requires t != "" && t[0] != '?' && t[0] != '/'
    ensures Normalize(t) != ""
  {
    var q := BeforeQuery(t);
    assert q == [t[0]] + BeforeQuery(t[1..]);
    if |q| == 1 {
      assert q[0] != '/';
    }
  }
}
