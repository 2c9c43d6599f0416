# URL Duplicates Remover, modelled in Dafny

The program is a single React component, `App` in `src/App.tsx`. The user pastes
text into a text area and presses a button. `removeDuplicateUrls` then turns the
text into a list of unique URLs, each with an "used" flag that starts `false`.
The list is shown as a table with one checkbox per row, or as plain text with one
URL per line.

This project models that logic:

- `js_split.dfy`, module `JsSplit`: `text.split(/[\n\s]+/)` as JavaScript
  defines it, and `Array.prototype.join`. `IsWs` is the ECMAScript `\s` class,
  that is the WhiteSpace and LineTerminator code points.
- `url_normalize.dfy`, module `UrlNormalize`: the rewrite
  `url.split('?')[0].replace(/\/$/, '')` applied to each kept token.
- `ordered_set.dfy`, module `OrderedSet`: a JavaScript `Set` seen as its
  insertion-ordered contents. `FromSeq` is `Array.from(new Set(xs))`.
  `FirstOccurrences` is an independent reference definition, and
  `AddAllIsFirstOccurrences` proves the two equal.
- `url_list.dfy`, module `UrlList`: the `UrlItem` record of src/App.tsx:18-21
  (the datatype `UrlItem`), `removeDuplicateUrls`
  (split, filter, normalize, deduplicate, wrap), the `map` inside
  `handleCheckboxChange` (`ToggleAt`), and the newline join of the text view
  (`TextOutput`).
- `app.dfy`, module `AppComponent`: the component's state as a class. The
  fields are `input`, `urlItems` and `viewMode`. The datatype `ViewMode` is the
  `'table' | 'text'` type of src/App.tsx:26, and `ModeChoice` adds the `null`
  that `handleViewModeChange` receives at src/App.tsx:71. The handlers are methods, and
  each one states the whole new state. `Valid()` says that no two rows share a
  url; every handler keeps it.

The `URL` constructor belongs to the platform and is not modelled. It appears as
a parameter `isUrl: string -> bool`, which holds exactly when `new URL(token)`
returns instead of throwing. The component keeps it in the const field
`App.isUrl`. Some lemmas also assume `ParsesOnlyAbsolute(isUrl)`. This is what
the URL standard's parser does when it has no base URL: an accepted token is
non-empty and starts neither with `?` nor with `/`.

Three details of the code are easy to misread, and the model follows the code:

- Split does not discard empty tokens. A leading or trailing whitespace run
  gives an empty token, and the empty input gives `[""]`. The URL constructor
  then rejects these tokens.
- The query is not removed through the parsed URL. `url.search = ''` and
  `url.toString()` at src/App.tsx:35-36 only decide whether the filter keeps the
  token, because the later `map` rewrites the raw token. So the output is not a
  re-serialized URL. A `?` inside a fragment also cuts the string, and a
  fragment without `?` is kept.
- The normal form is not idempotent. `DoubleSlashNeedsTwoPasses` shows that
  `x//` becomes `x/` and then `x`. `NormalizeFixedPoint` says exactly when a
  normal form is stable. So a second run over the text view may shorten urls.

## Model

| member | source | states |
|---|---|---|
| `JsSplit.Split` | src/App.tsx:29 | splitting on whitespace runs gives at least one token, no token holds whitespace, only the first and last token can be empty, and a text that starts with a non-whitespace character has a non-empty first token |
| `JsSplit.SplitKeepsText` | src/App.tsx:29 | the tokens glued together are exactly the non-whitespace characters of the text, in order, so the split loses and invents nothing |
| `JsSplit.SplitOfAllWs` | src/App.tsx:29 | a text made only of whitespace, the empty text included, splits into empty tokens only |
| `JsSplit.SplitJoin` | src/App.tsx:29 | joining tokens with any non-empty whitespace separator and splitting again gives the tokens back, when the tokens hold no whitespace and no inner token is empty |
| `JsSplit.Join` | src/App.tsx:80 | the joined text starts with the first element |
| `UrlNormalize.BeforeQuery` | src/App.tsx:42 | `split('?')[0]` is the longest prefix without `?`: it is the whole string, or the next character is `?` |
| `UrlNormalize.StripTrailingSlash` | src/App.tsx:42 | `replace(/\/$/, '')` gives a prefix of its input that is at most one character shorter, and shorter exactly when the input ends in `/` |
| `UrlNormalize.Normalize` | src/App.tsx:42 | the normal form of a token is a prefix of the token and holds no `?` |
| `UrlNormalize.NormalizeSpec` | src/App.tsx:42 | the normal form is a prefix of the token and holds no `?`; it is the part before the first `?` minus one trailing `/` when that part ends in `/`, and that part unchanged otherwise |
| `UrlNormalize.NormalizeKeepsSecondSlash` | src/App.tsx:42 | only one `/` is removed: a part before the `?` that ends in `//` leaves a normal form that still ends in `/` |
| `UrlNormalize.NormalizeFixedPoint` | src/App.tsx:42 | normalizing a normal form again leaves it unchanged exactly when it is empty or does not end in `/` |
| `UrlNormalize.NormalizeOfNormalForm` | src/App.tsx:42 | a string without `?` that does not end in `/` is its own normal form |
| `UrlNormalize.DoubleSlashNeedsTwoPasses` | src/App.tsx:42 | for a query-free `x`, `x//` normalizes to `x/` and a second pass gives `x`, so normalization is not idempotent |
| `UrlNormalize.BeforeQueryDropsQuery` | src/App.tsx:42 | appending `?` and any query to a query-free string does not change its part before the `?` |
| `OrderedSet.AddAllIsFirstOccurrences` | src/App.tsx:31-44 | building a `Set` by adding elements left to right gives the elements of the input at their first occurrences, as the reference definition does |
| `OrderedSet.Add` | src/App.tsx:31-44 | `set.add(x)` keeps the old contents as a prefix, holds `x` afterwards, adds at most one element and no value other than `x`, and keeps the contents free of repeats |
| `OrderedSet.AddAll` | src/App.tsx:31-44 | adding elements left to right keeps the old contents as a prefix, holds every added element, adds at most one entry per element and no other value, and keeps the contents free of repeats |
| `OrderedSet.FromSeq` | src/App.tsx:31-46 | `Array.from(new Set(xs))` has no repeats, holds every element of `xs` and no other value, and is no longer than `xs` |
| `OrderedSet.FirstOccurrencesMembers` | src/App.tsx:31-44 | the first occurrences contain exactly the input's values and are no longer than the input |
| `OrderedSet.FirstOccurrencesDistinct` | src/App.tsx:31-44 | the first occurrences contain no value twice |
| `OrderedSet.FirstOccurrencesOrder` | src/App.tsx:31-44 | the first occurrences appear in the order in which each value first occurs in the input |
| `OrderedSet.FromSeqSpec` | src/App.tsx:31-46 | `Array.from(new Set(xs))` has no repeats, contains exactly the values of `xs`, is no longer than `xs`, and lists values in order of first occurrence |
| `OrderedSet.FromSeqOfDistinct` | src/App.tsx:31-46 | a sequence without repeats passes through the `Set` unchanged |
| `UrlList.ValidTokens` | src/App.tsx:32-39 | the filter keeps exactly the tokens the `URL` constructor accepts and never lengthens the list; a rejected token raises no error |
| `UrlList.ValidTokensAppend` | src/App.tsx:32-40 | filtering a concatenation gives the filtered parts concatenated, so the filter keeps the accepted tokens in input order, repeats included |
| `UrlList.ValidTokensOne` | src/App.tsx:32-40 | a single token is kept exactly when the `URL` constructor accepts it |
| `UrlList.Candidates` | src/App.tsx:29-43 | there are no more strings handed to the `Set` than tokens, and none of them holds `?` |
| `UrlList.JoinedCandidates` | src/App.tsx:29-43 | accepted tokens joined by whitespace reach the `Set` as their normal forms, one for one and in order |
| `UrlList.AsUnusedItems` | src/App.tsx:46-49 | the final `map` gives one item per url, with the same urls in the same order, all unused, and distinct urls give items with unique urls |
| `UrlList.RemoveDuplicateUrls` | src/App.tsx:28-50 | the result has no two items with the same url, no more items than tokens, and every item unused |
| `UrlList.CandidatesSpec` | src/App.tsx:29-43 | the strings handed to the `Set` are exactly the normal forms of the accepted tokens, and there are no more of them than tokens |
| `UrlList.RemoveDuplicateUrlsContents` | src/App.tsx:28-50 | no two items share a url, and a url appears exactly when it is the normal form of a token the `URL` constructor accepts |
| `UrlList.RemoveDuplicateUrlsOrder` | src/App.tsx:29-46 | the urls come in the order in which their normal forms first arise from the accepted tokens, scanned left to right |
| `UrlList.RemoveDuplicateUrlsItems` | src/App.tsx:29-49 | every item is created unused, the list is no longer than the token list, and each url holds no `?` and no whitespace and is a prefix of an accepted token |
| `UrlList.RemoveDuplicateUrlsEmpty` | src/App.tsx:32-46 | the list is empty exactly when the `URL` constructor accepts no token |
| `UrlList.WhitespaceOnlyGivesNothing` | src/App.tsx:29-39 | input made only of whitespace, the empty input included, gives the empty list |
| `UrlList.DistinctTokensKeepOrder` | src/App.tsx:28-50 | accepted tokens joined by whitespace whose normal forms are pairwise different come back in input order, each as its normal form and unused |
| `UrlList.QueryVariantsCollapse` | src/App.tsx:28-50 | two newline-separated tokens that differ only in their query give a single unused item, the shared part without a trailing `/` |
| `UrlList.TwoUrlsKeepOrder` | src/App.tsx:28-50 | two different accepted urls already in normal form, separated by whitespace, come back as two unused items in the order given |
| `UrlList.TwoLiteralUrls` | src/App.tsx:28-50 | when the `URL` constructor accepts both, the text `https://b.com https://a.com` gives the items `https://b.com` then `https://a.com`, both unused |
| `UrlList.ToggleAt` | src/App.tsx:62-66 | the `map` keeps the length and the url of every item |
| `UrlList.ToggleAtSpec` | src/App.tsx:61-67 | the toggle keeps the length and every url, negates `isUsed` at the index only, leaves every other item unchanged, and changes nothing for an out-of-range index |
| `UrlList.ToggleAtTwice` | src/App.tsx:61-67 | toggling the same index twice restores the list |
| `UrlList.ToggleAtKeepsUnique` | src/App.tsx:61-67 | toggling keeps the urls pairwise different |
| `UrlList.TextOutput` | src/App.tsx:80 | the text view of no rows is empty, and otherwise starts with the first url |
| `UrlList.TextOutputSplitsBack` | src/App.tsx:80 | the newline-joined text view of a non-empty list of non-empty, whitespace-free urls splits back into exactly those urls |
| `UrlList.ProducedTextSplitsBack` | src/App.tsx:78-86 | when the parser accepts only absolute URLs, the text view of a non-empty produced list splits back into exactly its urls |
| `UrlList.ProducedUrlsNotEmpty` | src/App.tsx:40-43 | when the parser accepts only absolute URLs, no produced url is empty |
| `UrlList.NormalizedAbsoluteNotEmpty` | src/App.tsx:42 | a token that starts with neither `?` nor `/` has a non-empty normal form |
| `AppComponent.App.constructor` | src/App.tsx:24-26 | the initial state has empty input, no rows and table view |
| `AppComponent.App.HandleInputChange` | src/App.tsx:52-54 | the new text becomes the input, and the rows and view mode are unchanged |
| `AppComponent.App.HandleSubmit` | src/App.tsx:56-59 | the rows are replaced wholesale by `removeDuplicateUrls(input)`: unique urls, all unused; input and view mode are unchanged |
| `AppComponent.App.HandleCheckboxChange` | src/App.tsx:61-67 | the rows become the toggled list: same length and urls, only the row at the index flips, an out-of-range index changes nothing, urls stay unique |
| `AppComponent.App.HandleViewModeChange` | src/App.tsx:69-76 | `null` leaves the view mode unchanged, any other choice becomes the view mode; input and rows are unchanged |
| `AppComponent.DoubleToggleRestores` | src/App.tsx:61-67 | two checkbox changes on the same index bring the rows back to where they were and leave the input and the view mode unchanged |

## Left out

- The URL parser behind `new URL(token)` at src/App.tsx:34 is a platform call.
  It is the parameter `isUrl`. `ParsesOnlyAbsolute` is the only fact about it
  that the model uses, and only the lemmas that name it assume it.
- `url.search = ''` and `url.toString()` at src/App.tsx:35-36 have no effect on
  the result. Only their success matters, and `isUrl` covers that.
- Strings are sequences of Unicode code points, not UTF-16 code units. Every
  `\s` character and `?` and `/` is a single code unit, so splitting and
  cutting give the same tokens either way.
- `IsWs` follows the current Unicode "Zs" category. A JavaScript engine built
  on an older Unicode version may classify a few space characters differently.
- All JSX, Material UI components, icons and CSS (src/App.tsx:1-16, 88-171) are
  left out. They are rendering over a library that is not part of this model.
  That includes the `urlItems.length > 0` guard that decides whether any view
  is shown.
- React's `useState` scheduling and functional updaters are left out. Each
  setter is a plain field assignment made when the handler runs.
- Idempotence of the whole pipeline on its own text view is not claimed.
  `DoubleSlashNeedsTwoPasses` shows it fails, and it also depends on the URL
  parser.
