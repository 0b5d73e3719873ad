# wikibud reference extractor, modelled in Dafny

wikibud runs a script on every loaded encyclopedia article
(`https://*.wikipedia.org/wiki/*`). The script collects the page's
reference-text elements and turns each one into a record `{url, type, title}`:

- a link is chosen: the `a.external.text` anchor inside the reference's
  `<cite>` when there is a cite, otherwise the reference's first `<a>`;
- with a link, `url` is its `href` and `title` its text, unless that text is
  empty (JavaScript `link.textContent || null`), in which case `title` is `null`;
- without a link, `url` is `null` and `title` is the reference's whole text;
- with a cite, `type` is the first capture group of
  `cite.className.match(/citation (\w+)/)`, or `null` if it does not match;
  without a cite `type` is `null`.

The model has three modules:

- `Options` (`options.dfy`): `Option<T>`, where `None` stands for `null`.
- `CitationClass` (`citation_class.dfy`): the `/citation (\w+)/` parse.
  `\w` is the ECMAScript class without the `u` flag, ASCII letters, digits
  and `_` (`IsWordChar`). The reference definition is `MatchWith(s, i, w)`:
  the pattern matches `s` at `i` with capture `w`. `IsLeftmostGreedy` picks
  the match `String.prototype.match` reports: the leftmost start, and at
  that start the longest capture, since `\w+` is greedy. The parse itself
  (`CitationType`) scans for the first place where a match can start
  (`FindMatch`) and takes the run of word characters after the keyword
  (`WordRunLength`). `CitationTypeSound` and `CitationTypeComplete` prove the
  two agree in both directions, including the no-match case.
- `References` (`references.dfy`): the DOM is abstract. A `Reference` holds
  its text, its first anchor and an optional `Cite`. The cite holds its
  class string and its first external-text anchor. `BuildRecord` is the
  per-reference mapping function and `ExtractReferences` the
  `Array.from(...).map(...)` over all references. The record field `type`
  is called `kind`, because `type` is a Dafny keyword.

All of the core is pure, so everything is a function. Functions are
deterministic, so running the extraction twice on the same page gives the
same records without a separate lemma.

## Model

| member | source | states |
|---|---|---|
| `CitationClass.WordRunLength` | scripts/on_wiki_load.js:47 | the greedy `\w+` run: every character in it is a word character, and it stops at the end of the string or at a non-word character |
| `CitationClass.FindMatch` | scripts/on_wiki_load.js:47 | the scan returns a position where the keyword is followed by a word character, and no earlier position from the start qualifies; `None` means no position qualifies |
| `CitationClass.StartsMatchIff` | scripts/on_wiki_load.js:47 | a match can start at `i` exactly when some capture `w` makes `MatchWith(s, i, w)` hold |
| `CitationClass.MatchesStart` | scripts/on_wiki_load.js:47 | every match of the pattern starts at a position the scan accepts |
| `CitationClass.GreedyCapture` | scripts/on_wiki_load.js:47 | at a match start, the word run after the keyword is a capture, and no capture at that start is longer |
| `CitationClass.ExtendMatch` | scripts/on_wiki_load.js:47 | a match directly followed by another word character extends to a longer match at the same start |
| `CitationClass.CaptureAt` | scripts/on_wiki_load.js:47-48 | the captured type at a match start is non-empty and made only of word characters |
| `CitationClass.CitationType` | scripts/on_wiki_load.js:47-48 | a reported type is non-empty and made only of word characters |
| `CitationClass.FindMatchIsLeftmostGreedy` | scripts/on_wiki_load.js:47-48 | the scan's position and capture are the leftmost, longest match of `/citation (\w+)/` |
| `CitationClass.CitationTypeSound` | scripts/on_wiki_load.js:47-48 | a reported type is the capture of the leftmost greedy match; no type is reported exactly when the pattern matches nowhere |
| `CitationClass.CitationTypeComplete` | scripts/on_wiki_load.js:47-48 | whenever `w` is the capture of the leftmost greedy match, the reported type is exactly `w` |
| `CitationClass.LeftmostGreedyUnique` | scripts/on_wiki_load.js:47 | two leftmost greedy matches of one class string have the same start and the same capture |
| `CitationClass.MatchText` | scripts/on_wiki_load.js:47 | a match spells out `"citation "` followed by its capture at its start index |
| `CitationClass.LeftmostGreedyBoundary` | scripts/on_wiki_load.js:47-48 | `"citation " + w` occurs in the class string at the match start, and the character after it (if any) is not a word character |
| `CitationClass.CitationTypeBoundary` | scripts/on_wiki_load.js:47-48 | if a type `w` is reported, `"citation " + w` occurs in the class string and the character after it (if any) is not a word character |
| `CitationClass.FirstWordExample` | scripts/on_wiki_load.js:47 | `"citation web cs1"` gives the type `"web"` |
| `CitationClass.SkipsNonWordExample` | scripts/on_wiki_load.js:47 | `"citation  x citation book"` gives `"book"`: a keyword followed by a space does not match |
| `References.SelectLink` | scripts/on_wiki_load.js:34-37 | with a cite, the link is the cite's `a.external.text` anchor, missing or not; without a cite, it is the reference's first anchor |
| `References.NoCiteUsesFirstAnchor` | scripts/on_wiki_load.js:34-44 | without a cite, `url` is the first anchor's href (or `null` without one), `title` is its non-empty text, `null` for empty text, or the reference text without an anchor, and `type` is `null` |
| `References.BuildRecord` | scripts/on_wiki_load.js:30-55 | `url` is present iff a link was selected, and is that link's href; `title` is the link text when it is non-empty, the reference text when there is no link, and `null` exactly when the link text is empty; `type` is `null` without a cite, is the class-string parse with one, and is always a non-empty word |
| `References.ExtractReferences` | scripts/on_wiki_load.js:29-56 | one record per reference, in the same order: the record at position `i` is the one built from reference `i` |
| `References.ExtractAppend` | scripts/on_wiki_load.js:29 | extracting a concatenation gives the records of the first part, followed by those of the second |
| `References.ExtractEmpty` | scripts/on_wiki_load.js:25-29 | no matched references give no records, not an error |
| `References.CiteLinkIgnoresOtherAnchors` | scripts/on_wiki_load.js:34-41 | with a cite, other anchors in the reference do not change the record, and `url` comes from the cite's external-text anchor only |
| `References.CiteWithoutExternalLink` | scripts/on_wiki_load.js:34-44 | a cite without an external-text anchor gives no `url` and the reference text as `title` |
| `References.ExternalLinkExample` | scripts/on_wiki_load.js:34-48 | a cite linking `https://example.com` with text `Example` gives that url and title, and the type parsed from the cite's class string |
| `References.PlainTextExample` | scripts/on_wiki_load.js:30-55 | a reference with only the text `Plain citation text` gives `{url: null, type: null, title: "Plain citation text"}` |

## Left out

- `document.querySelectorAll(".mw-references-wrap .reference-text")` and the `querySelector` calls for `cite`, `a.external.text` and `a` (scripts/on_wiki_load.js:25-27, 34-37): CSS selector matching in the browser is not modelled. Their results are fields of `Reference` and `Cite`, given in document order.
- `link.href` resolution to an absolute URL and the DOM's `textContent` computation: both are browser behaviour, so they are opaque input strings.
- `main`, `console.table` and the top-level `main()` call (scripts/on_wiki_load.js:62-67): console output and the page-load trigger.
- The "analyze if URLs are updated" and "return useful data" steps in the header comment (scripts/on_wiki_load.js:8-9): the source does not implement them.
- `className` values that are not strings (the `SVGAnimatedString` of SVG elements) are not modelled. A `<cite>` is an HTML element, so its `className` is always a string.
- JavaScript strings are sequences of UTF-16 code units; here a string is a sequence of Unicode scalar values, so lone surrogates cannot be represented and indices past an astral character differ. No result depends on this: the pattern is ASCII, and `||` on the link text only tests for emptiness.
