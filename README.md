# localgov_moderngov HTML post-processing, modelled in Dafny

ModernGov, the committee-management service, embeds a council's header and
footer by fetching a page from the council's Drupal site. This module
post-processes that page before it is sent.

`HtmlResponseSubscriber` runs on the response to the `localgov_moderngov.modern_gov` route. It does three things in order:

- It makes every root-relative URL in nine URL-bearing attributes absolute, including each candidate of a `srcset`.
- When asked to, it empties the first visible `<main>`.
- It serialises the first `<header>`, the first `<footer>` or the whole document.

`HeaderFooterExtraction` builds the header and footer fragments. Each
fragment is the first `<header>` or `<footer>`, plus the head scripts and
stylesheets, the pre-header body scripts or the post-footer body scripts.
Each of those groups is moved out of the document into a new wrapper
`<div class="...">`, serialised, joined with `PHP_EOL` and trimmed.

The project has five modules:

- `PhpStrings` (`php_strings.dfy`): PHP's `trim`, `explode` and `implode`, string offsets and truthiness, with their round-trip lemmas.
- `RootRelativeUrls` (`root_relative_urls.dfy`): the root-relative test, the per-candidate `srcset` rewrite (the image candidate strings of section 4.8.4.2 of the WHATWG HTML Living Standard), and the nine attribute rounds on one element's attributes.
- `HtmlDom` (`html_dom.dfy`): the parsed document.
  - It is a node arena `Dom` of kinds, attributes, child lists and parent links, and a child always has a smaller id than its parent.
  - Document order is the pre-order traversal.
  - It also holds `getElementsByTagName` and the mutations `setAttribute`, `removeChild`, `append` and `createElement`.
  - A `Document` class holds the arena, and the source's methods change it in place.
- `HtmlResponseSubscriber` (`html_response_subscriber.dfy`): `transformRootRelativeUrlsToAbsolute` and `emptyContent` as methods with the source's loops, each proved equal to a specification function. `onRespond` is a method proved equal to the dispatch function `Respond`.
- `HeaderFooterExtraction` (`header_footer_extraction.dfy`): the three XPath selections as document-order predicates. `createEmptyDiv`, `extractMarkup`, the three extractors, `prepareHeader` and `prepareFooter` are methods over a `Document`, each proved equal to a function.

`saveHtml` is a parameter: a `Serializer` holds one function for the whole
document and one for a node, each taking the node's tree. The model fixes
which tree is serialised, and how the resulting strings are joined and
trimmed.

## Model

| member | source | states |
|---|---|---|
| RootRelativeUrls.XPathSelectsRootRelative | src/EventSubscriber/HtmlResponseSubscriber.php:100 | the query `starts-with(@a,'/') and not(starts-with(@a,'//'))` holds exactly for values with one leading slash and no second one |
| RootRelativeUrls.CandidateIsRootRelative | src/EventSubscriber/HtmlResponseSubscriber.php:110 | the test `$c[0] === '/' && $c[1] !== '/'` holds exactly for root-relative candidates; a missing offset reads as "" |
| RootRelativeUrls.RootRelativeExamples | src/EventSubscriber/HtmlResponseSubscriber.php:100-112 | a lone `/` is rewritten; "", `//x`, `http://x` and `rel/x` are not; an empty candidate passes through unchanged |
| RootRelativeUrls.Candidates | src/EventSubscriber/HtmlResponseSubscriber.php:106-107 | splitting on `,` and trimming gives at least one candidate; each is trimmed and holds no comma |
| RootRelativeUrls.CandidatesOfRewritten | src/EventSubscriber/HtmlResponseSubscriber.php:106-114 | for a `SafeHost` host, re-splitting a rewritten `srcset` recovers exactly the rewritten candidates, so descriptors such as `1x` or `480w` stay with their URL |
| RootRelativeUrls.SrcsetIdempotent | src/EventSubscriber/HtmlResponseSubscriber.php:103-115 | rewriting a `srcset` value twice equals rewriting it once |
| RootRelativeUrls.SrcsetRepeated | src/EventSubscriber/HtmlResponseSubscriber.php:99-116 | running the `srcset` pass k >= 1 times equals running it once |
| RootRelativeUrls.RoundsVisited | src/EventSubscriber/HtmlResponseSubscriber.php:99-102 | over distinct attribute names, a visited attribute other than `srcset` is prefixed with the host exactly when root-relative |
| RootRelativeUrls.AbsolutizedUriAttribute | src/EventSubscriber/HtmlResponseSubscriber.php:93-102 | after the nine rounds each URL attribute other than `srcset` is `host + value` if root-relative, else unchanged |
| RootRelativeUrls.RoundsSrcset | src/EventSubscriber/HtmlResponseSubscriber.php:99-116 | for a `SafeHost` host, after any number of rounds, the first not being `srcset`, the `srcset` value is the once-rewritten original |
| RootRelativeUrls.AbsolutizedSrcset | src/EventSubscriber/HtmlResponseSubscriber.php:99-116 | for a `SafeHost` host, the nine `srcset` passes leave the value one pass leaves |
| RootRelativeUrls.AbsolutizeAttrsIdempotent | src/EventSubscriber/HtmlResponseSubscriber.php:99-116 | absolutising an element's attributes twice equals doing it once |
| RootRelativeUrls.Rounds | src/EventSubscriber/HtmlResponseSubscriber.php:99-116 | the rounds add or remove no attribute and leave unvisited attributes other than `srcset` unchanged |
| PhpStrings.Trim | src/EventSubscriber/HtmlResponseSubscriber.php:107 | `trim` leaves no trim character at either end and never lengthens |
| PhpStrings.ImplodeExplode | src/EventSubscriber/HtmlResponseSubscriber.php:106-114 | joining the pieces of `explode` with the separator gives back the string |
| PhpStrings.ExplodeImplode | src/EventSubscriber/HtmlResponseSubscriber.php:106-114 | splitting a join of separator-free pieces gives back the pieces |
| PhpStrings.TrimDropsLeadingTrimChars | src/HeaderFooterExtraction.php:49-50 | leading whitespace, such as the `PHP_EOL` after an empty part, never reaches the result of `trim` |
| PhpStrings.TrimDropsTrailingTrimChars | src/HeaderFooterExtraction.php:83-84 | trailing whitespace never reaches the result of `trim` |
| HtmlDom.DocOrderNoDup | src/EventSubscriber/HtmlResponseSubscriber.php:100 | document order visits each node at most once |
| HtmlDom.AncestorComesFirst | src/HeaderFooterExtraction.php:101 | in document order a node comes no later than any node of its subtree |
| HtmlDom.ElementsByTagName | src/EventSubscriber/HtmlResponseSubscriber.php:132 | `getElementsByTagName` lists exactly the document's elements with that name, each once |
| HtmlDom.ElementsInDocumentOrder | src/EventSubscriber/HtmlResponseSubscriber.php:132 | `getElementsByTagName` lists its elements in document order: entries i < j of the list sit at positions a < b of the document order |
| HtmlDom.FilterKeepsOrder | src/HeaderFooterExtraction.php:120 | filtering keeps the input's order: matches at i < j of the result come from positions a < b of the input |
| HtmlDom.FirstElementByTagName | src/EventSubscriber/HtmlResponseSubscriber.php:56-57 | `item(0)` is the first element with that name in document order |
| HtmlDom.First | src/EventSubscriber/HtmlResponseSubscriber.php:57 | `item(0)` is null exactly for an empty list, and otherwise its first node |
| HtmlDom.DetachChildRemoves | src/EventSubscriber/HtmlResponseSubscriber.php:144 | `removeChild` takes exactly that child out of the list and clears its parent; nothing else changes |
| HtmlDom.AppendChildMoves | src/HeaderFooterExtraction.php:127 | `append` makes the node the parent's last child, takes it out of its former parent's list, and changes no other list |
| HtmlDom.ToHtmlFrame | src/HeaderFooterExtraction.php:149-153 | `toHtml` reads only the subtree it serialises, the node's, or the document root's when the node is null: two documents that agree on that subtree give the same markup |
| HtmlDom.SetAttrChanges | src/EventSubscriber/HtmlResponseSubscriber.php:101 | `setAttribute` gives the attribute the new value on that node, adds it if missing, and changes no other attribute, node, child list or parent |
| HtmlDom.SetAttrCurrentValue | src/EventSubscriber/HtmlResponseSubscriber.php:101 | setting an attribute to the value it already has changes nothing |
| HtmlDom.Document.SetAttribute | src/EventSubscriber/HtmlResponseSubscriber.php:114 | the in-place `setAttribute` leaves the document `SetAttr` of the old one |
| HtmlDom.NewElementSubtree | src/HeaderFooterExtraction.php:138 | a created element is detached: every existing node's subtree is as before |
| HtmlDom.CreateElementKeepsMarkup | src/HeaderFooterExtraction.php:138 | `createElement` adds one parentless, childless element of that name as the last node, and changes neither the document's markup nor any existing node's |
| HtmlDom.Document.CreateElement | src/HeaderFooterExtraction.php:138 | the in-place `createElement` returns the new node's id and leaves the document `NewElement` of the old one |
| HtmlDom.Document.RemoveChild | src/EventSubscriber/HtmlResponseSubscriber.php:144 | the in-place `removeChild` leaves the document `DetachChild` of the old one |
| HtmlDom.Document.Append | src/HeaderFooterExtraction.php:127 | the in-place `append` leaves the document `AppendChild` of the old one |
| HtmlDom.SubtreeFrame | src/HeaderFooterExtraction.php:127-130 | a node's serialised subtree depends only on the nodes in it |
| HtmlResponseSubscriber.SelectRootRelative | src/EventSubscriber/HtmlResponseSubscriber.php:100 | the query selects exactly the document's elements whose value of the attribute is root-relative, each once |
| HtmlResponseSubscriber.SelectSrcset | src/EventSubscriber/HtmlResponseSubscriber.php:103 | `//*[@srcset]` selects exactly the document's elements with a `srcset`, each once |
| HtmlResponseSubscriber.AbsolutizedBy | src/EventSubscriber/HtmlResponseSubscriber.php:99-116 | only attribute values change; no attribute is added; unvisited attributes other than `srcset`, and nodes outside the document, stay as they were |
| HtmlResponseSubscriber.Absolutized | src/EventSubscriber/HtmlResponseSubscriber.php:89-119 | the transform changes no node kind, child list or parent link |
| HtmlResponseSubscriber.RoundStep | src/EventSubscriber/HtmlResponseSubscriber.php:99-116 | one outer iteration, the attribute loop and then the `srcset` loop, extends the visited prefix of the attribute list by one |
| HtmlResponseSubscriber.AbsolutizedUriAttr | src/EventSubscriber/HtmlResponseSubscriber.php:93-102 | every document element's URL attribute other than `srcset` ends as `host + value` exactly when root-relative |
| HtmlResponseSubscriber.AbsolutizedSrcsetAttr | src/EventSubscriber/HtmlResponseSubscriber.php:103-114 | for a `SafeHost` host, every document element's `srcset` ends rewritten as by one pass |
| HtmlResponseSubscriber.AbsolutizedIdempotent | src/EventSubscriber/HtmlResponseSubscriber.php:89-119 | absolutising an absolutised document changes nothing |
| HtmlResponseSubscriber.RewriteSrcset | src/EventSubscriber/HtmlResponseSubscriber.php:106-114 | the split, trim, per-candidate loop and join compute `SrcsetRewritten` |
| HtmlResponseSubscriber.AbsolutizeAttribute | src/EventSubscriber/HtmlResponseSubscriber.php:100-102 | the `setAttribute` loop over the query's snapshot rewrites each document element's attribute as one round does |
| HtmlResponseSubscriber.RewriteSrcsetAttributes | src/EventSubscriber/HtmlResponseSubscriber.php:103-115 | the `srcset` loop rewrites each document element's `srcset` once |
| HtmlResponseSubscriber.TransformRootRelativeUrlsToAbsolute | src/EventSubscriber/HtmlResponseSubscriber.php:89-119 | the nested loops leave the document `Absolutized`, and the same document object is returned |
| HtmlResponseSubscriber.VisibleMains | src/EventSubscriber/HtmlResponseSubscriber.php:132-133 | lists exactly the document's `<main>` elements without `hidden`, each once |
| HtmlResponseSubscriber.WithoutChildren | src/EventSubscriber/HtmlResponseSubscriber.php:139-145 | every node keeps its kind and attributes; the target has no children and every other node keeps its child list; exactly the target's former children lose their parent; the target serialises as an empty element |
| HtmlResponseSubscriber.EmptiedContentWithoutVisibleMain | src/EventSubscriber/HtmlResponseSubscriber.php:132-136 | without a visible `<main>` the document is unchanged |
| HtmlResponseSubscriber.EmptiedContentClearsFirstVisibleMain | src/EventSubscriber/HtmlResponseSubscriber.php:132-147 | otherwise the first visible `<main>` in document order, skipping hidden ones, is the one emptied |
| HtmlResponseSubscriber.EmptyContent | src/EventSubscriber/HtmlResponseSubscriber.php:130-148 | copying the child list and then removing each child leaves the document `EmptiedContent`, and the same document object is returned |
| HtmlResponseSubscriber.Respond | src/EventSubscriber/HtmlResponseSubscriber.php:41-43 | unless the response is HTML and the route is `localgov_moderngov.modern_gov`, the content is left unmodified, and otherwise it is replaced |
| HtmlResponseSubscriber.OnRespond | src/EventSubscriber/HtmlResponseSubscriber.php:32-68 | absolutise, then empty when `nocontent` is set, then serialise; the outcome is `Respond` |
| HtmlResponseSubscriber.RespondHeader | src/EventSubscriber/HtmlResponseSubscriber.php:55-58 | with `header`, whatever `footer` says, the first `<header>` of the processed document is serialised |
| HtmlResponseSubscriber.RespondFooter | src/EventSubscriber/HtmlResponseSubscriber.php:59-62 | with `footer` and without `header`, the first `<footer>` of the processed document is serialised |
| HtmlResponseSubscriber.RespondWholeDocument | src/EventSubscriber/HtmlResponseSubscriber.php:55-65 | with neither flag, or no such element (`item(0)` is null), the whole processed document is serialised |
| HeaderFooterExtraction.Select | src/HeaderFooterExtraction.php:120 | each query selects exactly the document's nodes its predicate holds for, each once, and only elements |
| HeaderFooterExtraction.SelectInDocumentOrder | src/HeaderFooterExtraction.php:120 | the selection keeps document order: matches at positions i < j of the list sit at positions a < b of the document order |
| HeaderFooterExtraction.DivAttrs | src/HeaderFooterExtraction.php:139-141 | the wrapper has a `class` attribute, equal to the name, exactly when the name is truthy (neither "" nor "0"), and no other attribute |
| HeaderFooterExtraction.CreateEmptyDiv | src/HeaderFooterExtraction.php:136-144 | a new parentless, childless `<div>` with those attributes becomes the last node; nothing else changes |
| HeaderFooterExtraction.MovedInto | src/HeaderFooterExtraction.php:126-128 | the appends change no node kind or attribute |
| HeaderFooterExtraction.MovedIntoShape | src/HeaderFooterExtraction.php:126-128 | after the appends the wrapper holds exactly the moved nodes in order; each has the wrapper as parent; every other child list only lost moved nodes |
| HeaderFooterExtraction.MoveInto | src/HeaderFooterExtraction.php:126-128 | the `foreach` of `append` calls computes `MovedInto` |
| HeaderFooterExtraction.ExtractMarkup | src/HeaderFooterExtraction.php:118-131 | the method computes `ExtractMarkupSpec`: markup and resulting document |
| HeaderFooterExtraction.ExtractMarkupNone | src/HeaderFooterExtraction.php:120-123 | a query that matches nothing yields "", not an empty wrapper, and the document is unchanged |
| HeaderFooterExtraction.ExtractMarkupMoves | src/HeaderFooterExtraction.php:118-131 | with matches, the wrapper is the new last node; it holds exactly the selected list, whose order `WrapperChildrenInDocumentOrder` gives; each has left its former parent for it; no other node gained a child |
| HeaderFooterExtraction.WrapperChildrenInDocumentOrder | src/HeaderFooterExtraction.php:120-128 | the wrapper's children come in the document order the matches had before the move |
| HeaderFooterExtraction.ExtractMarkupSerialises | src/HeaderFooterExtraction.php:118-131 | when no match contains another, the markup is that of a `<div>` with the wrapper's attributes whose children are the matches with their subtrees intact |
| HeaderFooterExtraction.HeadAssetsNotNested | src/HeaderFooterExtraction.php:93 | no head script or stylesheet link lies inside another, so each moves with its subtree intact |
| HeaderFooterExtraction.EnclosingHeaderIsNotFollowing | src/HeaderFooterExtraction.php:101 | a header containing a script does not count as following it; a script that every header contains stays put |
| HeaderFooterExtraction.ExtractHeadScriptsAndStyles | src/HeaderFooterExtraction.php:91-94 | extracts the head selection under the class `scripts-n-links` |
| HeaderFooterExtraction.ExtractPreHeaderScripts | src/HeaderFooterExtraction.php:99-102 | extracts the pre-header body scripts under the class `pre-header-body-scripts` |
| HeaderFooterExtraction.ExtractPostFooterScripts | src/HeaderFooterExtraction.php:107-110 | extracts the post-footer body scripts under the class `post-footer-body-scripts` |
| HeaderFooterExtraction.PrepareHeader | src/HeaderFooterExtraction.php:37-52 | the method computes `PrepareHeaderSpec`: fragment and resulting document |
| HeaderFooterExtraction.PrepareHeaderWithoutHeader | src/HeaderFooterExtraction.php:39-42 | without a `<header>` the result is "" and the document is unchanged |
| HeaderFooterExtraction.PrepareHeaderJoins | src/HeaderFooterExtraction.php:43-50 | the result is `trim(head . EOL . preHeader . EOL . header)`; the header is the first in document order, serialised before any node moves; the pre-header query sees the document left by the head extraction |
| HeaderFooterExtraction.PrepareHeaderOnlyHeader | src/HeaderFooterExtraction.php:46-50 | when neither selection matches, the result is just the trimmed first header |
| HeaderFooterExtraction.PrepareFooter | src/HeaderFooterExtraction.php:71-86 | the method computes `PrepareFooterSpec`: fragment and resulting document |
| HeaderFooterExtraction.PrepareFooterWithoutFooter | src/HeaderFooterExtraction.php:73-76 | without a `<footer>` the result is "" and the document is unchanged |
| HeaderFooterExtraction.PrepareFooterJoins | src/HeaderFooterExtraction.php:78-84 | the result is `trim(footer . EOL . postFooter)`, with the first footer in document order |
| HeaderFooterExtraction.PrepareFooterOnlyFooter | src/HeaderFooterExtraction.php:81-84 | without post-footer scripts the result is just the trimmed first footer |

The selections are defined in `HeaderFooterExtraction` as follows:

- `IsHeadAsset` is `/html/head/script | /html/head/link[@rel="stylesheet"]`: element children of a `<head>` child of an `<html>` child of the document node. The `rel` value must equal `stylesheet` exactly.
- `HasFollowingHeader` is XPath's `following::header`: a `<header>` later in document order that is not a descendant.
- `HasPrecedingFooter` is XPath's `preceding::footer`: a `<footer>` earlier in document order that is not an ancestor.
- `InHtmlBody` is being strictly below a `<body>` child of such an `<html>`.

## Where the code, not the prose description, was followed

Each of these follows `src/HeaderFooterExtraction.php`:

- Pre-header scripts are those with some `<header>` after them, not those before the first `<header>` (line 101). So a script inside the first header is also extracted when a later `<header>` exists. That header's markup is taken before the move (line 43), so the script then appears twice in the fragment.
- Head assets are direct children of `<head>` (line 93), not scripts at any depth under it.
- The parts are joined with a single `PHP_EOL` (lines 49 and 83), not a blank line. `PHP_EOL` is modelled as "\n".

When the subscriber gets a `header` request it serialises only the first `<header>`. It does not call `HeaderFooterExtraction` (`src/EventSubscriber/HtmlResponseSubscriber.php:55-58`).

## Left out

- `toDom` (`loadHTML` with warnings suppressed) is not modelled: the parsed document is an input. The rules of libxml's lenient HTML parser are foreign code.
- `saveHtml` output formatting is not modelled: serialisation is the abstract `Serializer` parameter, a function of the node's tree.
- The XPath engine is not modelled: the five queries are written as document-order predicates.
- `getSubscribedEvents` is framework event registration with no logic.
- Request, response and event objects, `getSchemeAndHttpHost` and `setContent` are framework plumbing. They become the `Request` value, the `isHtml` flag, the host string and the `Outcome` the model returns.
- `src/Constants.php` and `tests/src/Functional/PageTest.php` are not part of this model: two string constants and a browser test.
- Node ids: a child always has a smaller id than its parent. Every operation of the core keeps this, because nodes are only ever appended into a freshly created wrapper. An `append` into an older node is not modelled.
- SrcsetIdempotent: assumes `SafeHost`, a stronger assumption than "the host does not start with a single /". The host also has no comma, and does not start with a trim character. Otherwise a second pass would split or trim the host, which no real scheme-and-host does.
- SrcsetRepeated: assumes `SafeHost`, for the same reason.
- AbsolutizeAttrsIdempotent: assumes `SafeHost`, for the same reason.
- AbsolutizedIdempotent: assumes `SafeHost`, for the same reason.
- CandidatesOfRewritten: assumes `SafeHost`, for the same reason.
- RoundsSrcset: assumes `SafeHost`, for the same reason.
- AbsolutizedSrcset: assumes `SafeHost`, for the same reason.
- AbsolutizedSrcsetAttr: assumes `SafeHost`, for the same reason.
- ExtractMarkupSerialises: assumes that no match lies inside another match. `HeadAssetsNotNested` proves this for the head selection. For body scripts it is a hypothesis: a parsed `<script>` holds only text, but the model's trees do not enforce that.
- PHP strings are byte strings, and the model uses sequences of `char`. The code splits and tests only on the ASCII characters `,`, `/` and whitespace, so the model behaves the same on them.
- Attribute order is not modelled: a node's attributes, like `Tree.attrs`, are a map. Only `saveHtml` output could show the order, and that output is abstract here.
- Integer widths, PHP warnings and the libxml error state are not modelled. None of the modelled operations depends on them.
