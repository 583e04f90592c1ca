# Wiki page cleaner and prompt builder, modelled in Dafny

The repository turns saved Wikipedia pages into text for a retrieval pipeline and, at query
time, builds a prompt from the retrieved chunks. This project models the two pieces of that
pipeline that are the repository's own logic.

- **`clean_html_file`** (`parse_html.py`, lines 5-46) rewrites the parsed page tree in four steps:
  - **Root isolation.** The `<body>` keeps only the `div#mw-content-text` subtree.
  - **Clutter removal.** It decomposes every element matched by `.navbox`, `.printfooter`,
    `.toc`, `.mw-editsection` or `.mw-parser-output .hlist`.
  - **Junk removal.** It extracts every text node that contains `wiki.`, `Retrieved from` or
    `In other languages:`.
  - **"See also" removal.** A sibling walk starts at the `h2` that holds `span#See_also`. It
    removes the heading and the elements after it, up to the next sibling whose tag name starts
    with "h". The last element before that sibling stays (see Findings).
- **The prompt loop** of `query_with_context.py` (lines 16-19) builds the prompt: a fixed
  preamble, one `[Source i]` block per retrieved chunk, then the question.

The files:

- **`dom.dfy`** (module `Dom`) holds the parsed tree.
  - A forest of `Element(name, id, classes, children)` and `Text(text)` nodes, addressed by
    index paths.
  - `Find`, BeautifulSoup's `find`: the first match in document order.
  - `NearestAncestor`, which is `find_parent`.
  - Tree edits: clear the children, append, detach.
  - `Prune`: decompose every node a rule picks. Its exact effect is stated on the flattened
    document-order view (`Flatten`, `Survivors`).
- **`seealso.dfy`** (module `SeeAlso`) is the "See also" walk on one sibling list.
  - `WalkSeeAlso` is the loop, written as a method.
  - It is proved equal to the closed form `SeeAlsoSiblings`, and lemmas say what that form keeps
    and removes.
  - It also holds the corrected definition for the finding below.
- **`cleaner.dfy`** (module `Cleaner`) has class `Page`, whose field `nodes` is the parsed
  document.
  - There is one method per step, and `Clean` runs all four.
  - Each method is proved against a function of the old tree (`Isolated`, `Decluttered`,
    `Dejunked`, `WithoutSeeAlso`, `Cleaned`).
  - Lemmas state what those functions remove and keep.
- **`prompt.dfy`** (module `Prompt`) has the method `BuildPrompt`, proved equal to the pure
  `Render`, with lemmas on the block structure and the decimal numbering.

## Model

| member | source | states |
|---|---|---|
| Dom.Find | parse_html.py:10 | a reported match is a valid path to a node that satisfies the test |
| Dom.FindNone | parse_html.py:10-11 | when `find` reports nothing, no node of the tree satisfies the test |
| Dom.FindFirst | parse_html.py:10 | no node before the reported one in document order satisfies the test (first match) |
| Dom.NearestAncestor | parse_html.py:34 | `find_parent("h2")`: the reported prefix is an `h2` ancestor, none between it and the node is one, and when nothing is reported no ancestor is an `h2` |
| Dom.WithChildrenAt | parse_html.py:12-13 | after replacing an element's children, that element has exactly the new children and keeps name, id and classes |
| Dom.WithChildrenDisjoint | parse_html.py:12 | clearing the body leaves every node outside it, and not above it, unchanged at the same path |
| Dom.RemoveAtShift | parse_html.py:13 | detaching the content root leaves every node disjoint from it intact, at its shifted path |
| Dom.SiblingListAt | parse_html.py:36-38 | the node at a path is an entry of its parent's sibling list, the list the walk moves along |
| Dom.PruneFlatten | parse_html.py:20-21 | decomposing the picked nodes removes exactly those nodes and everything below them; the rest stays in document order with the same ancestry |
| Dom.PruneTwice | parse_html.py:16-21 | two decompose passes equal one pass with the union of the two rules |
| Cleaner.Isolated | parse_html.py:10-13 | no content root leaves the page unchanged; an error happens only when a root exists; it is `NoBody` exactly when a root exists and no body does |
| Cleaner.IsolatedBody | parse_html.py:10-13 | after isolation the body is still there, with its name, id and classes, and its only child is the whole content-root subtree |
| Cleaner.Page.IsolateContent | parse_html.py:10-13 | the new tree is `Isolated(old tree)`; on failure the failure is reported and the tree is unchanged |
| Cleaner.DeclutteredExact | parse_html.py:16-21 | clutter removal keeps exactly the nodes that no clutter selector matches and that are not below a match, in order and with their ancestry |
| Cleaner.NoClutterLeft | parse_html.py:16-21 | after clutter removal no element has class navbox, printfooter, toc or mw-editsection, and no `hlist` element lies below a `mw-parser-output` element |
| Cleaner.Page.RemoveClutter | parse_html.py:16-21 | the per-selector loop ends in `Decluttered(old tree)`, the single pass with all five selectors |
| Cleaner.ContainsOccurs | parse_html.py:25-27 | `sub in s` holds exactly when `sub` occurs at some position of `s` |
| Cleaner.DejunkedExact | parse_html.py:24-29 | junk removal keeps every node in order and with its ancestry, except that it removes each text node holding a junk marker, and removes only those |
| Cleaner.DejunkedText | parse_html.py:24-29 | no surviving text holds any of the three markers at any position |
| Cleaner.Page.RemoveJunkStrings | parse_html.py:24-29 | the new tree is `Dejunked(old tree)` |
| Cleaner.SeeAlsoHeading | parse_html.py:32-35 | a reported heading is a valid path to an `h2` element |
| Cleaner.WithoutSeeAlso | parse_html.py:32-43 | with no span or no `h2` ancestor the page is unchanged; otherwise the heading's sibling list is replaced by what the walk leaves |
| Cleaner.WithoutSeeAlsoFrame | parse_html.py:36-43 | every node outside the heading's sibling list, and not above it, is unchanged at the same path |
| Cleaner.SeeAlsoStep | parse_html.py:32-43 | in the heading's sibling list, nodes before the heading are untouched, every text node stays, and fewer elements remain |
| Cleaner.Page.RemoveSeeAlso | parse_html.py:32-43 | the new tree is `WithoutSeeAlso(old tree)`, computed by running the walk on the sibling list |
| Cleaner.Page.Clean | parse_html.py:9-43 | the four steps in order give `Cleaned(old tree)`; if isolation fails, the failure is reported and the tree is unchanged |
| SeeAlso.NextElementSkipsTexts | parse_html.py:38 | `find_next_sibling()` skips only text nodes, so everything between the cursor and the reported sibling is text |
| SeeAlso.StopIndex | parse_html.py:39-40 | the walk stops at the first element after the heading whose name starts with "h"; no element before it qualifies, and with none, no element after the heading qualifies |
| SeeAlso.WalkSeeAlso | parse_html.py:36-43 | the loop and the final decompose leave exactly `SeeAlsoSiblings(s, h)` |
| SeeAlso.SeeAlsoKeepsTexts | parse_html.py:36-43 | the walk never removes a text sibling |
| SeeAlso.SeeAlsoKeepsElements | parse_html.py:36-43 | the elements left are those before the heading. With no stopping element nothing else remains. With one at m, the elements from m on remain, and so does the last element before m unless that is the heading. The nodes before the heading are untouched |
| SeeAlso.SeeAlsoDropsHeading | parse_html.py:41-43 | at least one element, the heading, is removed: fewer elements remain than before |
| SeeAlso.SeeAlsoOnlyRemoves | parse_html.py:36-43 | every node left is one of the original siblings |
| SeeAlso.SeeAlsoKeepsLastList | parse_html.py:37-42 | on `[h2 See also, ul, h2 References]` the walk leaves `[ul, h2 References]` |
| SeeAlso.SectionDroppedKeeps | parse_html.py:31-43 | the corrected removal leaves the text siblings, the nodes before the heading, and only the elements before the heading and from the stopping element on |
| SeeAlso.SectionDroppedDropsList | parse_html.py:31-43 | on the same page the corrected removal leaves only `[h2 References]` |
| Prompt.Decimal | query_with_context.py:18 | `str(i+1)` is a non-empty run of digits with no leading zero |
| Prompt.DecimalRoundTrip | query_with_context.py:18 | reading the numeral back gives the number, so block labels carry exactly i + 1 |
| Prompt.BlocksSnoc | query_with_context.py:17-18 | one more result appends one block, numbered after the others |
| Prompt.BlocksAppend | query_with_context.py:17-18 | splitting the results splits the blocks, and numbering continues across the cut |
| Prompt.BlockAt | query_with_context.py:16-19 | result i appears as the block labelled i + 1. It follows the preamble and the blocks of results 0..i-1, and comes before the blocks of the later results and the question |
| Prompt.RenderShape | query_with_context.py:16-19 | the prompt starts with the preamble and ends with the question part; with no results the two are adjacent |
| Prompt.BuildPrompt | query_with_context.py:16-19 | the string built by the loop equals `Render(results, query)` |

## Left out

- **File and directory I/O.** Reading and writing the files (`parse_html.py`, lines 6-7 and
  45-46) and the directory walk of the main script (lines 48-69) are I/O.
- **Parsing and serialisation.** The HTML parser and `str(soup)` are a foreign library; the
  model starts and ends at the tree.
- **`partition_html` and the join at line 63.** Both sit in a foreign library's output.
- **Attributes and special nodes.** Only the tag name, `id` and `class` are kept. Comments,
  doctypes and CDATA are not told apart from text nodes.
- **The CSS selector engine.** It is not modelled. The five selectors are predicates on a
  node's classes and its ancestors' classes (`Cleaner.Selector`).
- **Cleaner.Page.RemoveClutter:** the inner `for tag in soup.select(...)` loop is one `Prune`
  step per selector. The order in which the matched tags of one selector are decomposed is not
  modelled. Since `select` collects every match before any decompose, that order does not
  change the result.
- **Cleaner.Page.RemoveJunkStrings:** the `find_all` / `extract` loop is one `Prune` step, for
  the same reason.
- **Cleaner.Isolated:**
  - With a content root but no body, the source raises at line 12 before changing anything.
    The model returns `Err(NoBody)` and the tree is unchanged.
  - A body nested inside the content root would make the source append an element into its
    own descendant. That case is reported as `Err(BodyInsideContent)` and not modelled further.
- **Cleaner.IsolatedBody:** states where the body is and what it holds afterwards. It does not
  state that nodes outside the body keep their places. `Dom.WithChildrenDisjoint` and
  `Dom.RemoveAtShift` state that per edit.
- **`query_with_context.py` outside the prompt.** These parts are foreign services or I/O:
  - the embedding model, the Chroma store, `similarity_search` and its ranking, the `top_k`
    bound, `input()` and the printing (lines 1-14 and 21-24).
  - The results are a sequence of `page_content` strings given to `BuildPrompt`.
- **`embed_documents.py`** (chunking, embedding, persisting) is not part of this model.

## Findings

| source | as written | input that shows it | evidently intended | confidence | as-written member | corrected member |
|---|---|---|---|---|---|---|
| parse_html.py:37-42 | the loop tests the next sibling before it decomposes `current`. When that sibling is a heading it breaks, so the element just before the next heading is never decomposed | siblings `h2` (holding `span#See_also`), `ul`, `h2` (References): the `ul` remains | remove the entire section, everything from the heading up to the next heading (comment at line 31) | high; not executed | SeeAlso.SeeAlsoKeepsLastList | SeeAlso.SectionDroppedKeeps |

The corrected definition is `SeeAlso.SectionDropped`. `SeeAlso.SectionDroppedKeeps` proves that
no element of the section survives, and `SeeAlso.SectionDroppedDropsList` shows the same page
without the list. `Cleaner.Page` follows the code as written (`SeeAlso.WalkSeeAlso`), because
the model describes what the cleaner does to a page.
