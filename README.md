# Markdown sectioning helpers of the D&D 2024 platform library

The rules library turns System Reference Document markdown into typed
records. Its shared parser helpers (`library/src/parsers/shared.ts`) do two
things that this project models and proves properties of:

- `splitByHeading` walks the top-level children of a parsed markdown
  document. Each heading whose depth equals the requested level opens a
  section, and the section's heading is the heading's trimmed plain text.
  Each other node is appended to the open section. Nodes before the first
  such heading are dropped. The last open section is pushed after the loop.
- `isPageNumberLine` recognises page footers such as
  "104 System Reference Document 5.2.1". It trims the line and tests it
  against `^\d+\s+System Reference Document`.

Modules:

- `JsText` (`js_text.dfy`) holds the ECMAScript string semantics these
  helpers use. The whitespace set is WhiteSpace plus LineTerminator, which
  is the same set for `String.prototype.trim` and for `\s`. `\d` means ASCII
  digits only. `Trim` is defined by two index scans.
- `Mdast` (`mdast.dfy`) holds the top-level mdast nodes and `NodeText`.
- `Sectioning` (`sectioning.dfy`) holds the loop of `splitByHeading` as the
  method `SplitByHeading`. The method is proved equal to `Sections`, a
  reference definition that cuts the nodes front to back at each split
  point (`CutsFrom`) and then renders each heading node with `NodeText`.
  The properties of the result are lemmas about `Sections`.
- `PageNumber` (`page_number.dfy`) holds `isPageNumberLine`. The regular
  expression is run as a greedy scan: digits, then whitespace, then the
  marker. A lemma proves the scan equivalent to the declarative statement
  of the pattern (`MatchAt`).

The doc comment of `splitByHeading` (shared.ts:17-21) says a section runs
up to "the next heading of equal or lesser depth". The code ends a section
only at a heading whose depth equals the level (shared.ts:30). A shallower
heading therefore becomes a child of the open section. The model follows the
code: `ChildrenAreNotSplitPoints` and the example `OtherDepthsDoNotSplit`
state this behaviour.

## Model

| member | source | states |
|---|---|---|
| `Sectioning.SplitByHeading` | library/src/parsers/shared.ts:22-45 | The loop returns exactly `Sections(root.children, level)`, one section per heading of the requested depth. The invariant is that the pushed sections plus the open one are the sections of the nodes seen so far. |
| `Sectioning.SectionsUpToExtend` | library/src/parsers/shared.ts:29-37 | One more node: a heading of the requested depth appends a new section with no children. Any other node joins the open section, or is dropped when none is open. |
| `Sectioning.TrailingHeadingKept` | library/src/parsers/shared.ts:40-42 | A matching heading that is the last node still yields a final section, and that section has no children. |
| `Sectioning.SectionCount` | library/src/parsers/shared.ts:29-42 | The number of sections equals the number of headings whose depth equals the level. |
| `Sectioning.NoSplitPointNoSections` | library/src/parsers/shared.ts:26-44 | The result is empty if and only if no top-level node is a heading of the requested depth. |
| `Sectioning.SectionHeadings` | library/src/parsers/shared.ts:30-34 | Section m's heading is `nodeText` of the m-th heading of the requested depth, in document order. |
| `Sectioning.ChildrenAreNotSplitPoints` | library/src/parsers/shared.ts:30-36 | No section's children contain a heading of the requested depth. Headings of any other depth never start a section. |
| `Sectioning.FlattenRestoresSuffix` | library/src/parsers/shared.ts:29-38 | Each heading node followed by its section's children, section after section, gives back the input from the first matching heading onward. Nothing after that point is lost, duplicated or reordered. |
| `Sectioning.LeadingNodesDropped` | library/src/parsers/shared.ts:35 | Prepending nodes that are not headings of the requested depth leaves the result unchanged. |
| `Sectioning.OtherDepthsDoNotSplit` | library/src/parsers/shared.ts:17-30 | Example at level 2: a leading paragraph is dropped, and a level-3 and a level-1 heading both become children of the level-2 section. |
| `Mdast.NodeText` | library/src/parsers/shared.ts:13-15 | The node's text with surrounding whitespace removed. It is no longer than the text and neither starts nor ends with whitespace. |
| `JsText.Trim` | library/src/parsers/shared.ts:14 | `trim` returns a result no longer than its input that neither starts nor ends with whitespace. |
| `JsText.TrimIsInfix` | library/src/parsers/shared.ts:14 | `trim` keeps a contiguous infix and removes only whitespace before and after it. |
| `JsText.TrimStripsSurrounding` | library/src/parsers/shared.ts:52 | `trim` of whitespace, a core and whitespace is exactly the core, when the core neither starts nor ends with whitespace. |
| `JsText.TrimIdempotent` | library/src/parsers/shared.ts:52 | Trimming twice is trimming once. |
| `PageNumber.MatchesPageNumberIff` | library/src/parsers/shared.ts:52 | The greedy scan accepts a string if and only if it has one or more ASCII digits from the start, then one or more whitespace characters, then "System Reference Document". |
| `PageNumber.IsPageNumberLineIff` | library/src/parsers/shared.ts:51-53 | A line is a page-number line if and only if its trimmed form matches that pattern. Anything may follow the marker. |
| `PageNumber.IsPageNumberLineTrimInvariant` | library/src/parsers/shared.ts:52 | Surrounding whitespace never changes the answer: the answer for `trim(s)` is the answer for `s`. |
| `PageNumber.MatchesAfterNumber` | library/src/parsers/shared.ts:52 | After digits and whitespace, a match happens exactly when the rest starts with the marker. A line that ends right after the whitespace does not match. |
| `PageNumber.FooterIsPageNumberLine` | library/src/parsers/shared.ts:47-50 | The footer from the doc comment, "104 System Reference Document 5.2.1", is a page-number line. |
| `PageNumber.IndentedFooterIsPageNumberLine` | library/src/parsers/shared.ts:52 | An indented footer with a tab separator is accepted. |
| `PageNumber.NumberMustComeFirst` | library/src/parsers/shared.ts:52 | Rejected: the marker followed by the number, and a word before the number. The pattern is anchored at the start. |
| `PageNumber.SeparatorRequired` | library/src/parsers/shared.ts:52 | Rejected: a number directly followed by the marker. |
| `PageNumber.MarkerIsCaseSensitive` | library/src/parsers/shared.ts:52 | Rejected: the marker in lower case. |

## Left out

- `parseMarkdown` (shared.ts:7-10) calls the `unified`/`remark-parse` markdown parser, a foreign library. The model starts from the parsed root's top-level children.
- `Mdast.NodeText` does not model mdast-util-to-string. A node carries its plain text as the `text` field, and `NodeText` trims that text.
- Mdast nodes are reduced to what `splitByHeading` inspects: whether a node is a heading, a heading's depth, and the plain text. Which kind a non-heading block is, nested children and positions are not modelled.
- JavaScript strings are UTF-16 code units, and Dafny strings are Unicode scalar values. Every whitespace and digit character involved lies in the Basic Multilingual Plane, so the answers agree. Lone surrogates cannot be represented.
- `current.children.push` mutates the open section in place. The model rebuilds the open section as a value. This is exact because a section is never changed after it is pushed and no other reference to it exists.
- `parseSpells` (library/src/parsers/spells.ts) is a stub that returns an empty list, and its test is not part of this model. The engine entry point, the type declarations, the app router and the package re-exports contain no logic of this core.
