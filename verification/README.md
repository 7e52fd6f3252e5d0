# Card rendering and agent-output post-processing, in Dafny

This project models two pure pieces of the Satyarthi news-analysis scripts.

- **The card page of `convert_markdown_to_html_cards` and `truncate_html_content` (paste.py).**
  - A converted markdown document is a sequence of top-level siblings: tags and bare strings.
  - Each `h2` opens a card. The card's content is every named tag after the `h2`, except `h1`, up to the next `h2`.
  - A section whose text is longer than the character budget is shown truncated, with a "See More" button naming a modal that holds the whole section.
  - Truncation works on the ordered text nodes:
    1. A running count picks the cut node.
    2. The cut node is shortened at a late sentence end or at the last space, and "..." is appended.
    3. Every later text node is removed.
    4. Blank tags are dropped.
    5. The last paragraph is made to end in "...".
- **`json_callback` (initial.py).**
  - The agent output is searched for a brace-delimited span, which is handed to a JSON parser.
  - The keys of the parsed object are normalised to `agent_<i>` or `task_<i>`.
  - The file content is one of three things: the raw output, the raw span, or the normalised object.

## Modules

- **`Wrappers`, `Strings`** (`strings.dfy`): `Option`, prefixes, `find`/`rfind`, and `str(n)` for naturals with its round trip.
- **`Html`** (`html.dfy`): a block is a tag name with the text nodes of its subtree. `TextOf` is `get_text()`.
- **`Sections`** (`sections.dfy`): the sibling walk after an `h2`, and the partition of a document into sections.
- **`Truncate`** (`truncate.dfy`): `truncate_html_content`. It includes the scan loop as a method with its prefix-sum invariant.
- **`Cards`** (`cards.dfy`): the page of cards and modals. It covers ids, button/modal pairing and the title.
- **`Normalise`** (`normalise.dfy`): a Python dict as an ordered list of distinct keys, dict assignment, and the key normalisation.
- **`Callback`** (`callback.dfy`): the regex search, the parse fallback and the saved content.

## How the code behaves at the edges

- **Text length of a truncated card.** The final text can exceed the budget by six characters (paste.py:700, 727).
  - The cut adds "..." to the cut node (paste.py:700).
  - The ending rule then adds a second "..." to the last paragraph when that paragraph comes before the block holding the cut node and its text is non-empty and does not already end in "..." (paste.py:725-727).
  - `Truncate.TruncatedLength` proves the bound of six. `Truncate.TwoEllipses` shows that the bound is reached.
  - The docstring at paste.py:645 speaks of a result truncated to `char_limit`; the model follows the code.
- **Sentence cut threshold.** The sentence test is strict: the terminator index must exceed half the slice length (paste.py:691).
- **Where the scan stops.** The scan stops at the first node at which the running count plus the node's length reaches the budget (`>=`, paste.py:666).
- **Budgets of zero or less.** With such a budget, the code takes the branch that removes the cut node (paste.py:706-710). The whole text then disappears (`Truncate.NonPositiveLimitEmpties`).

## Model

| member | source | states |
|---|---|---|
| Strings.RFind | paste.py:686-688 | `str.rfind`: the result is -1 or an index holding the character, and no later index holds it |
| Strings.NatToStringRoundTrip | paste.py:512-513 | the decimal rendering of a natural reads back as the same number |
| Strings.NumberedNameInjective | paste.py:512-513 | two names built as prefix plus number are equal only when the numbers are |
| Sections.Collect | paste.py:539-540 | keeps exactly the named tags other than `h1`, in order, and nothing else |
| Sections.WalkEnd | paste.py:536-538 | the walk stops at the first `h2` or empty bare string after its start, and at no sibling before that |
| Sections.Walk | paste.py:535-541 | the sibling loop collects exactly the kept siblings between its start and where it stops |
| Sections.HeadingsFrom | paste.py:32 | the `h2` positions, strictly increasing, each an `h2`, none missing |
| Sections.NextHeading | paste.py:536-538 | without empty strings, the walk after the k-th `h2` ends at the next `h2`, or at the end of the document |
| Sections.SectionsPartitionFrom | paste.py:535-541 | without empty strings, the kept tags from the k-th `h2` on are exactly each heading followed by its section, in order |
| Sections.SectionsPartition | paste.py:32 | the same, from the first `h2` on |
| Cards.FirstH1From | paste.py:28 | the first `h1` at or after a position, or -1 when there is none |
| Cards.Title | paste.py:28-29 | the title is the text of the first `h1`, or "News Analysis" when there is no `h1` |
| Cards.CardFor | paste.py:512-606 | the card of the k-th heading: id `card-k`, which no other section's card has, the heading's text, a button naming `modal-k` exactly when the section is long, truncated content then and the full section otherwise |
| Cards.ModalFor | paste.py:574-599 | the modal of the k-th heading: id `modal-k`, which no other section's modal has, the heading's text and the full, untruncated section |
| Cards.CardIdOwn | paste.py:512 | the card id of a section belongs to no other section |
| Cards.ModalIdOwn | paste.py:513 | the modal id of a section belongs to no other section |
| Cards.Render | paste.py:511-606 | one card per `h2`, in order, with id `card-k` and the heading's text; a button exactly when the section text is longer than the budget, naming `modal-k`; truncated content on long cards and full content on short ones; no more modals than cards |
| Cards.CardIdsUnique | paste.py:512 | no two cards share an id |
| Cards.ModalIdsUnique | paste.py:513 | no two modals share an id |
| Cards.SeeMoreResolves | paste.py:552-602 | a long card's button names exactly one modal, which has the card's heading and the section's full content |
| Cards.EveryModalReferenced | paste.py:566-602 | every modal is named by some card's button |
| Cards.CardIdInjective | paste.py:512 | different section numbers give different card ids |
| Cards.ModalIdInjective | paste.py:513 | different section numbers give different modal ids |
| Cards.SeeMoreDistinct | paste.py:513-566 | no two cards' buttons name the same modal, so the card naming a modal is unique |
| Cards.CardTextBound | paste.py:552-558 | with a non-negative budget, a card shows at most the budget plus two "..." of text |
| Truncate.CutFrom | paste.py:665-669 | the first node from a position on at which the running count reaches the budget, and none earlier reaches it |
| Truncate.CutAt | paste.py:665-669 | the cut node is the first at which the running count reaches the budget |
| Truncate.FindCut | paste.py:662-670 | the scan loop returns the cut node, with `char_count` the length of the text before it, or -1 and the whole length when there is none |
| Truncate.CutFound | paste.py:652-670 | with a non-negative budget, or at least one text node, a text longer than the budget has a cut node |
| Truncate.RemainingInRange | paste.py:673-677 | for a positive budget below the text length, `remaining_chars` lies in 1..budget and within the cut node |
| Truncate.NonPositiveLimitCutsFirst | paste.py:706-710 | with a budget of zero or less, the first node is cut and nothing of it remains |
| Truncate.LastTerminator | paste.py:685-689 | the last `.`, `!` or `?` of the slice, or -1, with none after it |
| Truncate.ChooseCut | paste.py:682-697 | the kept text is a prefix of the slice. With a terminator past the middle, it ends at the last terminator. Otherwise, with a space after the first character, it ends just before the last space. Otherwise it is the whole slice |
| Truncate.PlanCut | paste.py:673-700 | no cut node means no change; otherwise the cut node is dropped exactly when the text before it already reaches the budget, and is otherwise replaced by a prefix of it plus "...", keeping the text before it within the budget |
| Truncate.PlanCutKeeps | paste.py:673-700 | a replacement is `ChooseCut` of the part of the cut node that fits in the remaining budget (between one character and the whole node), followed by "..." |
| Truncate.ReplacePlan | paste.py:673-700 | with a positive budget below the text length, some node is replaced by a prefix of it plus "...", and the text before it plus that prefix fits the budget |
| Truncate.Emptied | paste.py:707-710 | every tag stays and every text node goes |
| Truncate.CutBlocks | paste.py:700-705 | every tag stays; the text nodes are those before the cut node followed by the replacement, and later ones are gone |
| Truncate.CutBlocksPlaces | paste.py:700-705 | block by block: a block whose text nodes all come before the cut node is unchanged, a block whose nodes all come after it keeps its tag and loses its text, and the block holding the cut node keeps the nodes before it followed by the replacement |
| Truncate.ApplyPlan | paste.py:700-710 | no cut node leaves the fragment as it is; otherwise every tag stays and the text nodes become those before the cut node, followed by the shortened node when it is replaced |
| Truncate.Blank | paste.py:714 | a block is blank when every character of its text nodes is whitespace in the sense of Python's `str.isspace` |
| Truncate.BlankIffStripped | paste.py:714 | a block is blank exactly when its text with leading whitespace stripped is empty, which is when `get_text(strip=True)` is empty |
| Truncate.Cleanup | paste.py:712-718 | only blocks of the input remain, every non-blank block remains, a paragraph remains when there was one, and a blank block remains only when it is `br`, `hr` or `img` or a `p` with no `p` before it |
| Truncate.CleanupPositions | paste.py:712-718 | the result is the input taken at strictly increasing positions, and a position is kept exactly when its block is non-blank, a void tag, or the first `p` |
| Truncate.CleanupShortens | paste.py:712-718 | dropping blank tags never lengthens the text |
| Truncate.CleanupKeepsNonBlank | paste.py:713-714 | a fragment without blank tags is unchanged |
| Truncate.LastParagraph | paste.py:721-723 | the position of the last `p`, with no `p` after it, or -1 |
| Truncate.Ending | paste.py:720-727 | only the last paragraph can change, by becoming one text node that gains "..." when its text is non-empty and does not end in "..."; afterwards it is empty or ends in "..."; a fragment already ending so is unchanged |
| Truncate.EndingIdempotent | paste.py:721-727 | applying the ending rule twice equals applying it once |
| Truncate.EndingLength | paste.py:721-727 | the ending rule adds at most three characters, and leaves a fragment without text unchanged |
| Truncate.TruncateHtml | paste.py:647-729 | a fragment within the budget comes back unchanged; otherwise no block is added, a paragraph survives when there was one, and the last paragraph is empty or ends in "..." |
| Truncate.PositiveLimitReplaces | paste.py:673-700 | with a positive budget below the text length, the cut node is replaced, never dropped |
| Truncate.CutStageText | paste.py:673-705 | with a positive budget below the text length, after the cut the text is a prefix of the original text of at most the budget, followed by "..." |
| Truncate.TruncatedLength | paste.py:654-727 | with a non-negative budget, the result's text is at most the budget plus six characters |
| Truncate.NonPositiveLimitEmpties | paste.py:706-710 | with a budget of zero or less, a longer fragment loses all its text |
| Truncate.TwoEllipses | paste.py:700-727 | a paragraph followed by a longer list, under budget 10, ends with "..." in both blocks, reaching the budget plus six |
| Normalise.IndexOf | initial.py:61 | the position of a key, or -1 when no entry has it |
| Normalise.Put | initial.py:61 | dict assignment: an existing key keeps its position, a new key goes last, keys stay distinct, the key maps to the new value, and every other key keeps its value |
| Normalise.RenameKey | initial.py:57-60 | the stored key always starts with the prefix, a key that already does is kept, and any other key becomes longer than the prefix |
| Normalise.RenameKeyNumbered | initial.py:57-60 | a key without the prefix becomes the prefix followed by decimal digits whose value is the entry's 1-based position |
| Normalise.UnprefixedKeysDistinct | initial.py:55-60 | two entries without the prefix never receive the same key |
| Normalise.Normalize | initial.py:53-62 | the output keys are distinct and all carry the prefix, and there are no more entries than in the input |
| Normalise.FirstIndex | initial.py:61 | the position of the first occurrence of an element |
| Normalise.Dedup | initial.py:61 | the first occurrences of a sequence: the same elements, no repeats, ordered by where each first occurs |
| Normalise.NormalizeKeyOrder | initial.py:55-61 | the output keys are the renamed keys in order of first insertion |
| Normalise.NormalizeLookupLast | initial.py:55-61 | the renamed key of entry i holds its value when no later entry is renamed to the same key |
| Normalise.NormalizeLookupAbsent | initial.py:55-61 | a key no entry is renamed to is absent from the output |
| Normalise.NormalizeLookup | initial.py:55-61 | each output key holds the value of the last entry renamed to it, and no other key is present |
| Normalise.PrefixedKeyKept | initial.py:57-61 | an entry whose key already has the prefix is stored under that key with its value, unless a later entry is renamed onto it |
| Normalise.NormalizeIdentity | initial.py:57-61 | distinct keys that all carry the prefix come back unchanged |
| Normalise.NormalizeIdempotent | initial.py:53-62 | normalising twice equals normalising once |
| Normalise.NormalizeNoCollision | initial.py:55-61 | without collisions, entry i is kept in place with its value under its renamed key |
| Normalise.CollisionExample | initial.py:55-61 | `"x"` at position 1 followed by `"agent_1"` gives a single `agent_1` entry holding the later value |
| Normalise.NormalizeFor | initial.py:51-75 | for `agents` the result is the normalisation with prefix `agent_`, for `tasks` the one with `task_`; any other kind leaves the parsed object untouched |
| Callback.SearchBraces | initial.py:42-43 | a match exists exactly when some `{` has a `}` after it; the match is the leftmost one and, from there, the longest |
| Callback.SpanBetween | initial.py:42-43 | every brace-delimited span starts at or after the first `{` and ends at or before the last `}` |
| Callback.ExtractJson | initial.py:42-46 | a span is extracted exactly when one exists; it is a substring that opens with `{` and closes with `}` |
| Callback.SpanFirstToLast | initial.py:42-46 | the extracted span runs from the first `{` of the output to its last `}` |
| Callback.NoClosingBrace | initial.py:43-45 | when no `}` follows any `{`, nothing is extracted |
| Callback.WholeSpan | initial.py:42-46 | an output that opens with `{` and closes with `}` is extracted whole |
| Callback.JsonCallback | initial.py:41-94 | no match saves the output unchanged; a parse failure saves the span; otherwise the parsed object is saved, exactly as normalised for the kind: `agent_` keys for agents, `task_` keys for tasks, untouched for any other kind |
| Callback.SavedNormalized | initial.py:51-75 | for agents and tasks, the saved keys are the renamed keys in order of first insertion, each holding the value of the last entry renamed to it, and no other key is saved |
| Callback.AgentsKeepPrefixedKeys | initial.py:51-62 | for agents, a parsed entry whose key already has the prefix is saved under that key with its value, unless a later entry is renamed onto it |

## Left out

- **Markdown conversion and HTML parsing and serialisation** (paste.py:22-25, 544-545, 555). These are foreign libraries. The document is given as its top-level siblings, and a tag as its name plus the text nodes of its subtree.
- **Nested tags.**
  - `soup.find('h1')`, `find_all('h2')`, the blank-tag cleanup and `find_all('p')` search the whole tree. The model sees top-level tags only.
  - So a paragraph nested in a list or a block quote is invisible to the cleanup and the ending rule.
  - A nested `h2` does not open a card.
- **Non-text nodes.** Comments and other non-text string nodes are counted as text nodes.
- **Sections.SectionsPartition:** requires that the document has no empty bare strings. An empty string is falsy and stops the walk early, and the walk itself models that case.
- **The default budget.** `char_limit` defaults to 500 (paste.py:8). Here the budget is always an argument of `Cards.Render`, so the default value has no separate counterpart.
- **The page template.** The CSS and JavaScript literals, the DOM construction around the cards, `get_current_date` and the file output (paste.py:35-502, 614-634, 731-746) are not modelled. They are templating, clock and I/O.
- **JSON parsing.** `json.loads` is a parameter of `Callback.JsonCallback` that returns an ordered object or nothing. `json.dump`, the file writes, the printed messages and the filename that is returned are I/O.
- **Exceptions other than a parse error.** The outer handler that returns `None` (initial.py:96-98) is not modelled. Neither are the choice between `output.raw`, `output.result` and `str(output)` (initial.py:30-39). The output is taken as a string.
- **The agent framework.** The crewai agent, task and crew construction in initial.py, and the files run.py, dynamic_crew.py and main.py, are not part of this model. They are wrappers over an external framework, plus filesystem work.
