# CheckIT documentation site scripts, modelled in Dafny

The CheckIT documentation site runs four small browser scripts over its pages.
This project models each of them as Dafny code and proves what they do, with
the DOM replaced by plain data: markup and text are strings, and a page's
elements are sequences of objects.

- `function_links.dfy` (module `FunctionLinks`) is the `[[Name]]` auto-linker.
  - The regex `/\[\[([^\]]+)\]\]/g` becomes a left-to-right scanner over the
    markup. The scanner reads the markup as a sequence of pieces: plain
    characters and references. Its replace callback classifies each name and
    builds the anchor.
  - The page pass is a method over the candidate elements. It writes an
    element's `innerHTML` only when the replace changed it.
- `card_tabs.dfy` (module `CardTabs`) is the tab switcher of the function cards.
  - A card holds its tabs (the `data-tab` value and the `active` class) and the
    elements inside it (id, `.tab-content` or not, hidden or not).
  - The load step and the click handler are methods on a `Card` class. Each is
    proved equal to a function of the old state, and the lemmas state what
    those functions promise.
- `field_icons.dfy` (module `FieldIcons`) is the field-label iconizer.
  - It holds the five-entry icon table and `String.prototype.trim`.
  - A `<strong>` element is a class whose text, markup and class list the pass
    updates in place.
- `code_blocks.dfy` (module `CodeBlocks`) is the copy-button decorator.
  - A `pre` element is a class holding its buttons. A selected block is either a
    `pre.highlight` or a `code` inside a `pre`. The pass appends at most one
    button per `pre`.
  - Each button's label reacts to clicks, to clipboard writes settling and to
    the reset timer. These arrive as events delivered by the host.
- `wrappers.dfy` holds the `Option` type.

The copy-button script has no rejection handler, nothing ties a reset timer to
the click that set it, and it creates no wrapper around the block. A rejected
write leaves the label as it is. Any timer resets the label to "Copy":
`StaleTimerResetsLabel` shows a timer from an earlier copy doing that while a
later one is still pending.

## Model

| member | source | states |
|---|---|---|
| FunctionLinks.RunLength | assets/js/function-links.js:19 | the length of the `[^\]]+` run at a position, never past the end of the input; `RunLengthSpec` states where it stops |
| FunctionLinks.RunLengthSpec | assets/js/function-links.js:19 | the `[^\]]+` run stops at the first `]` or at the end of the input |
| FunctionLinks.MatchName | assets/js/function-links.js:19 | the pattern tried at one position: the capture, if it matches there, and the match lies inside the input; `MatchNameExact` states when it matches and what it captures |
| FunctionLinks.MatchNameExact | assets/js/function-links.js:19 | the pattern matches at a position with capture X exactly when the text there starts with `[[X]]`, X non-empty and free of `]` |
| FunctionLinks.LowerSpec | assets/js/function-links.js:30 | `toLowerCase` keeps the length and lowercases each character (ASCII letters) |
| FunctionLinks.IsInternalHelper | assets/js/function-links.js:22-25 | the classification of a name as an internal helper by its three prefixes and the one exact name |
| FunctionLinks.AnchorFor | assets/js/function-links.js:22-30 | the target page is `internal-helpers` exactly when the name starts with `Apply-`, `Sanitize-` or `ConvertTo-` or equals `Get-DefaultDisplayValue`, and `api-reference` otherwise; the link text keeps the name's case and only the fragment is lowercased |
| FunctionLinks.AnchorHtml | assets/js/function-links.js:30 | the anchor markup `<a href="/docs/T#F" class="function-link">X</a>` for a target page, fragment and text |
| FunctionLinks.Link | assets/js/function-links.js:19-30 | the replacement the callback returns for a capture: the anchor `AnchorFor` describes; `LinkLonger` relates it to the match |
| FunctionLinks.LinkLonger | assets/js/function-links.js:30 | the anchor that replaces `[[X]]` is strictly longer than `[[X]]` |
| FunctionLinks.Scan | assets/js/function-links.js:19 | the global, left-to-right scan for the pattern, reading the markup as plain characters and matches; `ScanCharacterised` states what it is |
| FunctionLinks.Render | assets/js/function-links.js:19-31 | the markup after the replace: plain characters kept and each match replaced by its link; `RenderVersusSource` compares it with the original |
| FunctionLinks.Rewrite | assets/js/function-links.js:19-31 | the value of the whole `replace` call on the markup; `RewriteChangesIff`, `NoOpenBracketsUnchanged` and `RewriteNeverShorter` state its properties |
| FunctionLinks.ScanRoundTrip | assets/js/function-links.js:19 | the pieces found by the scan spell out the original markup: text between and around matches is kept verbatim, and every captured name is non-empty and free of `]` |
| FunctionLinks.ScanGreedy | assets/js/function-links.js:19 | the scan leaves no match behind: at every character it keeps as plain text, the pattern does not match |
| FunctionLinks.ScanUnique | assets/js/function-links.js:19 | any reading of the markup as text and valid matches, with every match taken where it first can be, is the scan's own |
| FunctionLinks.ScanCharacterised | assets/js/function-links.js:19-31 | a piece sequence is the scan's result exactly when it spells out the markup, has valid captures and takes every match leftmost, so matches are found left to right and never overlap |
| FunctionLinks.RenderVersusSource | assets/js/function-links.js:19-31 | replacing the matches never shortens the text, leaves it as it was when there is no match, and lengthens it when there is one |
| FunctionLinks.ScanFindsMatch | assets/js/function-links.js:19 | the scan finds a reference exactly when the pattern matches at some position of the markup |
| FunctionLinks.RewriteChangesIff | assets/js/function-links.js:19-36 | the replace changes the markup (the write guard `processedHtml !== html`) exactly when the pattern matches somewhere in it |
| FunctionLinks.NoOpenBracketsUnchanged | assets/js/function-links.js:19-36 | markup with no `[[` comes back unchanged, so its element is not written |
| FunctionLinks.RewriteNeverShorter | assets/js/function-links.js:19-31 | the rewritten markup is never shorter than the original |
| FunctionLinks.IsCandidate | assets/js/function-links.js:5-12 | an element the pass rewrites: its tag is one of p, li, td, th, h1 to h6 and it has no `pre`, `code` or `.highlight` ancestor |
| FunctionLinks.LinkElement | assets/js/function-links.js:8-36 | an element is written exactly when it is a candidate (selected tag, no `pre`/`code`/`.highlight` ancestor) and the replace changed its markup; a candidate ends with the rewritten markup, any other element keeps its own |
| FunctionLinks.LinkFunctionReferences | assets/js/function-links.js:3-37 | over the page's elements: each candidate ends with the rewritten markup, each other element keeps its markup, and the write happens exactly where the replace changed the markup |
| CardTabs.FirstActive | _site/assets/js/functionCardTabs.js:4 | `querySelector('.tab.active')` finds the first active tab, or none when no tab is active |
| CardTabs.FindById | _site/assets/js/functionCardTabs.js:8 | `querySelector('#' + id)` finds the first element of the card with that id, or none |
| CardTabs.HideContents | _site/assets/js/functionCardTabs.js:6 | every `.tab-content` hidden, every other element as it was |
| CardTabs.ShowById | _site/assets/js/functionCardTabs.js:8-9 | the first element with the id shown, when there is one |
| CardTabs.Deactivated | _site/assets/js/functionCardTabs.js:14 | every tab without the class `active` |
| CardTabs.NodesAfterLoad | _site/assets/js/functionCardTabs.js:4-10 | the card's elements after the load step; `LoadAgreesWithClick` and `LoadShowsAtMostOne` state its properties |
| CardTabs.TabsAfterClick | _site/assets/js/functionCardTabs.js:14-16 | the card's tabs after a click on tab i; `ClickActivatesOnlyClicked` states its properties |
| CardTabs.NodesAfterClick | _site/assets/js/functionCardTabs.js:15-19 | the card's elements after a click on tab i; `ClickShowsOnlyTarget` and `ClickShowsAtMostOne` state its properties |
| CardTabs.FindBySameIds | _site/assets/js/functionCardTabs.js:8 | the id lookup depends on the elements' ids alone, not on their display |
| CardTabs.ClickActivatesOnlyClicked | _site/assets/js/functionCardTabs.js:14-16 | after a click on tab i, tab i is the only active tab and no `data-tab` changes |
| CardTabs.ClickShowsOnlyTarget | _site/assets/js/functionCardTabs.js:15-19 | after a click, a `.tab-content` is shown exactly when it is the first element whose id is the tab's `data-tab`; that element is shown whatever it is; ids and every other element are unchanged |
| CardTabs.ClickShowsAtMostOne | _site/assets/js/functionCardTabs.js:15-19 | after a click at most one `.tab-content` of the card is shown |
| CardTabs.ClickIdempotent | _site/assets/js/functionCardTabs.js:13-20 | clicking the same tab twice leaves the card as clicking it once |
| CardTabs.LoadAgreesWithClick | _site/assets/js/functionCardTabs.js:4-10 | a card without an active tab is left alone on load; otherwise the load step shows what a click on the first active tab would show |
| CardTabs.LoadShowsAtMostOne | _site/assets/js/functionCardTabs.js:4-9 | after the load step the only `.tab-content` that can be shown is the first element whose id is the active tab's `data-tab` |
| CardTabs.Card.HideAllContents | _site/assets/js/functionCardTabs.js:6 | every `.tab-content` is hidden, every other element and every tab unchanged |
| CardTabs.Card.DeactivateAllTabs | _site/assets/js/functionCardTabs.js:14 | every tab loses `active`, elements unchanged |
| CardTabs.Card.ShowElementWithId | _site/assets/js/functionCardTabs.js:8-9 | the first element with the id, if any, is shown, nothing else changes |
| CardTabs.Card.ShowActiveOnLoad | _site/assets/js/functionCardTabs.js:4-10 | the card's new state is the load step applied to its old state |
| CardTabs.Card.Click | _site/assets/js/functionCardTabs.js:13-20 | the card's new tabs and elements are the click step applied to the old ones |
| CardTabs.InitializeCards | _site/assets/js/functionCardTabs.js:2-10 | every card of the page goes through the load step, tabs unchanged |
| CardTabs.ClickTab | _site/assets/js/functionCardTabs.js:12-20 | a click on a tab of one card runs that card's handler and changes no other card |
| FieldIcons.TrimStartSpec | assets/js/field-icons.js:13 | dropping leading white space leaves a suffix that starts with a non-white-space character, and only white space is dropped |
| FieldIcons.TrimEndSpec | assets/js/field-icons.js:13 | dropping trailing white space leaves a prefix that ends with a non-white-space character, and only white space is dropped |
| FieldIcons.Trim | assets/js/field-icons.js:13 | `String.prototype.trim` over the JavaScript white-space set; `TrimSpec` states what it keeps |
| FieldIcons.TrimSpec | assets/js/field-icons.js:13 | `trim` keeps exactly the part of the text between its leading and its trailing white space |
| FieldIcons.TrimTrimmed | assets/js/field-icons.js:13 | text without white space at either end is unchanged by `trim` |
| FieldIcons.KeysAreTrimmed | assets/js/field-icons.js:3-13 | each of the five labels is its own trimmed form |
| FieldIcons.TrimStartSkips | assets/js/field-icons.js:13 | leading white space in front of text that starts with another character is exactly what is dropped at the start |
| FieldIcons.TrimEndSkips | assets/js/field-icons.js:13 | trailing white space after text that ends with another character is exactly what is dropped at the end |
| FieldIcons.KeyMatchesDespiteWhiteSpace | assets/js/field-icons.js:13-14 | a label written with any white space before and after it trims to its key, so the lookup still finds it |

| FieldIcons.IconFor | assets/js/field-icons.js:3-14 | a label has an icon exactly when it is one of the five keys, and the icon is the table's non-empty entry |
| FieldIcons.AddClass | assets/js/field-icons.js:18 | `classList.add` makes the class present and keeps every other class, adding nothing else |
| FieldIcons.Iconize | assets/js/field-icons.js:13-20 | the decoration step for one `<strong>`; `IconizeChangesIff`, `IconizeDecoration` and `IconizeIdempotent` state its properties |
| FieldIcons.IconizeChangesIff | assets/js/field-icons.js:13-20 | a `<strong>` is changed, and its markup is changed, exactly when its trimmed text is one of the five keys and it is not yet marked `field-iconized` |
| FieldIcons.IconizeDecoration | assets/js/field-icons.js:17-18 | the new markup is the icon span for the mapped icon followed by the old markup, which is kept as a suffix, and the element is marked `field-iconized` |
| FieldIcons.IconizeIdempotent | assets/js/field-icons.js:16-19 | decorating a decorated element changes nothing |
| FieldIcons.AfterPass | assets/js/field-icons.js:12-20 | the state the pass leaves a `<strong>` in: decorated when its parent is a `p` or an `li`, untouched otherwise |
| FieldIcons.StrongElement.Decorate | assets/js/field-icons.js:13-20 | the element's new text, markup and classes are the decoration step applied to the old ones |
| FieldIcons.StrongElement.Visit | assets/js/field-icons.js:12-20 | only a `<strong>` whose parent is a `p` or an `li` is decorated; any other keeps its state |
| FieldIcons.IconizeFields | assets/js/field-icons.js:12-21 | over the page's `<strong>` elements, each ends in the state the pass gives it from its own old state |
| CodeBlocks.NextLabel | assets/js/code-blocks.js:16-26 | the label after each event: "Copied!" after a successful write, "Copy" when the timer fires, unchanged otherwise |
| CodeBlocks.Step | assets/js/code-blocks.js:18-27 | each event sets the label the source writes for it: "Copied!" after a successful write, "Copy" when a timer fires, unchanged on a click or a rejected write |
| CodeBlocks.Run | assets/js/code-blocks.js:18-27 | a sequence of events delivered to a button in order; `RunKeepsConsistent` and `CopyCycle` state its properties |
| CodeBlocks.RunKeepsConsistent | assets/js/code-blocks.js:14-27 | under any deliverable sequence of events, the label is "Copy" or "Copied!", and "Copy" whenever no reset timer is outstanding |
| CodeBlocks.NewButtonLabels | assets/js/code-blocks.js:16-26 | a new button shows only "Copy" or "Copied!", and "Copy" once its timers have fired |
| CodeBlocks.CopyCycle | assets/js/code-blocks.js:22-27 | a successful write shows "Copied!" and its timer brings back "Copy"; a rejected write changes nothing visible |
| CodeBlocks.StaleTimerResetsLabel | assets/js/code-blocks.js:22-27 | after two successful copies, the first copy's timer restores "Copy" while the second copy's timer is still pending |
| CodeBlocks.CopyButton.constructor | assets/js/code-blocks.js:14-16 | a new button reads "Copy" and is bound to the block that created it |
| CodeBlocks.CopyText | assets/js/code-blocks.js:20 | the text a click copies: a `code` block's own text, the first `code`'s text for a `pre.highlight`, nothing when it has none; `ButtonCopiesFirstCode` states what the decorated `pre`'s button copies |
| CodeBlocks.CopyButton.Click | assets/js/code-blocks.js:18-22 | a click hands the clipboard the copy text of the button's block, which is always one of its `pre`'s code texts |
| CodeBlocks.CopyButton.WriteSucceeded | assets/js/code-blocks.js:22-23 | a successful write sets the label to "Copied!" |
| CodeBlocks.CopyButton.ResetTimerFired | assets/js/code-blocks.js:24-26 | the timer sets the label back to "Copy" |
| CodeBlocks.FirstBlockOf | assets/js/code-blocks.js:5-12 | the position of the first selected block whose `pre` is the given one, or the number of blocks when there is none; a position it returns selects that `pre` |
| CodeBlocks.FirstBlockOfIsFirst | assets/js/code-blocks.js:5 | no block before the first one that selects a `pre` selects it |
| CodeBlocks.DecorateBlock | assets/js/code-blocks.js:6-32 | the block's `pre` (the block itself, or a `code` block's parent) gets one new "Copy" button bound to the block unless it already holds a button, in which case it is unchanged |
| CodeBlocks.AddCopyButtons | assets/js/code-blocks.js:5-33 | afterwards every selected block's `pre` holds a button; a `pre` that held buttons keeps exactly those, and one that held none holds exactly one new button, bound to the first block that selects it, even when both a `pre.highlight` and its `code` are selected; running the pass again therefore changes nothing |
| CodeBlocks.ButtonCopiesFirstCode | assets/js/code-blocks.js:5-20 | when a `pre.highlight` and its first `code` are both selected, the single button the pass binds to the `pre` copies the first code's text, whichever block comes first |

## Left out

- DOM querying and parsing are not modelled. `querySelectorAll`, `closest` and `querySelector` become data: a candidate flag, a parent tag, a list of a card's elements. `innerHTML` is a plain string with no parsing or serialisation.
- Event wiring is left out: `DOMContentLoaded`, the linker's second run on `load`, and `addEventListener`. A pass or a click is a method call.
- `navigator.clipboard.writeText` and `setTimeout` are asynchronous host services. They appear only as events delivered to a button (a write resolving or rejecting, a timer firing). The model has no clock, so the 2000 ms delay does not appear in it.
- Styling is not modelled: `style.position = 'relative'`, and `style.display` beyond a shown/hidden flag.
- FunctionLinks.AnchorFor: the fragment lowercases ASCII letters only, because Unicode case mapping in `toLowerCase` is not modelled.
- Elements nested inside one another in the linker (an `li` holding a `p`) are modelled as independent elements. The model therefore does not capture one element's write replacing another's markup.
- The linker is not claimed to be idempotent, and nothing about a second run is stated: it runs twice, and nested brackets such as `[[[[a]]]]` produce markup that the second run rewrites again.
- Selector failures are not modelled: `querySelector('#' + tabId)` throwing on a `data-tab` value that is not a valid selector, an empty one included. The model looks the id up literally.
- An element that is both a tab and a `.tab-content` or id target is not modelled: tabs and a card's other elements are kept as separate lists.
- Inherited object keys in `fieldIcons` are not modelled: the table is a map of its five own keys, so a label such as `constructor` has no icon.
- A click on a `pre.highlight` without a `code` is modelled as copying nothing (`CopyText` is `None`). The script fails on a null reference at that point, before it reaches the clipboard.
