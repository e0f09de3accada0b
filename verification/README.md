# Markdown-style triggers for a rich-text editor, in Dafny

This project models the keystroke handling of a small rich-text editor
application (src/App.js). The editor calls the application's
`handleBeforeInput` before each typed character is committed. The handler
reads the text of the line (block) holding the caret and takes one of three
actions:

- **Capitalisation.** On an empty line, a lowercase letter is inserted as
  the matching capital. The capital carries the inline style that is active
  at the caret. The change is recorded as `"insert-characters"`.
- **Triggers.** When the whole line is exactly `#`, `*`, `**` or `***` and
  the typed character is a space, the trigger is consumed. The space is
  never inserted.
  - `#` toggles the line's block type to `header-one`
    (`applyBlockStyle`).
  - `*`, `**` and `***` toggle every inline style that was active
    before the keystroke, then toggle `BOLD`, `RED` or `UNDERLINE`
    (`applyInlineStyle`). The comment at src/App.js:81 means the first
    toggles to switch those styles off.
  - Both record the deletion as a `"remove-range"` change.
- **Anything else** is reported `"not-handled"`, and the editor inserts
  the character itself.

The handler's calls into the editor framework are foreign code. The model
replaces them with a small, closed editor state and four operations on it
(module `Content`).

The editor state (`EditorState`) holds:

- the blocks, each with a key, a text, one inline-style set per character
  and a block type;
- a collapsed caret, given as a block key and an offset;
- the inline-style override, which is the style chosen for the next typed
  character, if any;
- the history of change tags.

The four framework operations are:

- **Replacing a range** (`ReplaceText`) deletes characters `[from, to)` of
  the caret's block. It inserts new characters, each carrying a given style,
  and moves the caret after them.
- **Pushing a change** (`Push`) installs the new content. It appends the
  change tag to the history and drops the override, except on a block-type
  change.
- **Toggling an inline style** (`ToggleInlineStyle`) sets the override to
  the current style with that one style added or removed (a symmetric
  difference). Only the override changes, because the caret is collapsed.
- **Toggling the block type** (`ToggleBlockType`) sets the block's type to
  the requested one, or to `"unstyled"` when the block already has it. It
  records `"change-block-type"`.

The **current inline style** (`CurrentInlineStyle`) follows the framework's
rule:

- the override, when one is set;
- otherwise the style of the character before the caret;
- at the start of a non-empty line, the style of its first character;
- on an empty line, the style of the last character of the nearest
  non-empty line above, or no style if there is none.

This rule belongs to the framework, not to src/App.js. The model adopts it
as an assumption.

Handlers return an `Outcome` (`Handled(state)` or `NotHandled`). They do not
install a state themselves.

Modules:

- `Styles` (styles.dfy): inline styles, block types, change tags, and the
  custom style map (config only).
- `Content` (content.dfy): the editor state and the framework operations.
- `Detector` (detector.dfy): chooses which rule a keystroke fires. It also
  holds the trigger table, which is an independent statement of the four
  triggers.
- `Transformer` (transformer.dfy): the two transforms.
- `App` (app.dfy): the handler, and the editor's processing of a keystroke
  and of a typed string built on it.

### The inline transform does not always leave exactly the requested style

`applyInlineStyle` reads the style to clear from the state *before* the
trigger is removed (src/App.js:82). It applies the toggles to the state
*after* the removal (src/App.js:84-88). The resulting style is
`(style after removal) Δ (style before the keystroke) Δ {requested}`. It is
exactly `{requested}` only when the removal leaves the active style as it
was.

Two lemmas exhibit states where this fails:

- `App.RedThenBoldOnFirstLine`: on an empty first line, typing `**`, a
  space, `*` and a space leaves `{RED, BOLD}` active. The style before the
  last keystroke is RED, while the emptied first line shows no style, so
  toggling RED turns it on.
- `App.BoldTriggerAfterRedStar`: the line above ends in bold text, a `*`
  typed in red is the whole current line, and a space asks for BOLD. The
  active style afterwards is `{RED}`.

Both outcomes depend on the framework rule above. The comment at
src/App.js:81 says the loop removes all existing inline styles, so the
evident intent is that only the requested style is active afterwards. The
model follows the code as written; "## Findings" gives the corrected
transform. It proves the conditional guarantee
(`Transformer.ApplyInlineStyle`). It also proves that the guarantee holds
whenever a trigger is typed on an empty line with no override set
(`App.InlineTriggerOnFreshLine`).

The source's comment at src/App.js:46 reads "Trigger heading (#) with
bold", but no code applies bold there. The heading transform toggles no inline style.

## Model

| member | source | states |
|---|---|---|
| Detector.Classify | src/App.js:34-62 | Capitalisation fires only on an empty line with a lowercase letter. A transform fires only on a space, and its removal length equals the whole length of the line's text. The rule it returns for a space is exactly the trigger table's entry for the line. |
| Detector.Upper | src/App.js:35 | The inserted letter is a capital with the same place in the alphabet as the typed lowercase letter. |
| Detector.TriggerTableShape | src/App.js:47-61 | Every trigger is non-empty and removes exactly its own characters. Every inline style a trigger requests is BOLD or has an entry in the custom style map. Every style and block type a trigger requests has a single representation. |
| Detector.ClassifyIsTheFiringRule | src/App.js:34-62 | The detector returns a rule exactly when that rule's own condition holds (capitalisation, or the line equals a trigger of the table and the key is a space). It returns no rule when no condition holds. |
| Detector.RulesExclusive | src/App.js:34-59 | No two rules can fire on the same keystroke, so the order of the tests does not matter. |
| Detector.ClassifyOnTrigger | src/App.js:47-61 | A space typed into a line holding exactly `#`, `*`, `**` or `***` dispatches to header-one/1, BOLD/1, RED/2 or UNDERLINE/3 respectively. |
| Detector.ExactMatchOnly | src/App.js:47-62 | A trigger preceded by other text (any character that is not `*`) is not recognised, whatever key is typed. |
| Detector.OtherKeystrokesIgnored | src/App.js:62 | These keystrokes are not handled: a space on a line that is not exactly a trigger, a non-space on a non-empty line, and a non-lowercase character on an empty line. |
| Detector.NotHandledExamples | src/App.js:62 | `"x#"`, `"ab*"` and `"****"` followed by a space are not handled, and neither are `"#"` followed by a letter, an empty line followed by a space, or an empty line followed by a capital. |
| Content.IndexOf | src/App.js:29-30 | The block holding the caret is found by its key, and it is the first block with that key. |
| Content.CurrentInlineStyle | src/App.js:40 | The style at the caret is the override when one is set. Otherwise it is the style of the character before the caret, or of the first character when the caret is at the start of a non-empty line, and on an empty line it is the style found above the line. |
| Content.StyleAboveIsNearest | src/App.js:82 | The style found above an empty line is that of the last character of the nearest non-empty line above it, or no style when every line above is empty. |
| Content.StyleAboveOnlyLooksUp | src/App.js:82 | The style found above a line depends only on the lines before it. |
| Content.ReplaceText | src/App.js:71-76 | Characters `[from, to)` of the caret's block are replaced by the new text, whose characters all carry the given style. The styles before and after the range are kept, the block keeps its key and type, every other block is unchanged, and the caret ends after the new text. |
| Content.Push | src/App.js:79 | The pushed content and caret become the state's. The history is the old history with the tag appended. An override survives only a block-type change, and that change keeps it unchanged. |
| Content.ToggleInlineStyle | src/App.js:84 | The toggled style flips between active and inactive. Every other style and the document are unchanged. |
| Content.ToggleBlockType | src/App.js:105 | The caret block's type becomes the requested type, or unstyled if it already had it. Nothing else in the document changes, the current inline style is kept, and `"change-block-type"` is recorded. |
| Transformer.RemoveTrigger | src/App.js:71-79 | Characters `[0, len)` of the caret's block are deleted with their styles. The caret moves to offset 0, the override is dropped, other blocks are unchanged, and `"remove-range"` is appended. |
| Transformer.ApplyBlockStyle | src/App.js:95-107 | The trigger is consumed and the block type toggles to the requested type, or back to unstyled. No inline style is toggled. Other blocks are unchanged. The history gains `"remove-range"` then `"change-block-type"`. |
| Transformer.ToggleStyles | src/App.js:82-85 | Toggling a set of styles at once leaves the symmetric difference of the current style and that set active, and flips every style of the set. The document, caret and history are untouched. |
| Transformer.ToggleAll | src/App.js:82-85 | Toggling the styles of a set one at a time, in any order, ends in the same state as toggling them all at once. |
| Transformer.ApplyInlineStyle | src/App.js:66-92 | The trigger is consumed and the block type is kept. The active style is (style after removal) Δ (style before the call) Δ {style}. It is exactly {style} when the removal keeps the style, even if the style was already active. Other blocks are unchanged and only `"remove-range"` is recorded. |
| Transformer.ApplyInlineStyleClearing | src/App.js:81-88 | The corrected inline transform: the trigger is consumed as in ApplyInlineStyle, and exactly the requested style is active afterwards, in every state. |
| Transformer.ClearingAgreesWhenStyleKept | src/App.js:82 | The transform as written and the corrected one give the same state exactly when removing the trigger keeps the active style. |
| App.InsertCharacter | src/App.js:36-42 | The character is inserted at the caret and carries the style active there. That style stays active after it. The caret advances by one, the block type and all other blocks are kept, and `"insert-characters"` is appended to the history. |
| App.HandleBeforeInput | src/App.js:26-63 | The keystroke is not handled exactly when no rule fires. On an empty line, a lowercase letter becomes its capital and keeps the active style. A handled space always comes from a trigger, leaves the line empty and is not inserted. The heading trigger toggles to header-one. An inline trigger gives (style after removal) Δ (style before) Δ {its style}, which is exactly {its style} when the removal keeps the style. Other blocks are unchanged and the history tags are as recorded. |
| App.TypeCharacter | src/App.js:127 | A keystroke that the handler leaves unhandled is inserted by the editor. A space typed after `#` empties the line and toggles it to header-one. Only the caret's block can change. |
| App.TypeText | src/App.js:127 | Typing a string keeps the caret in the same block and leaves every other block unchanged. |
| App.AppendText | src/App.js:62 | Appending text character by character keeps the caret in the same block and leaves every other block unchanged. |
| App.AppendTextAtEnd | src/App.js:62 | Text appended at the end of a line follows the existing text. The block type is kept and the caret stays at the end. |
| App.AppendTextKeepsStyle | src/App.js:36-42 | Appending text keeps the active style, and no override is left once a character is appended. |
| App.AppendTextStyles | src/App.js:36-42 | Every appended character carries the style active before the first one, and the styles already on the line are kept. |
| App.TypingPlainText | src/App.js:62 | Typing text with no space at the end of a line, not starting with a lowercase letter on an empty line, is never handled: the result equals appending the text. |
| App.HeadingTriggerOnEmptyLine | src/App.js:47-48 | On an empty line, typing `#` and a space leaves the line empty with the caret at its start, and toggles the line to header-one or back to unstyled. |
| App.HeadingScenario | src/App.js:47-48 | On an empty unstyled line, typing `# Title` gives a header-one line whose text is `Title`. |
| App.ErasingFreshTextKeepsStyle | src/App.js:71-82 | Text typed on an empty line with no override, then removed, leaves the same style active as before the removal. |
| App.InlineTriggerOnFreshLine | src/App.js:49-61 | On an empty line with no override, typing `*`, `**` or `***` and then a space leaves exactly BOLD, RED or UNDERLINE active and the line empty. |
| App.BoldTriggerOnFirstLine | src/App.js:82-88 | On the empty first line, `*` typed in style S followed by a space leaves S with BOLD toggled, not BOLD alone. |
| App.RedThenBoldOnFirstLine | src/App.js:82-88 | On an empty first line, typing `**`, a space, `*` and a space leaves `{RED, BOLD}` active. |
| App.BoldTriggerAfterRedStar | src/App.js:82-88 | In a concrete state, a BOLD trigger leaves `{RED}` active: the line above ends in bold and the red `*` is the whole line. |

## Findings

| source | as written | input that shows it | evidently intended | confidence | as-written member | corrected member |
|---|---|---|---|---|---|---|
| src/App.js:82 | The styles to clear are read from the state before the trigger is removed, but toggled on the state after it, so a style the removal brings back is toggled on instead of off. | On an empty first line, type `**`, a space, `*` and a space: `{RED, BOLD}` is active, not `{BOLD}`. | Read the styles to clear after the removal, so that only the requested style is active (src/App.js:81). | medium; not executed, and the outcome depends on the framework's rule for the current style | App.RedThenBoldOnFirstLine | Transformer.ApplyInlineStyleClearing |

The handler model (`App.HandleBeforeInput`) keeps the transform as written,
`Transformer.ApplyInlineStyle`, so that it stays faithful to the code.
`Transformer.ClearingAgreesWhenStyleKept` states when the two agree.

## Left out

- The React component, its hooks, rendering and the save button
  (src/App.js:6-8, 115-133): UI only.
- Loading from and saving to local storage, JSON parsing and the alert
  (src/App.js:10-23): I/O. The serialisation round trip is done inside the
  editor framework, which is not part of this model.
- The rendering descriptors of the custom style map are kept as data only.
  The model states only which styles have an entry.
- Typing over a selected range, and backward or multi-block selections,
  are not modelled. The model assumes a collapsed caret.
- Content.Push: does not model the framework's no-op when the pushed
  content is identical to the current one. Every change the handler pushes
  alters the content, because each removes a non-empty trigger or inserts
  a character.
- The framework's refusal to change the type of an atomic block, and its
  reset of block depth to 0. The application never produces such blocks.
- Undo and redo stacks, the selection saved before and after each change,
  and forced selection. The history keeps only the change tags.
- Entities: no entity is ever attached by the handler.
- Unicode `toUpperCase`, the unanchored `/[a-z]/` match on multi-character
  input, and UTF-16 string lengths. The model takes one character per
  keystroke and capitalises ASCII `a`-`z` only.
- The framework's rule for the current inline style (see above) is an
  assumption, modelled after the framework. No code in src/App.js states
  it.
