# Tab-out action handler, modelled in Dafny

The repository is an editor plugin that gives the tab key an Eclipse-style
"tab out" behaviour. When tab is pressed, `TabOutActionHandler.doExecute`
reads the character at the editor's primary caret. If that character is one
of the five tab-over targets `}` `)` `>` `"` `;`, the caret moves forward by
exactly one position. Otherwise the call goes unchanged to the original tab
handler, which the handler stored when it was constructed.

`tab_out.dfy` (module `TabOut`) models this in two layers:

- A pure layer. `Contains` is the element-by-element search that a list's
  `contains` performs over the fixed target array. `IsTarget` is membership
  in that array. `Decide` reads the character at an offset and classifies it.
  `Tab` is one key press on an `EditorState`, which holds the text, the caret
  offset and a log of calls made to the original handler. `Tabs` is `n`
  presses in a row.
- An imperative layer. `Editor` is a class holding the host's document
  text, primary caret and fallback-call log. `TabOutActionHandler` is a
  class whose `original` field is set once by its constructor.
  `DoExecute` reads and moves `editor.caret` in place, or appends one
  `FallbackCall` record. It is proved against `Tab`.

When the caret sits at the end of the document, `charAt` throws. The model
does not forbid this with a precondition. It returns the failure as
`IndexOutOfBounds(offset, length)` and leaves the editor untouched, since the
throw happens before any mutation. Delegating at the end of the document
would be another resolution; the code does not do that, and the model
follows the code.

The host objects the handler only passes along are opaque tokens: the
original handler (`Handler`), the nullable `caret` parameter
(`Option<CaretRef>`) and the `DataContext`.

## Model

| member | source | states |
|---|---|---|
| `TabOut.Contains` | src/main/java/TabOutActionHandler.java:45 | the search returns true exactly when some element of the array equals the character |
| `TabOut.IsTarget` | src/main/java/TabOutActionHandler.java:19-21 | the membership test on the character at the caret: a character is a tab-over target if and only if it is one of `}` `)` `>` `"` `;`, compared by plain equality |
| `TabOut.Decide` | src/main/java/TabOutActionHandler.java:39-45 | the read fails with `IndexOutOfBounds(offset, length)` exactly when the offset is not below the text length; otherwise the decision is "tab over" exactly when the character at the offset is in the five-character set, and "delegate" for every other character |
| `TabOut.DecideDependsOnlyOnCharAtCaret` | src/main/java/TabOutActionHandler.java:39-45 | two texts with the same character at the caret offset get the same decision |
| `TabOut.Tab` | src/main/java/TabOutActionHandler.java:38-50 | one press fails exactly when the caret is at or past the end of the text; on success the text is unchanged and the new caret is at most the text length; either the caret moves by one and nothing else changes (target), or exactly one fallback call is recorded with the same handler, caret, data context, text and offset, and the caret stays (non-target) |
| `TabOut.ExactlyOneEffect` | src/main/java/TabOutActionHandler.java:45-49 | on a valid caret, "moved over" holds if and only if the character is a target, and "delegated once" holds if and only if it is not, so exactly one of the two happens |
| `TabOut.TabsOverTargetRun` | src/main/java/TabOutActionHandler.java:41-46 | over a run of `n` consecutive targets, `n` presses move the caret exactly `n` positions with no fallback call; one press never passes two targets |
| `TabOut.OneEffectPerPress` | src/main/java/TabOutActionHandler.java:45-49 | over any `n` successful presses, in the model, where a delegation is only recorded, the text is unchanged, the caret advances by at most `n`, and caret advances plus fallback calls add up to exactly `n` |
| `TabOut.ScenarioCloseParenThenSemicolon` | src/main/java/TabOutActionHandler.java:45-46 | in `foo(bar);` with the caret at `)` (offset 7), one press moves to 8 and two presses to 9 |
| `TabOut.ScenarioOpenParenDelegates` | src/main/java/TabOutActionHandler.java:47-48 | in `foo(bar)` with the caret at `(` (offset 3), the press records one fallback call at offset 3 and leaves the caret there |
| `TabOut.ScenarioClosingQuote` | src/main/java/TabOutActionHandler.java:45-46 | in `x = "hi"` with the caret at the closing `"` (offset 7), one press moves the caret to 8 with no fallback call |
| `TabOut.ScenarioEndOfDocument` | src/main/java/TabOutActionHandler.java:41 | with the caret at the end of `foo(bar)` the character read fails with `IndexOutOfBounds(8, 8)` |
| `TabOut.TabOutActionHandler.constructor` | src/main/java/TabOutActionHandler.java:33-35 | the handler stores the original handler it is given |
| `TabOut.TabOutActionHandler.DoExecute` | src/main/java/TabOutActionHandler.java:38-50 | on the editor's primary caret: at end of text it reports `IndexOutOfBounds` and changes nothing; on a target the caret becomes the old offset + 1 with text and fallback log unchanged; otherwise the caret and text stay and exactly one call to the stored original, with the same caret and data context, is appended; the new editor state is the one `Tab` gives, and a caret within the text stays within it |

## Left out

- What the original handler does when it is called (inserting indentation). The model only records the call in `Editor.fallbackCalls`. `Tabs` therefore does not describe real repeated presses after a delegation; its lemmas are only about runs of targets and about counting effects.
- The host framework: inheritance from `EditorWriteActionHandler`, action registration, write-action and undo wrapping, and the `DataContext` contents. These are host types whose behaviour is not visible here.
- Multiple carets. The handler ignores its `caret` parameter and uses only the primary caret, and so does the model. The parameter is only passed on to the original handler.
- Threading. The host serialises all edits on its editing thread.
- Java `int` width. `caretOffset + 1` cannot overflow, because the offset is below the text length, which is itself an `int`. The model uses unbounded `nat`.
- Character width. Java's `charAt` returns UTF-16 code units and the host's caret offsets count code units, while a Dafny `char` is a Unicode scalar value and cannot be a lone surrogate. For text with characters outside the Basic Multilingual Plane the model's offsets (the caret, `IndexOutOfBounds(offset, length)`, `FallbackCall.offset`) therefore differ from the program's, and a caret on a lone surrogate cannot be represented. The decision is unaffected: all five targets are ASCII and a surrogate is never a target, so it delegates either way.
- The exception type. Which `IndexOutOfBoundsException` subclass the host's character sequence throws is not visible; the model uses one error value.
- A null original handler. The model's handler is always present, so the failure when a null one is reached is not modelled.
