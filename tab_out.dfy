/*
 * Model of the tab-out action handler: when tab is pressed and the character
 * at the caret is one of a fixed set of closing characters, the caret moves
 * past that one character; otherwise the stored original tab handler runs.
 */
module TabOut {

  datatype Option<+T> = None | Some(value: T)

  /** The one failure the handler can run into: reading the character at an
      offset the document does not have (the host's `charAt` throws). */
  datatype Error = IndexOutOfBounds(offset: nat, length: nat)

  datatype Result<+T> = Ok(value: T) | Err(error: Error)

  /** Opaque stand-ins for host objects the handler only passes along. */
  datatype Handler = Handler(id: nat)
  datatype CaretRef = CaretRef(id: nat)
  datatype DataContext = DataContext(id: nat)

  /** One invocation of the original handler, with the arguments it received
      and the document text and caret offset it saw. */
  datatype FallbackCall = FallbackCall(
    handler: Handler,
    caret: Option<CaretRef>,
    dataContext: DataContext,
    text: seq<char>,
    offset: nat)

  /** What the handler decides for the character at the caret. */
  datatype Decision = TabOver | Delegate

  /** The characters tabbed over, in the order the handler lists them. */
  const TabOverTargets: seq<char> := ['}', ')', '>', '"', ';']

  /** Linear search by element equality, as a list's `contains` does. */
  function Contains(xs: seq<char>, c: char): (r: bool)
    ensures r <==> exists i :: 0 <= i < |xs| && xs[i] == c
  {
    if xs == [] then false else xs[0] == c || Contains(xs[1..], c)
  }

  /** Membership in the tab-over targets: the target set is exactly these five
      characters, compared by equality. */
  predicate IsTarget(c: char)
    ensures IsTarget(c) <==> (c == '}' || c == ')' || c == '>' || c == '"' || c == ';')
  {
    Contains(TabOverTargets, c)
  }

  /** Reads the character at `offset` and classifies it. */
  function Decide(text: seq<char>, offset: nat): (r: Result<Decision>)
    ensures r.Err? <==> |text| <= offset
    ensures r.Err? ==> r.error == IndexOutOfBounds(offset, |text|)
    ensures r == Ok(TabOver) <==>
              offset < |text| && text[offset] in {'}', ')', '>', '"', ';'}
  {
    if |text| <= offset then Err(IndexOutOfBounds(offset, |text|))
    else
      var next := text[offset];
      if IsTarget(next) then Ok(TabOver) else Ok(Delegate)
  }

  /** The decision depends only on the one character at the caret. */
  lemma DecideDependsOnlyOnCharAtCaret(t1: seq<char>, t2: seq<char>, offset: nat)
    requires offset < |t1| && offset < |t2| && t1[offset] == t2[offset]
    ensures Decide(t1, offset) == Decide(t2, offset)
  {
  }

  /** The editor state the handler observes and changes: document text,
      primary caret offset, and the log of calls made to the original handler. */
  datatype EditorState = EditorState(text: seq<char>, offset: nat, fallbackCalls: seq<FallbackCall>)

  /** `after` is `before` with the caret one position further and nothing else changed. */
  predicate MovedOver(before: EditorState, after: EditorState) {
    after == before.(offset := before.offset + 1)
  }

  /** `after` is `before` with exactly `call` appended to the fallback log. */
  predicate DelegatedOnce(before: EditorState, after: EditorState, call: FallbackCall) {
    after == before.(fallbackCalls := before.fallbackCalls + [call])
  }

  /** One tab press handled by the tab-out handler whose stored original is `original`. */
  function Tab(s: EditorState, original: Handler, caret: Option<CaretRef>, ctx: DataContext): (r: Result<EditorState>)
    ensures r.Err? <==> |s.text| <= s.offset
    ensures r.Err? ==> r.error == IndexOutOfBounds(s.offset, |s.text|)
    ensures r.Ok? ==> r.value.text == s.text && r.value.offset <= |s.text|
    ensures r.Ok? ==>
              (MovedOver(s, r.value) && IsTarget(s.text[s.offset])) ||
              (DelegatedOnce(s, r.value, FallbackCall(original, caret, ctx, s.text, s.offset))
               && !IsTarget(s.text[s.offset]))
  {
    match Decide(s.text, s.offset)
    case Err(e) => Err(e)
    case Ok(TabOver) => Ok(s.(offset := s.offset + 1))
    case Ok(Delegate) =>
      Ok(s.(fallbackCalls := s.fallbackCalls + [FallbackCall(original, caret, ctx, s.text, s.offset)]))
  }

  /** Exactly one of "move the caret" and "delegate" happens on a valid press,
      and which one is decided by target membership alone. */
  lemma ExactlyOneEffect(s: EditorState, original: Handler, caret: Option<CaretRef>, ctx: DataContext)
    requires s.offset < |s.text|
    ensures Tab(s, original, caret, ctx).Ok?
    ensures var after := Tab(s, original, caret, ctx).value;
            var call := FallbackCall(original, caret, ctx, s.text, s.offset);
            (MovedOver(s, after) <==> IsTarget(s.text[s.offset])) &&
            (DelegatedOnce(s, after, call) <==> !IsTarget(s.text[s.offset]))
  {
  }

  /** `n` tab presses in a row with the same arguments; stops at the first failure. */
  ghost function Tabs(s: EditorState, original: Handler, caret: Option<CaretRef>, ctx: DataContext, n: nat): Result<EditorState>
    decreases n
  {
    if n == 0 then Ok(s)
    else match Tab(s, original, caret, ctx)
      case Err(e) => Err(e)
      case Ok(next) => Tabs(next, original, caret, ctx, n - 1)
  }

  /** Over a run of `n` targets, `n` presses move the caret exactly `n` positions
      and never call the original handler. */
  lemma {:induction false} TabsOverTargetRun(s: EditorState, original: Handler, caret: Option<CaretRef>, ctx: DataContext, n: nat)
    requires s.offset + n <= |s.text|
    requires forall k :: s.offset <= k < s.offset + n ==> IsTarget(s.text[k])
    ensures Tabs(s, original, caret, ctx, n) == Ok(s.(offset := s.offset + n))
    decreases n
  {
    if n > 0 {
      var next := s.(offset := s.offset + 1);
      assert IsTarget(s.text[s.offset]);
      assert Tab(s, original, caret, ctx) == Ok(next);
      TabsOverTargetRun(next, original, caret, ctx, n - 1);
    }
  }

  /** Every press does exactly one thing: across `n` successful presses the caret
      advances plus the fallback calls added add up to exactly `n`, the text is
      untouched, and the caret never advances more than one position per press. */
  lemma {:induction false} OneEffectPerPress(s: EditorState, original: Handler, caret: Option<CaretRef>, ctx: DataContext, n: nat)
    ensures var r := Tabs(s, original, caret, ctx, n);
            r.Ok? ==>
              r.value.text == s.text &&
              s.offset <= r.value.offset <= s.offset + n &&
              |s.fallbackCalls| <= |r.value.fallbackCalls| &&
              (r.value.offset - s.offset) + (|r.value.fallbackCalls| - |s.fallbackCalls|) == n
    decreases n
  {
    if n > 0 {
      match Tab(s, original, caret, ctx)
      case Err(_) =>
      case Ok(next) =>
        OneEffectPerPress(next, original, caret, ctx, n - 1);
    }
  }

  /** Scenario: in `foo(bar);` two presses at `)` pass `)` and then `;`, one per press. */
  lemma ScenarioCloseParenThenSemicolon(original: Handler, caret: Option<CaretRef>, ctx: DataContext)
    ensures var s := EditorState("foo(bar);", 7, []);
            Tab(s, original, caret, ctx) == Ok(s.(offset := 8)) &&
            Tabs(s, original, caret, ctx, 2) == Ok(s.(offset := 9))
  {
  }

  /** Scenario: in `foo(bar)` a press at `(` delegates once with offset 3 unchanged. */
  lemma ScenarioOpenParenDelegates(original: Handler, caret: Option<CaretRef>, ctx: DataContext)
    ensures var s := EditorState("foo(bar)", 3, []);
            Tab(s, original, caret, ctx) ==
              Ok(s.(fallbackCalls := [FallbackCall(original, caret, ctx, "foo(bar)", 3)]))
  {
    var s := EditorState("foo(bar)", 3, []);
    assert s.text[3] == '(';
    assert Decide(s.text, 3) == Ok(Delegate);
    var call := FallbackCall(original, caret, ctx, "foo(bar)", 3);
    assert s.fallbackCalls + [call] == [call];
  }

  /** Scenario: in `x = "hi"` a press at the closing `"` (offset 7) moves the caret to 8. */
  lemma ScenarioClosingQuote(original: Handler, caret: Option<CaretRef>, ctx: DataContext)
    ensures var s := EditorState("x = \"hi\"", 7, []);
            Tab(s, original, caret, ctx) == Ok(s.(offset := 8))
  {
  }

  /** Scenario: with the caret at the end of the document the read fails. */
  lemma ScenarioEndOfDocument(original: Handler, caret: Option<CaretRef>, ctx: DataContext)
    ensures Tab(EditorState("foo(bar)", 8, []), original, caret, ctx) == Err(IndexOutOfBounds(8, 8))
  {
  }

  /** The host's editor: its document text, its primary caret, and (in this
      model) the record of calls made to the original tab handler. */
  class Editor {
    var text: seq<char>
    var caret: nat
    var fallbackCalls: seq<FallbackCall>

    /** The host keeps the caret within the document (it may sit at the end).
        `DoExecute` does not require it, since it handles any caret; this
        predicate states that a handled press keeps the caret within the text. */
    ghost predicate Valid()
      reads this
    {
      caret <= |text|
    }

    function State(): EditorState
      reads this
    {
      EditorState(text, caret, fallbackCalls)
    }

    constructor (text: seq<char>, caret: nat)
      requires caret <= |text|
      ensures Valid() && State() == EditorState(text, caret, [])
    {
      this.text := text;
      this.caret := caret;
      this.fallbackCalls := [];
    }
  }

  class TabOutActionHandler {
    const original: Handler

    constructor (original: Handler)
      ensures this.original == original
    {
      this.original := original;
    }

    /** Handles one tab press on `editor`'s primary caret. `caret` and `dataContext`
        are only passed on to the original handler. `thrown` is the failure the
        character read raises, if any. */
    method DoExecute(editor: Editor, caret: Option<CaretRef>, dataContext: DataContext) returns (thrown: Option<Error>)
      modifies editor
      ensures old(editor.caret) >= old(|editor.text|) ==>
                thrown == Some(IndexOutOfBounds(old(editor.caret), old(|editor.text|))) &&
                unchanged(editor)
      ensures old(editor.caret) < old(|editor.text|) && IsTarget(old(editor.text)[old(editor.caret)]) ==>
                thrown == None &&
                editor.text == old(editor.text) &&
                editor.caret == old(editor.caret) + 1 &&
                editor.fallbackCalls == old(editor.fallbackCalls)
      ensures old(editor.caret) < old(|editor.text|) && !IsTarget(old(editor.text)[old(editor.caret)]) ==>
                thrown == None &&
                editor.text == old(editor.text) &&
                editor.caret == old(editor.caret) &&
                editor.fallbackCalls == old(editor.fallbackCalls) +
                  [FallbackCall(original, caret, dataContext, old(editor.text), old(editor.caret))]
      ensures old(editor.Valid()) ==> editor.Valid()
      ensures match Tab(old(editor.State()), original, caret, dataContext)
              case Ok(after) => thrown == None && editor.State() == after
              case Err(e) => thrown == Some(e) && editor.State() == old(editor.State())
    {
      var editorText := editor.text;
      var caretOffset := editor.caret;
      if |editorText| <= caretOffset {
        return Some(IndexOutOfBounds(caretOffset, |editorText|));
      }
      var nextCharacter := editorText[caretOffset];
      if IsTarget(nextCharacter) {
        editor.caret := caretOffset + 1;
      } else {
        editor.fallbackCalls := editor.fallbackCalls +
          [FallbackCall(original, caret, dataContext, editorText, caretOffset)];
      }
      thrown := None;
    }
  }
}
