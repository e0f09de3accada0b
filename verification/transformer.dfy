/** The style transformer: applyInlineStyle (src/App.js:66-92) and
    applyBlockStyle (src/App.js:95-107). Both first delete the trigger
    characters, then change the inline style or the block type. */
module Transformer {
  import opened Styles
  import opened Content

  /** Deletes characters [0, len) of the caret's block and records the
      deletion as a "remove-range" change; the caret ends at the start of the
      block and the inline-style override is dropped. Every caller removes a
      whole, non-empty trigger. */
  function RemoveTrigger(st: EditorState, len: nat): (r: EditorState)
    requires Valid(st)
    requires 0 < len <= |CurrentBlock(st).text|
    ensures Valid(r)
    ensures CurrentIndex(r) == CurrentIndex(st)
    ensures CurrentBlock(r).text == CurrentBlock(st).text[len..]
    ensures CurrentBlock(r).styles == CurrentBlock(st).styles[len..]
    ensures CurrentBlock(r).kind == CurrentBlock(st).kind
    ensures OthersUnchanged(st, r)
    ensures r.selection == Caret(st.selection.key, 0)
    ensures r.override == None
    ensures r.changes == st.changes + [RemoveRange]
  {
    var r := Push(st, ReplaceText(st, 0, len, "", {}), RemoveRange);
    assert forall j :: 0 <= j < |r.blocks| ==> r.blocks[j].key == st.blocks[j].key;
    CaretAt(r, CurrentIndex(st));
    r
  }

  /** The heading transform: the trigger is consumed, the block type is
      toggled to `kind` (or back to "unstyled" when it already was `kind`),
      and no inline style is toggled, so the style for the next character is
      whatever the framework derives once the trigger is gone. */
  function ApplyBlockStyle(st: EditorState, kind: BlockType, len: nat): (r: EditorState)
    requires Valid(st)
    requires 0 < len <= |CurrentBlock(st).text|
    ensures Valid(r)
    ensures CurrentIndex(r) == CurrentIndex(st)
    ensures CurrentBlock(r).text == CurrentBlock(st).text[len..]
    ensures CurrentBlock(r).styles == CurrentBlock(st).styles[len..]
    ensures CurrentBlock(r).kind == (if CurrentBlock(st).kind == kind then Unstyled else kind)
    ensures OthersUnchanged(st, r)
    ensures r.selection == Caret(st.selection.key, 0)
    ensures r.override == None
    ensures CurrentInlineStyle(r) == CurrentInlineStyle(RemoveTrigger(st, len))
    ensures r.changes == st.changes + [RemoveRange, ChangeBlockType]
  {
    var removed := RemoveTrigger(st, len);
    var r := ToggleBlockType(removed, kind);
    assert r.changes == st.changes + [RemoveRange, ChangeBlockType];
    r
  }

  /** Toggles every style of `toggles` on the style for the next typed
      character, all at once; the document, the caret and the history are
      untouched. ToggleAll shows that toggling one style at a time, in any
      order, gives this same state. */
  function ToggleStyles(st: EditorState, toggles: set<Style>): (r: EditorState)
    requires Valid(st)
    ensures Valid(r)
    ensures r.blocks == st.blocks && r.selection == st.selection && r.changes == st.changes
    ensures CurrentInlineStyle(r) == SymDiff(CurrentInlineStyle(st), toggles)
    ensures forall s :: s in toggles ==> (s in CurrentInlineStyle(r) <==> s !in CurrentInlineStyle(st))
  {
    if toggles == {} then
      assert SymDiff(CurrentInlineStyle(st), toggles) == CurrentInlineStyle(st);
      st
    else st.(override := Some(SymDiff(CurrentInlineStyle(st), toggles)))
  }

  /** The loop of src/App.js:83-85: toggles the styles of `toggles` one at a
      time, in whatever order the set yields them, and ends in the state
      ToggleStyles computes at once. */
  method ToggleAll(st: EditorState, toggles: set<Style>) returns (r: EditorState)
    requires Valid(st)
    ensures Valid(r)
    ensures r == ToggleStyles(st, toggles)
  {
    r := st;
    var rest := toggles;
    while rest != {}
      invariant Valid(r)
      invariant r.blocks == st.blocks && r.selection == st.selection && r.changes == st.changes
      invariant rest <= toggles
      invariant CurrentInlineStyle(r) == SymDiff(CurrentInlineStyle(st), toggles - rest)
      invariant rest == toggles ==> r == st
      invariant rest != toggles ==> r.override == Some(CurrentInlineStyle(r))
      decreases rest
    {
      var s :| s in rest;
      r := ToggleInlineStyle(r, s);
      rest := rest - {s};
    }
    assert toggles - rest == toggles;
  }

  /** The inline transform as written: the trigger is consumed, every style
      active BEFORE the call is toggled on the state after the removal, then
      `style` is toggled. The resulting style is therefore
      (style after removal) Δ (style before the call) Δ {style}; when the
      removal leaves the active style as it was, exactly `style` is active. */
  function ApplyInlineStyle(st: EditorState, style: Style, len: nat): (r: EditorState)
    requires Valid(st)
    requires 0 < len <= |CurrentBlock(st).text|
    ensures Valid(r)
    ensures CurrentIndex(r) == CurrentIndex(st)
    ensures CurrentBlock(r).text == CurrentBlock(st).text[len..]
    ensures CurrentBlock(r).styles == CurrentBlock(st).styles[len..]
    ensures CurrentBlock(r).kind == CurrentBlock(st).kind
    ensures OthersUnchanged(st, r)
    ensures r.selection == Caret(st.selection.key, 0)
    ensures r.changes == st.changes + [RemoveRange]
    ensures CurrentInlineStyle(r) ==
      SymDiff(SymDiff(CurrentInlineStyle(RemoveTrigger(st, len)), CurrentInlineStyle(st)), {style})
    ensures CurrentInlineStyle(RemoveTrigger(st, len)) == CurrentInlineStyle(st) ==>
      CurrentInlineStyle(r) == {style}
  {
    var removed := RemoveTrigger(st, len);
    ToggleInlineStyle(ToggleStyles(removed, CurrentInlineStyle(st)), style)
  }

  /** The inline transform as the comment at src/App.js:81 describes it:
      the styles active once the trigger is gone are toggled off, then
      `style` is toggled on, so exactly `style` is active whatever the
      state. It differs from ApplyInlineStyle only in reading the style to
      clear after the removal rather than before the call. */
  function ApplyInlineStyleClearing(st: EditorState, style: Style, len: nat): (r: EditorState)
    requires Valid(st)
    requires 0 < len <= |CurrentBlock(st).text|
    ensures Valid(r)
    ensures CurrentIndex(r) == CurrentIndex(st)
    ensures CurrentBlock(r).text == CurrentBlock(st).text[len..]
    ensures CurrentBlock(r).styles == CurrentBlock(st).styles[len..]
    ensures CurrentBlock(r).kind == CurrentBlock(st).kind
    ensures OthersUnchanged(st, r)
    ensures r.selection == Caret(st.selection.key, 0)
    ensures r.changes == st.changes + [RemoveRange]
    ensures CurrentInlineStyle(r) == {style}
  {
    var removed := RemoveTrigger(st, len);
    ToggleInlineStyle(ToggleStyles(removed, CurrentInlineStyle(removed)), style)
  }

  /** The transform as written and the clearing one agree exactly when
      the removal keeps the active style. */
  lemma ClearingAgreesWhenStyleKept(st: EditorState, style: Style, len: nat)
    requires Valid(st)
    requires 0 < len <= |CurrentBlock(st).text|
    ensures CurrentInlineStyle(RemoveTrigger(st, len)) == CurrentInlineStyle(st) ==>
      ApplyInlineStyle(st, style, len) == ApplyInlineStyleClearing(st, style, len)
    ensures ApplyInlineStyle(st, style, len) == ApplyInlineStyleClearing(st, style, len) ==>
      CurrentInlineStyle(RemoveTrigger(st, len)) == CurrentInlineStyle(st)
  {
  }
}
