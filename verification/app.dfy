/** The keystroke handler of the application, handleBeforeInput
    (src/App.js:26-63): it reads the caret's block, asks the detector which
    rule the keystroke fires, and either capitalises the first letter of an
    empty line, runs a transform, or leaves the keystroke to the editor. */
module App {
  import opened Styles
  import opened Content
  import opened Detector
  import opened Transformer

  /** "handled" with the state the handler installs, or "not-handled". */
  datatype Outcome = Handled(state: EditorState) | NotHandled

  /** Inserts `ch` at the caret, carrying the inline style active there, and
      records an "insert-characters" change. The caret moves past the new
      character, which keeps that same style active for the next one. */
  function InsertCharacter(st: EditorState, ch: char): (r: EditorState)
    requires Valid(st)
    ensures Valid(r)
    ensures CurrentIndex(r) == CurrentIndex(st)
    ensures var b, off := CurrentBlock(st), st.selection.offset;
      && CurrentBlock(r).text == b.text[..off] + [ch] + b.text[off..]
      && CurrentBlock(r).styles == b.styles[..off] + [CurrentInlineStyle(st)] + b.styles[off..]
      && CurrentBlock(r).kind == b.kind
      && r.selection == Caret(st.selection.key, off + 1)
    // At the end of the line, the character is appended.
    ensures st.selection.offset == |CurrentBlock(st).text| ==>
      && CurrentBlock(r).text == CurrentBlock(st).text + [ch]
      && CurrentBlock(r).styles == CurrentBlock(st).styles + [CurrentInlineStyle(st)]
    ensures OthersUnchanged(st, r)
    ensures CurrentInlineStyle(r) == CurrentInlineStyle(st)
    ensures r.changes == st.changes + [InsertCharacters]
  {
    var off := st.selection.offset;
    var r := Push(st, ReplaceText(st, off, off, [ch], CurrentInlineStyle(st)), InsertCharacters);
    assert forall j :: 0 <= j < |r.blocks| ==> r.blocks[j].key == st.blocks[j].key;
    CaretAt(r, CurrentIndex(st));
    var b := CurrentBlock(st);
    assert WellFormed(b);
    assert off == |b.text| ==> b.text[..off] == b.text && b.styles[..off] == b.styles;
    r
  }

  /** The keystroke handler. A lowercase letter typed on an empty line is
      inserted as a capital carrying the active style; a space typed into a
      block holding exactly a trigger consumes the trigger and applies its
      style; every other keystroke is not handled and changes nothing. */
  function HandleBeforeInput(st: EditorState, c: char): (o: Outcome)
    requires Valid(st)
    ensures o.NotHandled? <==> Classify(CurrentBlock(st).text, c) == NoRule
    ensures o.Handled? ==>
      && Valid(o.state)
      && CurrentIndex(o.state) == CurrentIndex(st)
      && OthersUnchanged(st, o.state)
    // Capitalisation of the first letter of an empty line.
    ensures |CurrentBlock(st).text| == 0 && IsLower(c) ==>
      && o.Handled?
      && CurrentBlock(o.state).text == [Upper(c)]
      && CurrentBlock(o.state).styles == [CurrentInlineStyle(st)]
      && CurrentBlock(o.state).kind == CurrentBlock(st).kind
      && CurrentInlineStyle(o.state) == CurrentInlineStyle(st)
      && o.state.changes == st.changes + [InsertCharacters]
    // A handled space is never inserted: the whole trigger is consumed.
    ensures o.Handled? && c == ' ' ==>
      && CurrentBlock(st).text in Triggers
      && CurrentBlock(o.state).text == []
      && CurrentBlock(o.state).styles == []
      && o.state.selection == Caret(st.selection.key, 0)
      && |o.state.changes| > |st.changes|
      && o.state.changes[..|st.changes| + 1] == st.changes + [RemoveRange]
    // The heading trigger toggles the block type and toggles no inline style.
    ensures c == ' ' && CurrentBlock(st).text in Triggers && Triggers[CurrentBlock(st).text].BlockRule? ==>
      && o.Handled?
      && CurrentBlock(o.state).kind ==
         (if CurrentBlock(st).kind == HeaderOne then Unstyled else HeaderOne)
      && CurrentInlineStyle(o.state) == CurrentInlineStyle(RemoveTrigger(st, |CurrentBlock(st).text|))
      && o.state.changes == st.changes + [RemoveRange, ChangeBlockType]
    // The inline triggers toggle every style active before the keystroke,
    // then toggle the trigger's own style; the block type is kept.
    ensures c == ' ' && CurrentBlock(st).text in Triggers && Triggers[CurrentBlock(st).text].InlineRule? ==>
      var text := CurrentBlock(st).text;
      && o.Handled?
      && CurrentBlock(o.state).kind == CurrentBlock(st).kind
      && CurrentInlineStyle(o.state) ==
         SymDiff(SymDiff(CurrentInlineStyle(RemoveTrigger(st, |text|)), CurrentInlineStyle(st)),
                 {Triggers[text].style})
      && (CurrentInlineStyle(RemoveTrigger(st, |text|)) == CurrentInlineStyle(st) ==>
            CurrentInlineStyle(o.state) == {Triggers[text].style})
      && o.state.changes == st.changes + [RemoveRange]
  {
    match Classify(CurrentBlock(st).text, c)
    case Capitalise(upper) => Handled(InsertCharacter(st, upper))
    case BlockRule(kind, len) => Handled(ApplyBlockStyle(st, kind, len))
    case InlineRule(style, len) => Handled(ApplyInlineStyle(st, style, len))
    case NoRule => NotHandled
  }

  /** The editor's handling of one keystroke: the handler runs first, and a
      character it does not handle is inserted by the editor itself. */
  function TypeCharacter(st: EditorState, c: char): (r: EditorState)
    requires Valid(st)
    ensures Valid(r)
    ensures CurrentIndex(r) == CurrentIndex(st)
    ensures OthersUnchanged(st, r)
    ensures Classify(CurrentBlock(st).text, c) == NoRule ==> r == InsertCharacter(st, c)
    ensures c == ' ' && CurrentBlock(st).text == "#" ==>
      && CurrentBlock(r).text == []
      && CurrentBlock(r).kind == (if CurrentBlock(st).kind == HeaderOne then Unstyled else HeaderOne)
  {
    match HandleBeforeInput(st, c)
    case Handled(r) => r
    case NotHandled => InsertCharacter(st, c)
  }

  /** The editor's handling of a sequence of keystrokes, one at a time. */
  function TypeText(st: EditorState, s: string): (r: EditorState)
    requires Valid(st)
    ensures Valid(r)
    ensures CurrentIndex(r) == CurrentIndex(st)
    ensures OthersUnchanged(st, r)
    decreases |s|
  {
    if s == [] then st else TypeText(TypeCharacter(st, s[0]), s[1..])
  }

  /** Typing `a` then `b` is typing `a + b`. */
  lemma {:induction false} TypeTextAppend(st: EditorState, a: string, b: string)
    requires Valid(st)
    ensures TypeText(st, a + b) == TypeText(TypeText(st, a), b)
    decreases |a|
  {
    if a == [] {
      assert a + b == b;
    } else {
      var st1 := TypeCharacter(st, a[0]);
      assert (a + b)[0] == a[0] && (a + b)[1..] == a[1..] + b;
      assert TypeText(st, a + b) == TypeText(st1, a[1..] + b);
      TypeTextAppend(st1, a[1..], b);
      assert TypeText(st, a) == TypeText(st1, a[1..]);
    }
  }

  /** Typing a one-character string is one keystroke. */
  lemma TypeTextOne(st: EditorState, c: char)
    requires Valid(st)
    ensures TypeText(st, [c]) == TypeCharacter(st, c)
  {
    assert [c][1..] == [];
  }

  /** Appends `s` at the caret one character at a time, as the editor does
      for keystrokes the handler leaves alone. */
  function AppendText(st: EditorState, s: string): (r: EditorState)
    requires Valid(st)
    ensures Valid(r)
    ensures CurrentIndex(r) == CurrentIndex(st)
    ensures OthersUnchanged(st, r)
    decreases |s|
  {
    if s == [] then st else AppendText(InsertCharacter(st, s[0]), s[1..])
  }

  /** Text appended at the end of a line follows the existing text, the
      block type is kept and the caret stays at the end of the line. */
  lemma {:induction false} AppendTextAtEnd(st: EditorState, s: string)
    requires Valid(st)
    requires st.selection.offset == |CurrentBlock(st).text|
    ensures var r := AppendText(st, s);
      && CurrentBlock(r).text == CurrentBlock(st).text + s
      && CurrentBlock(r).kind == CurrentBlock(st).kind
      && r.selection.offset == |CurrentBlock(r).text|
    decreases |s|
  {
    if s != [] {
      var b := CurrentBlock(st);
      AppendTextAtEnd(InsertCharacter(st, s[0]), s[1..]);
      SplitFirst(b.text, s);
    }
  }

  /** Appending text keeps the style active at the caret, and once a
      character is appended no override is left. */
  lemma {:induction false} AppendTextKeepsStyle(st: EditorState, s: string)
    requires Valid(st)
    ensures CurrentInlineStyle(AppendText(st, s)) == CurrentInlineStyle(st)
    ensures |s| > 0 ==> AppendText(st, s).override == None
    decreases |s|
  {
    if s != [] {
      AppendTextKeepsStyle(InsertCharacter(st, s[0]), s[1..]);
    }
  }

  /** Every character appended at the end of a line carries the style
      active before the first of them; the styles already there are kept. */
  lemma {:induction false} AppendTextStyles(st: EditorState, s: string)
    requires Valid(st)
    requires st.selection.offset == |CurrentBlock(st).text|
    ensures CurrentBlock(AppendText(st, s)).styles ==
      CurrentBlock(st).styles + seq(|s|, _ => CurrentInlineStyle(st))
    decreases |s|
  {
    if s != [] {
      var b := CurrentBlock(st);
      var style := CurrentInlineStyle(st);
      AppendTextStyles(InsertCharacter(st, s[0]), s[1..]);
      SplitFirst(b.styles, seq(|s|, _ => style));
      assert seq(|s|, _ => style)[1..] == seq(|s| - 1, _ => style);
    }
  }

  /** Appending a non-empty sequence appends its first element, then the
      rest. */
  lemma SplitFirst<T>(a: seq<T>, s: seq<T>)
    requires s != []
    ensures a + s == a + [s[0]] + s[1..]
  {
    assert s == [s[0]] + s[1..];
  }

  /** Text without spaces typed at the end of a line, and not starting with
      a lowercase letter when the line is empty, is never handled: the
      editor appends it as typed. */
  lemma {:induction false} TypingPlainText(st: EditorState, s: string)
    requires Valid(st)
    requires st.selection.offset == |CurrentBlock(st).text|
    requires forall k :: 0 <= k < |s| ==> s[k] != ' '
    requires |CurrentBlock(st).text| > 0 || |s| == 0 || !IsLower(s[0])
    ensures TypeText(st, s) == AppendText(st, s)
    decreases |s|
  {
    if s != [] {
      OtherKeystrokesIgnored(CurrentBlock(st).text, s[0]);
      var st1 := InsertCharacter(st, s[0]);
      assert TypeCharacter(st, s[0]) == st1;
      AppendTextAtEnd(st, [s[0]]);
      assert AppendText(st, [s[0]]) == st1;
      TypingPlainText(st1, s[1..]);
    }
  }

  /** On an empty line, typing "#" and a space toggles the line to a
      heading (or back to unstyled) and leaves it empty. */
  lemma HeadingTriggerOnEmptyLine(st: EditorState)
    requires Valid(st)
    requires CurrentBlock(st).text == []
    ensures var r := TypeText(st, "# ");
      && CurrentIndex(r) == CurrentIndex(st)
      && CurrentBlock(r).text == []
      && r.selection.offset == 0
      && CurrentBlock(r).kind == (if CurrentBlock(st).kind == HeaderOne then Unstyled else HeaderOne)
  {
    HeadingScenarioText();
    OtherKeystrokesIgnored([], '#');
    var a := TypeCharacter(st, '#');
    assert CurrentBlock(a).text == "#";
    TypeTextOne(st, '#');
    TypeTextOne(a, ' ');
    TypeTextAppend(st, "#", " ");
  }

  /** On an empty, unstyled line, typing "# Title" gives a heading whose
      text is "Title": the first two keystrokes make the heading, and the
      capital T is left to the editor. */
  lemma HeadingScenario(st: EditorState)
    requires Valid(st)
    requires CurrentBlock(st).text == [] && CurrentBlock(st).kind == Unstyled
    ensures var r := TypeText(st, "# Title");
      && |r.blocks| == |st.blocks|
      && CurrentBlock(r).text == "Title"
      && CurrentBlock(r).kind == HeaderOne
  {
    HeadingScenarioText();
    HeadingTriggerOnEmptyLine(st);
    var b := TypeText(st, "# ");
    TypeTextAppend(st, "# ", "Title");
    TypingPlainText(b, "Title");
    AppendTextAtEnd(b, "Title");
  }

  /** How the scenario's keystrokes split; "Title" holds no space and does
      not start with a lowercase letter. */
  lemma HeadingScenarioText()
    ensures "#" + " " == "# " && "# " + "Title" == "# Title"
    ensures (forall k :: 0 <= k < |"Title"| ==> "Title"[k] != ' ') && !IsLower('T')
  {
  }

  /** Text appended to an empty line with no override carries the style
      found above the line; deleting all of it again brings back that same
      style, so the active style before and after the deletion agree. */
  lemma ErasingFreshTextKeepsStyle(st: EditorState, s: string)
    requires Valid(st)
    requires CurrentBlock(st).text == [] && st.override == None
    requires s != []
    ensures var typed := AppendText(st, s);
      && CurrentBlock(typed).text == s
      && CurrentInlineStyle(RemoveTrigger(typed, |s|)) == CurrentInlineStyle(typed)
  {
    AppendTextAtEnd(st, s);
    AppendTextKeepsStyle(st, s);
    var i := CurrentIndex(st);
    var typed := AppendText(st, s);
    assert CurrentInlineStyle(typed) == StyleAbove(st.blocks, i);
    var removed := RemoveTrigger(typed, |s|);
    assert CurrentBlock(removed).text == [];
    assert forall j :: 0 <= j < i ==> removed.blocks[j] == st.blocks[j];
    StyleAboveOnlyLooksUp(removed.blocks, st.blocks, i);
  }

  /** On a fresh line, with no override set, typing an inline trigger and
      then a space leaves exactly the trigger's style active: the trigger's
      characters carry the style found above the line, which is the style
      the line shows again once they are removed. */
  lemma InlineTriggerOnFreshLine(st: EditorState, trigger: string)
    requires Valid(st)
    requires CurrentBlock(st).text == [] && st.override == None
    requires trigger in Triggers && Triggers[trigger].InlineRule?
    ensures var o := HandleBeforeInput(TypeText(st, trigger), ' ');
      && o.Handled?
      && CurrentBlock(o.state).text == []
      && CurrentInlineStyle(o.state) == {Triggers[trigger].style}
    ensures var r := TypeText(st, trigger + " ");
      && CurrentIndex(r) == CurrentIndex(st)
      && CurrentBlock(r).text == []
      && CurrentInlineStyle(r) == {Triggers[trigger].style}
  {
    assert trigger == "*" || trigger == "**" || trigger == "***";
    assert forall k :: 0 <= k < |trigger| ==> trigger[k] == '*';
    TypingPlainText(st, trigger);
    ErasingFreshTextKeepsStyle(st, trigger);
    TypeTextAppend(st, trigger, " ");
    TypeTextOne(TypeText(st, trigger), ' ');
  }

  /** The active style after an inline trigger need not be the requested
      one. On an empty first line, typing "**" and a space makes RED
      active; a "*" typed next is red, and a space after it asks for BOLD.
      The handler toggles red, the style before the keystroke, on the
      emptied line, where no style is active: red comes on, then bold. */
  lemma RedThenBoldOnFirstLine(st: EditorState)
    requires Valid(st)
    requires CurrentIndex(st) == 0 && CurrentBlock(st).text == [] && st.override == None
    ensures CurrentInlineStyle(TypeText(st, "** * ")) == {Red, Bold}
  {
    InlineTriggerOnFreshLine(st, "**");
    RedThenBoldFacts();
    TypeTextAppend(st, "** ", "* ");
    BoldTriggerOnFirstLine(TypeText(st, "** "));
  }

  /** How the keystrokes of RedThenBoldOnFirstLine split, and the style
      they end in. */
  lemma RedThenBoldFacts()
    ensures "**" + " " == "** " && "** " + "* " == "** * "
    ensures SymDiff({Red}, {Bold}) == {Red, Bold}
  {
  }

  /** On the first line of the document, emptied, a "*" typed in the active
      style S and then a space leave S with BOLD toggled: the handler
      toggles S off where the emptied line shows no style, which turns S
      back on. */
  lemma BoldTriggerOnFirstLine(st: EditorState)
    requires Valid(st)
    requires CurrentIndex(st) == 0 && CurrentBlock(st).text == []
    ensures CurrentInlineStyle(TypeText(st, "* ")) == SymDiff(CurrentInlineStyle(st), {Bold})
  {
    TypingPlainText(st, "*");
    AppendTextAtEnd(st, "*");
    AppendTextKeepsStyle(st, "*");
    var c := AppendText(st, "*");
    assert CurrentBlock(c).text == "*";
    assert CurrentInlineStyle(RemoveTrigger(c, 1)) == {};
    assert SymDiff(SymDiff({}, CurrentInlineStyle(st)), {Bold}) == SymDiff(CurrentInlineStyle(st), {Bold});
    TypeTextAppend(st, "*", " ");
    TypeTextOne(c, ' ');
  }

  /** The same with a line above: that line ends in bold text and a "*"
      typed in red is the whole current line; a space then asks for BOLD.
      The handler toggles red on the emptied line, where the bold found
      above is active: bold goes off, red comes on. */
  lemma BoldTriggerAfterRedStar()
    ensures var st := EditorState(
        [Block("a", "Hi", [{Bold}, {Bold}], Unstyled), Block("b", "*", [{Red}], Unstyled)],
        Caret("b", 1), None, []);
      && Valid(st)
      && HandleBeforeInput(st, ' ').Handled?
      && CurrentInlineStyle(HandleBeforeInput(st, ' ').state) == {Red}
  {
    var above := Block("a", "Hi", [{Bold}, {Bold}], Unstyled);
    var line := Block("b", "*", [{Red}], Unstyled);
    var st := EditorState([above, line], Caret("b", 1), None, []);
    CaretAt(st, 1);
    assert CurrentInlineStyle(st) == {Red};
    assert StyleAbove(RemoveTrigger(st, 1).blocks, 1) == {Bold};
    assert SymDiff(SymDiff({Bold}, {Red}), {Bold}) == {Red};
  }
}
