/** A small, closed model of the editor framework's state and of the four
    framework operations the application calls: replacing a text range,
    pushing a change, toggling an inline style and toggling a block type.
    Only the single-caret behaviour the application relies on is modelled. */
module Content {
  import opened Styles

  datatype Option<+T> = None | Some(value: T)

  /** One line of the document: its key, its text, the inline styles of each
      character (one set per character) and its block type. */
  datatype Block = Block(key: string, text: string, styles: seq<set<Style>>, kind: BlockType)

  /** A collapsed selection: the caret sits in block `key` before character
      `offset`. */
  datatype Selection = Caret(key: string, offset: nat)

  /** A content change: the new document together with the caret after it. */
  datatype Change = Change(blocks: seq<Block>, selectionAfter: Selection)

  /** The editor state: the document, the caret, the inline-style override
      (the style set chosen for the next typed character, if any) and the
      tags of all changes pushed so far, most recent last. */
  datatype EditorState = EditorState(
    blocks: seq<Block>,
    selection: Selection,
    override: Option<set<Style>>,
    changes: seq<ChangeType>)

  predicate WellFormed(b: Block) {
    |b.styles| == |b.text|
  }

  predicate HasKey(bs: seq<Block>, key: string) {
    exists j :: 0 <= j < |bs| && bs[j].key == key
  }

  predicate UniqueKeys(bs: seq<Block>) {
    forall i, j :: 0 <= i < j < |bs| ==> bs[i].key != bs[j].key
  }

  /** The position of the first block with the given key. */
  function IndexOf(bs: seq<Block>, key: string): (i: nat)
    requires HasKey(bs, key)
    ensures i < |bs| && bs[i].key == key
    ensures forall j :: 0 <= j < i ==> bs[j].key != key
  {
    if bs[0].key == key then 0
    else
      assert HasKey(bs[1..], key) by {
        var j :| 0 <= j < |bs| && bs[j].key == key;
        assert bs[1..][j - 1] == bs[j];
      }
      1 + IndexOf(bs[1..], key)
  }

  /** The state the framework hands to the application: keys are unique,
      every block carries one style set per character, and the caret points
      into an existing block at an offset within its text. */
  predicate Valid(st: EditorState) {
    && UniqueKeys(st.blocks)
    && (forall j :: 0 <= j < |st.blocks| ==> WellFormed(st.blocks[j]))
    && HasKey(st.blocks, st.selection.key)
    && st.selection.offset <= |st.blocks[IndexOf(st.blocks, st.selection.key)].text|
  }

  /** The index of the block holding the caret; no other block has its key. */
  function CurrentIndex(st: EditorState): (i: nat)
    requires Valid(st)
    ensures i < |st.blocks| && st.blocks[i].key == st.selection.key
    ensures forall j :: 0 <= j < |st.blocks| && st.blocks[j].key == st.selection.key ==> j == i
  {
    IndexOf(st.blocks, st.selection.key)
  }

  /** A state whose caret block is found at position `i` is valid when keys
      are unique, blocks are well formed and the caret offset fits. */
  lemma CaretAt(st: EditorState, i: nat)
    requires UniqueKeys(st.blocks)
    requires forall j :: 0 <= j < |st.blocks| ==> WellFormed(st.blocks[j])
    requires i < |st.blocks| && st.blocks[i].key == st.selection.key
    requires st.selection.offset <= |st.blocks[i].text|
    ensures Valid(st) && CurrentIndex(st) == i
  {
    assert HasKey(st.blocks, st.selection.key);
  }

  function CurrentBlock(st: EditorState): Block
    requires Valid(st)
  {
    st.blocks[CurrentIndex(st)]
  }

  /** Every block except the caret's block is the same in `st` and `r`. */
  predicate OthersUnchanged(st: EditorState, r: EditorState)
    requires Valid(st)
  {
    && |r.blocks| == |st.blocks|
    && forall j :: 0 <= j < |st.blocks| && j != CurrentIndex(st) ==> r.blocks[j] == st.blocks[j]
  }

  /** The style of the last character of the nearest non-empty block above
      block `i`, or no style when there is none. */
  function StyleAbove(bs: seq<Block>, i: nat): set<Style>
    requires i <= |bs|
    requires forall j :: 0 <= j < |bs| ==> WellFormed(bs[j])
  {
    if i == 0 then {}
    else if |bs[i - 1].text| > 0 then
      assert WellFormed(bs[i - 1]);
      bs[i - 1].styles[|bs[i - 1].styles| - 1]
    else StyleAbove(bs, i - 1)
  }

  /** The style found above block `i` is that of the last character of the
      nearest non-empty block above it, and no style when all blocks above
      are empty. */
  lemma {:induction false} StyleAboveIsNearest(bs: seq<Block>, i: nat)
    requires i <= |bs|
    requires forall j :: 0 <= j < |bs| ==> WellFormed(bs[j])
    ensures (forall j :: 0 <= j < i ==> |bs[j].text| == 0) ==> StyleAbove(bs, i) == {}
    ensures forall j ::
      (0 <= j < i && 0 < |bs[j].text| == |bs[j].styles| && forall m :: j < m < i ==> |bs[m].text| == 0)
      ==> StyleAbove(bs, i) == bs[j].styles[|bs[j].styles| - 1]
  {
    if i > 0 && |bs[i - 1].text| == 0 {
      StyleAboveIsNearest(bs, i - 1);
    }
  }

  /** The style found above block `i` depends only on the blocks before it. */
  lemma {:induction false} StyleAboveOnlyLooksUp(bs: seq<Block>, bs': seq<Block>, i: nat)
    requires i <= |bs| && i <= |bs'|
    requires forall j :: 0 <= j < |bs| ==> WellFormed(bs[j])
    requires forall j :: 0 <= j < |bs'| ==> WellFormed(bs'[j])
    requires forall j :: 0 <= j < i ==> bs[j].text == bs'[j].text && bs[j].styles == bs'[j].styles
    ensures StyleAbove(bs, i) == StyleAbove(bs', i)
  {
    if i > 0 && |bs[i - 1].text| == 0 {
      StyleAboveOnlyLooksUp(bs, bs', i - 1);
    }
  }

  /** The inline style active at the caret: the override when one is set;
      otherwise the style of the character before the caret, or of the
      block's first character when the caret is at its start, or, in an
      empty block, the style found above it. */
  function CurrentInlineStyle(st: EditorState): (r: set<Style>)
    requires Valid(st)
    ensures st.override.Some? ==> r == st.override.value
    ensures st.override.None? && |CurrentBlock(st).text| > 0 ==>
      exists k :: 0 <= k < |CurrentBlock(st).styles| && r == CurrentBlock(st).styles[k]
    ensures st.override.None? && st.selection.offset > 0 ==>
      |CurrentBlock(st).styles| >= st.selection.offset &&
      r == CurrentBlock(st).styles[st.selection.offset - 1]
    ensures st.override.None? && st.selection.offset == 0 < |CurrentBlock(st).text| ==>
      |CurrentBlock(st).styles| > 0 && r == CurrentBlock(st).styles[0]
    ensures st.override.None? && |CurrentBlock(st).text| == 0 ==>
      r == StyleAbove(st.blocks, CurrentIndex(st))
  {
    match st.override
    case Some(s) => s
    case None =>
      var b := CurrentBlock(st);
      assert WellFormed(b);
      if st.selection.offset > 0 then b.styles[st.selection.offset - 1]
      else if |b.text| > 0 then b.styles[0]
      else StyleAbove(st.blocks, CurrentIndex(st))
  }

  /** Replaces characters [from, to) of the caret's block by `s`, every
      inserted character carrying `style`; the caret ends after the
      inserted text. */
  function ReplaceText(st: EditorState, from: nat, to: nat, s: string, style: set<Style>): (c: Change)
    requires Valid(st)
    requires from <= to <= |CurrentBlock(st).text|
    ensures |c.blocks| == |st.blocks|
    ensures forall j :: 0 <= j < |st.blocks| && j != CurrentIndex(st) ==> c.blocks[j] == st.blocks[j]
    ensures var b := c.blocks[CurrentIndex(st)];
      && b.key == st.selection.key
      && b.kind == CurrentBlock(st).kind
      && b.text == CurrentBlock(st).text[..from] + s + CurrentBlock(st).text[to..]
      && WellFormed(b)
      && b.styles[..from] == CurrentBlock(st).styles[..from]
      && (forall k :: from <= k < from + |s| ==> b.styles[k] == style)
      && b.styles[from + |s|..] == CurrentBlock(st).styles[to..]
    ensures c.selectionAfter == Caret(st.selection.key, from + |s|)
  {
    var i := CurrentIndex(st);
    var b := st.blocks[i];
    var inserted := seq(|s|, _ => style);
    var b' := b.(text := b.text[..from] + s + b.text[to..],
                 styles := b.styles[..from] + inserted + b.styles[to..]);
    assert b'.styles[from + |s|..] == b.styles[to..];
    Change(st.blocks[i := b'], Caret(st.selection.key, from + |s|))
  }

  /** Whether a push of this kind keeps the inline-style override; every
      change the application pushes except a block-type change drops it. */
  predicate KeepsOverride(tag: ChangeType) {
    tag == ChangeBlockType
  }

  /** Records a content change: the new document and caret replace the old
      ones and `tag` is appended to the history. */
  function Push(st: EditorState, c: Change, tag: ChangeType): (r: EditorState)
    ensures r.blocks == c.blocks && r.selection == c.selectionAfter
    ensures |r.changes| == |st.changes| + 1
    ensures r.changes[..|st.changes|] == st.changes && r.changes[|st.changes|] == tag
    ensures r.override.Some? ==> tag == ChangeBlockType && r.override == st.override
    ensures tag == ChangeBlockType ==> r.override == st.override
  {
    EditorState(c.blocks, c.selectionAfter, if KeepsOverride(tag) then st.override else None, st.changes + [tag])
  }

  /** Toggles `s` in the style for the next typed character: the caret is
      collapsed, so only the override changes and the document does not. */
  function ToggleInlineStyle(st: EditorState, s: Style): (r: EditorState)
    requires Valid(st)
    ensures Valid(r)
    ensures r.blocks == st.blocks && r.selection == st.selection && r.changes == st.changes
    ensures s in CurrentInlineStyle(r) <==> s !in CurrentInlineStyle(st)
    ensures forall t :: t != s ==> (t in CurrentInlineStyle(r) <==> t in CurrentInlineStyle(st))
  {
    st.(override := Some(SymDiff(CurrentInlineStyle(st), {s})))
  }

  /** Sets the caret block's type to `t`, or back to "unstyled" when it
      already is `t`, and records a block-type change. */
  function ToggleBlockType(st: EditorState, t: BlockType): (r: EditorState)
    requires Valid(st)
    ensures Valid(r)
    ensures CurrentIndex(r) == CurrentIndex(st)
    ensures CurrentBlock(st).kind == t ==> CurrentBlock(r).kind == Unstyled
    ensures CurrentBlock(st).kind != t ==> CurrentBlock(r).kind == t
    ensures CurrentBlock(r) == CurrentBlock(st).(kind := CurrentBlock(r).kind)
    ensures OthersUnchanged(st, r)
    ensures r.selection == st.selection && r.override == st.override
    ensures CurrentInlineStyle(r) == CurrentInlineStyle(st)
    ensures r.changes == st.changes + [ChangeBlockType]
  {
    var i := CurrentIndex(st);
    var b := st.blocks[i];
    var typeToSet := if b.kind == t then Unstyled else t;
    var r := Push(st, Change(st.blocks[i := b.(kind := typeToSet)], st.selection), ChangeBlockType);
    assert forall j :: 0 <= j < |r.blocks| ==> r.blocks[j].key == st.blocks[j].key;
    CaretAt(r, i);
    StyleAboveOnlyLooksUp(st.blocks, r.blocks, i);
    r
  }
}
