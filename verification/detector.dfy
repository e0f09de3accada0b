/** The trigger detector of handleBeforeInput (src/App.js:26-63): from the
    text of the caret's block and the character about to be typed, decide
    which rule, if any, takes over the keystroke. */
module Detector {
  import opened Styles

  /** The rule a keystroke fires. `Capitalise` inserts `upper` in place of the
      typed letter; `BlockRule` and `InlineRule` consume the first `len`
      characters of the block and apply `kind` or `style`. */
  datatype Rule =
    | Capitalise(upper: char)
    | BlockRule(kind: BlockType, len: nat)
    | InlineRule(style: Style, len: nat)
    | NoRule

  predicate IsLower(c: char) {
    'a' <= c <= 'z'
  }

  /** The capital letter with the same place in the alphabet as `c`. */
  function Upper(c: char): (u: char)
    requires IsLower(c)
    ensures 'A' <= u <= 'Z'
    ensures u as int - 'A' as int == c as int - 'a' as int
  {
    (c as int - 32) as char
  }

  /** The detector, in the order the source tests its rules: capitalisation of
      the first letter of an empty line, then the four exact triggers. */
  function Classify(text: string, c: char): (r: Rule)
    ensures r.Capitalise? ==> |text| == 0 && IsLower(c)
    ensures (r.BlockRule? || r.InlineRule?) ==> c == ' ' && r.len == |text| > 0
    ensures r.BlockRule? ==> r.kind == HeaderOne
    ensures (r.BlockRule? || r.InlineRule?) ==> text in Triggers && Triggers[text] == r
    ensures c == ' ' && text in Triggers ==> r == Triggers[text]
  {
    if |text| == 0 && IsLower(c) then Capitalise(Upper(c))
    else if text == "#" && c == ' ' then BlockRule(HeaderOne, 1)
    else if text == "*" && c == ' ' then InlineRule(Bold, 1)
    else if text == "**" && c == ' ' then InlineRule(Red, 2)
    else if text == "***" && c == ' ' then InlineRule(Underline, 3)
    else NoRule
  }

  /** The trigger table: each trigger string and the transformation a space
      typed after it requests. */
  const Triggers: map<string, Rule> := map[
    "#" := BlockRule(HeaderOne, 1),
    "*" := InlineRule(Bold, 1),
    "**" := InlineRule(Red, 2),
    "***" := InlineRule(Underline, 3)]

  /** Whether rule `r` applies to typing `c` into a block holding `text`,
      judged from that rule's own condition alone, without regard to any
      other rule. */
  predicate Fires(r: Rule, text: string, c: char) {
    match r
    case Capitalise(u) => |text| == 0 && IsLower(c) && u == Upper(c)
    case NoRule => false
    case _ => c == ' ' && text in Triggers && Triggers[text] == r
  }

  /** Every trigger is non-empty and asks for the removal of exactly its own
      characters; every inline style a trigger requests can be drawn, BOLD by
      the editor's defaults and the others through the custom style map. */
  lemma TriggerTableShape()
    ensures forall t :: t in Triggers ==> |t| > 0 && (Triggers[t].BlockRule? || Triggers[t].InlineRule?)
    ensures forall t :: t in Triggers ==> Triggers[t].len == |t|
    ensures forall t :: t in Triggers && Triggers[t].InlineRule? ==>
      Triggers[t].style == Bold || Triggers[t].style in CustomStyleMap
    ensures forall t :: t in Triggers && Triggers[t].InlineRule? ==> Canonical(Triggers[t].style)
    ensures forall t :: t in Triggers && Triggers[t].BlockRule? ==> CanonicalType(Triggers[t].kind)
  {
  }

  /** No two rules apply to the same keystroke: capitalisation needs an empty
      line while every trigger is non-empty, and the triggers are distinct
      strings. So the order in which the source tests them is immaterial. */
  lemma RulesExclusive(r1: Rule, r2: Rule, text: string, c: char)
    requires Fires(r1, text, c) && Fires(r2, text, c)
    ensures r1 == r2
  {
    TriggerTableShape();
  }

  /** The detector picks exactly the rule whose own condition holds, and
      reports no rule exactly when none does. */
  lemma ClassifyIsTheFiringRule(text: string, c: char)
    ensures Classify(text, c) != NoRule ==> Fires(Classify(text, c), text, c)
    ensures forall r :: Fires(r, text, c) ==> Classify(text, c) == r
  {
    TriggerTableShape();
    forall r | Fires(r, text, c)
      ensures Classify(text, c) == r
    {
      if !r.Capitalise? {
        assert text in Triggers;
      }
    }
  }

  /** A space typed into a block holding exactly a trigger fires that
      trigger's entry of the table. */
  lemma ClassifyOnTrigger(text: string)
    requires text in Triggers
    ensures Classify(text, ' ') == Triggers[text]
  {
    ClassifyIsTheFiringRule(text, ' ');
    TriggerTableShape();
  }

  /** Only a block whose whole text is a trigger reacts to a space: a trigger
      typed after other text is not recognised. */
  lemma ExactMatchOnly(prefix: string, trigger: string, c: char)
    requires trigger in Triggers
    requires exists i :: 0 <= i < |prefix| && prefix[i] != '*'
    ensures Classify(prefix + trigger, c) == NoRule
  {
    TriggerTableShape();
    var i :| 0 <= i < |prefix| && prefix[i] != '*';
    var t := prefix + trigger;
    assert t[i] == prefix[i];
    assert |t| > |trigger|;
  }

  /** A space typed anywhere other than in a block that holds exactly a
      trigger, any other character typed into a non-empty block, and any
      character but a lowercase letter typed into an empty one, are left to
      the editor. */
  lemma OtherKeystrokesIgnored(text: string, c: char)
    requires (c == ' ' && text !in Triggers) || (c != ' ' && (|text| > 0 || !IsLower(c)))
    ensures Classify(text, c) == NoRule
  {
  }

  /** Examples of keystrokes the detector leaves alone. */
  lemma NotHandledExamples()
    ensures Classify("x#", ' ') == NoRule
    ensures Classify("ab*", ' ') == NoRule
    ensures Classify("#", 'a') == NoRule
    ensures Classify("", ' ') == NoRule
    ensures Classify("****", ' ') == NoRule
    ensures Classify("", 'A') == NoRule
  {
  }
}
