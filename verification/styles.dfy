/** Inline styles, block types and change tags the editor works with, and the
    custom style map handed to the renderer (src/App.js:110-113). */
module Styles {

  /** An inline style identifier. The triggers only ever request BOLD, RED
      and UNDERLINE; a document restored from storage may carry any other
      identifier, which is `Named`. The framework compares identifiers as
      raw strings, so a `Named` style never carries "BOLD", "RED" or
      "UNDERLINE": those are always `Bold`, `Red` and `Underline`
      (`Canonical`). */
  datatype Style = Bold | Red | Underline | Named(name: string)

  /** A block type tag: "unstyled", "header-one", or any other tag a
      restored document may carry. An `OtherType` never carries
      "unstyled" or "header-one" (`CanonicalType`). */
  datatype BlockType = Unstyled | HeaderOne | OtherType(name: string)

  /** No style identifier has two representations. */
  predicate Canonical(s: Style) {
    s.Named? ==> s.name != "BOLD" && s.name != "RED" && s.name != "UNDERLINE"
  }

  /** No block type tag has two representations. */
  predicate CanonicalType(t: BlockType) {
    t.OtherType? ==> t.name != "unstyled" && t.name != "header-one"
  }

  /** The tag recorded with every change pushed onto the editor's history,
      used by the host for undo bucketing. */
  datatype ChangeType = InsertCharacters | RemoveRange | ChangeBlockType

  /** Symmetric difference: the styles active in exactly one of `a` and `b`.
      Toggling every style of `b` on top of `a` yields this set. */
  function SymDiff(a: set<Style>, b: set<Style>): (r: set<Style>)
    ensures forall s :: s in r <==> (s in a <==> s !in b)
  {
    (a - b) + (b - a)
  }

  /** How the renderer draws a custom inline style. */
  datatype Descriptor = Color(color: string) | TextDecoration(decoration: string)

  /** The custom style map: RED draws red text, UNDERLINE draws underlined
      text. BOLD needs no entry; the editor's default style map covers it. */
  const CustomStyleMap: map<Style, Descriptor> :=
    map[Red := Color("red"), Underline := TextDecoration("underline")]
}
