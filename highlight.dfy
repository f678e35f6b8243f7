/**
 * The events a syntax highlighter yields (`language/syntax.rs`): a span of
 * source bytes, or the start or end of a highlight, which nest like
 * brackets.
 */
module Highlights {
  /** A highlight is the index of a capture name in the theme's scope list. */
  type Highlight = nat

  datatype HighlightEvent =
    | Source(start: nat, end: nat)
    | HighlightStart(highlight: Highlight)
    | HighlightEnd
}
