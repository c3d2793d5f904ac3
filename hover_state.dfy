/**
 * What the hover shows: the last translation with where it applies, and
 * whether the hover is switched on.
 */
module HoverState {
  import opened Wrappers

  /** A zero-based line and column in a document. */
  datatype Position = Position(line: nat, character: nat) {
    /** `compareTo`: negative, zero or positive as this lies before, at or after `other`. */
    function CompareTo(other: Position): (c: int)
      ensures c == 0 <==> this == other
      ensures c < 0 <==> Before(this, other)
      ensures c > 0 <==> Before(other, this)
    {
      if line < other.line then -1
      else if line > other.line then 1
      else if character < other.character then -1
      else if character > other.character then 1
      else 0
    }
  }

  /** Document order: an earlier line, or the same line and an earlier column. */
  predicate Before(a: Position, b: Position) {
    a.line < b.line || (a.line == b.line && a.character < b.character)
  }

  datatype Range = Range(start: Position, end: Position)

  /** The translated text, the range it came from, the language pair and the document. */
  datatype HoverStateData = HoverStateData(
    text: string, range: Range, from: string, to: string, docUri: string, normalized: Option<bool>)

  /** `createHoverState`'s two variables and the closures over them. */
  class HoverStateController {
    var state: Option<HoverStateData>
    var shouldShowHover: bool

    /** No state, hover off. */
    constructor()
      ensures state == None && !shouldShowHover
    {
      state := None;
      shouldShowHover := false;
    }

    /** `setState`: the data stored, the flag untouched. */
    method SetState(data: HoverStateData)
      modifies this
      ensures state == Some(data) && shouldShowHover == old(shouldShowHover)
    {
      state := Some(data);
    }

    /** `getState`: the last data set since the last reset. */
    method GetState() returns (r: Option<HoverStateData>)
      ensures r == state
    {
      r := state;
    }

    /** `setShouldShowHover`: the flag set, the data untouched. */
    method SetShouldShowHover(value: bool)
      modifies this
      ensures shouldShowHover == value && state == old(state)
    {
      shouldShowHover := value;
    }

    /** `getShouldShowHover`: the last flag set since the last reset. */
    method GetShouldShowHover() returns (r: bool)
      ensures r == shouldShowHover
    {
      r := shouldShowHover;
    }

    /** `reset`: back to the initial state. */
    method Reset()
      modifies this
      ensures state == None && !shouldShowHover
    {
      state := None;
      shouldShowHover := false;
    }
  }
}
