/** The command that cycles the configured view mode. */
module SwitchViewMode {

  datatype ViewMode = Hover | Panel | Inline {
    function Name(): string {
      match this
      case Hover => "hover"
      case Panel => "panel"
      case Inline => "inline"
    }
  }

  const ViewModes: seq<ViewMode> := [Hover, Panel, Inline]

  /** `VIEW_MODES.indexOf(current)`: the index of the mode named `current`, or -1. */
  function IndexOfName(modes: seq<ViewMode>, current: string): (i: int)
    ensures -1 <= i < |modes|
    ensures i >= 0 ==> modes[i].Name() == current && forall k :: 0 <= k < i ==> modes[k].Name() != current
    ensures i == -1 <==> forall k :: 0 <= k < |modes| ==> modes[k].Name() != current
  {
    if modes == [] then -1
    else if modes[0].Name() == current then 0
    else
      var i := IndexOfName(modes[1..], current);
      if i < 0 then -1 else i + 1
  }

  /** `nextViewMode`: the mode after `current` in the cycle, or `hover` for an unknown name. */
  function NextViewMode(current: string): (m: ViewMode)
    ensures current !in {"hover", "panel", "inline"} ==> m == Hover
  {
    var idx := IndexOfName(ViewModes, current);
    var nextIdx := if idx < 0 then 0 else (idx + 1) % |ViewModes|;
    ViewModes[nextIdx]
  }

  /** The modes cycle hover, panel, inline, hover. */
  lemma NextViewModeCycle()
    ensures NextViewMode("hover") == Panel
    ensures NextViewMode("panel") == Inline
    ensures NextViewMode("inline") == Hover
  {
    assert ViewModes[0].Name() == "hover";
    assert ViewModes[1].Name() == "panel" && ViewModes[0].Name() != "panel";
    assert ViewModes[2].Name() == "inline" && ViewModes[0].Name() != "inline" && ViewModes[1].Name() != "inline";
  }

  /** Switching three times from a known mode comes back to it. */
  lemma NextViewModeThrice(m: ViewMode)
    ensures NextViewMode(NextViewMode(NextViewMode(m.Name()).Name()).Name()) == m
  {
    NextViewModeCycle();
  }
}
