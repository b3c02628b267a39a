/** The responsive navigation controller of `setupNavToggle` (index.js:5-151).
    The logical state is the `nav--open` class and whether the desktop media
    query matches; from it the controller derives `aria-expanded` on the
    toggle, `aria-hidden` and `inert` on the collapsible panel, and the focus
    gate's state. DOM queries made by the handlers become boolean inputs. */
module NavToggle {
  import opened Wrappers
  import opened FocusGate

  /** Everything the controller reads or writes. */
  datatype NavState = NavState(
    open: bool,               // the `nav--open` class on the nav
    desktop: bool,            // `(min-width: 769px)` matches
    ariaExpanded: string,     // `aria-expanded` on the toggle
    ariaHidden: string,       // `aria-hidden` on the collapsible panel
    inert: bool,              // `inert` present on the collapsible panel
    focusDisabled: bool,      // the focus gate's flag
    focusables: seq<Element>) // the panel's focusable descendants

  function ExpandedText(open: bool): string {
    if open then "true" else "false"
  }

  /** The panel is hidden from assistive technology exactly when the layout is
      compact and the nav is closed. */
  predicate Collapsed(s: NavState) {
    !s.desktop && !s.open
  }

  /** The four derived attributes agree with `(desktop, open)`, and the focus
      gate keeps its own invariant. */
  predicate Consistent(s: NavState) {
    && s.ariaExpanded == ExpandedText(s.open)
    && s.ariaHidden == (if Collapsed(s) then "true" else "false")
    && s.inert == Collapsed(s)
    && s.focusDisabled == Collapsed(s)
    && GateValid(s.focusDisabled, s.focusables)
  }

  function SetFocus(s: NavState, shouldDisable: bool): NavState {
    s.(focusDisabled := shouldDisable,
       focusables := Toggled(s.focusables, s.focusDisabled, shouldDisable))
  }

  /** `syncCollapseState` (index.js:72-83). */
  function SyncCollapse(s: NavState): (r: NavState)
    ensures r.open == s.open && r.desktop == s.desktop && r.ariaExpanded == s.ariaExpanded
    ensures s.desktop ==> r.ariaHidden == "false" && !r.inert && !r.focusDisabled
    ensures !s.desktop ==> r.ariaHidden == (if s.open then "false" else "true") && (r.inert <==> !s.open)
    ensures !s.desktop ==> (r.focusDisabled <==> !s.open)
    ensures GateValid(s.focusDisabled, s.focusables) ==> GateValid(r.focusDisabled, r.focusables)
    ensures |r.focusables| == |s.focusables|
  {
    ToggledKeepsValid(s.focusables, s.focusDisabled, !s.desktop && !s.open);
    if s.desktop then
      SetFocus(s.(ariaHidden := "false", inert := false), false)
    else
      var isOpen := s.open;
      SetFocus(s.(ariaHidden := if isOpen then "false" else "true", inert := !isOpen), !isOpen)
  }

  /** `closeNav` (index.js:85-89). */
  function Close(s: NavState): (r: NavState)
    ensures !r.open && r.ariaExpanded == "false" && r.desktop == s.desktop
    ensures GateValid(s.focusDisabled, s.focusables) ==> Consistent(r)
  {
    SyncCollapse(s.(open := false, ariaExpanded := "false"))
  }

  /** `openNav` (index.js:91-95). */
  function Open(s: NavState): (r: NavState)
    ensures r.open && r.ariaExpanded == "true" && r.desktop == s.desktop
    ensures GateValid(s.focusDisabled, s.focusables) ==> Consistent(r)
  {
    SyncCollapse(s.(open := true, ariaExpanded := "true"))
  }

  /** The toggle's click handler (index.js:97-103): it flips `open`. */
  function ToggleClicked(s: NavState): (r: NavState)
    ensures r.open == !s.open && r.ariaExpanded == ExpandedText(r.open)
    ensures GateValid(s.focusDisabled, s.focusables) ==> Consistent(r)
  {
    if s.open then Close(s) else Open(s)
  }

  /** The panel's click handler (index.js:105-116). `inAnchor`: the target
      has an `a` ancestor-or-self; `inLinkButton`: its nearest `sl-button`
      ancestor-or-self exists and has an `href`. Either closes the nav. */
  function CollapseClicked(s: NavState, inAnchor: bool, inLinkButton: bool): (r: NavState)
    ensures inAnchor || inLinkButton ==> !r.open && r.ariaExpanded == "false"
    ensures !inAnchor && !inLinkButton ==> r == s
  {
    if inAnchor then Close(s)
    else if inLinkButton then Close(s)
    else s
  }

  /** The document's click handler (index.js:118-127). `targetIsNode`: the
      target is a DOM node; `targetInNav`: the nav contains it. */
  function DocumentClicked(s: NavState, targetIsNode: bool, targetInNav: bool): (r: NavState)
    ensures s.open && targetIsNode && !targetInNav ==> !r.open && r.ariaExpanded == "false"
    ensures !(s.open && targetIsNode && !targetInNav) ==> r == s
  {
    if !s.open then s
    else if targetIsNode && !targetInNav then Close(s)
    else s
  }

  /** The document's keydown handler (index.js:129-133). */
  function KeyPressed(s: NavState, key: string): (r: NavState)
    ensures key == "Escape" ==> !r.open && r.ariaExpanded == "false"
    ensures key != "Escape" ==> r == s
  {
    if key == "Escape" then Close(s) else s
  }

  /** `handleViewportChange` (index.js:135-142), with the new value of the
      media query. Entering desktop mode forces the nav closed. */
  function ViewportChanged(s: NavState, matches: bool): (r: NavState)
    ensures r.desktop == matches
    ensures matches ==> !r.open && r.ariaExpanded == "false"
    ensures !matches ==> r.open == s.open && r.ariaExpanded == s.ariaExpanded
  {
    var t := s.(desktop := matches);
    if matches then SyncCollapse(t.(open := false, ariaExpanded := "false"))
    else SyncCollapse(t)
  }

  /** The state right after `setupNavToggle` (index.js:150): the markup's
      class and attributes, a gate that is not yet disabled, and one viewport
      synchronisation. */
  function Setup(markupOpen: bool, markupExpanded: string, markupHidden: string, markupInert: bool,
                 matches: bool, focusables: seq<Element>): (r: NavState)
    ensures r.desktop == matches
    ensures matches ==> !r.open && r.ariaExpanded == "false" && r.ariaHidden == "false" && !r.inert
    ensures !matches ==> r.open == markupOpen && r.ariaExpanded == markupExpanded
    ensures !matches ==> r.ariaHidden == (if markupOpen then "false" else "true") && r.inert == !markupOpen
    ensures r.focusDisabled == (!matches && !markupOpen)
  {
    ViewportChanged(NavState(markupOpen, matches, markupExpanded, markupHidden, markupInert, false, focusables), matches)
  }

  /** Setup leaves the controller consistent whenever the markup carries no
      recorded markers and, in compact mode, an `aria-expanded` that matches
      its `nav--open` class (setup does not rewrite `aria-expanded` there). */
  lemma SetupConsistent(markupOpen: bool, markupExpanded: string, markupHidden: string, markupInert: bool,
                        matches: bool, focusables: seq<Element>)
    requires NoneSaved(focusables)
    requires !matches ==> markupExpanded == ExpandedText(markupOpen)
    ensures Consistent(Setup(markupOpen, markupExpanded, markupHidden, markupInert, matches, focusables))
  {
  }

  /** The events the controller listens to. */
  datatype Event =
    | ToggleClick
    | CollapseClick(inAnchor: bool, inLinkButton: bool)
    | DocumentClick(targetIsNode: bool, targetInNav: bool)
    | KeyDown(key: string)
    | ViewportChange(matches: bool)

  function Step(s: NavState, e: Event): (r: NavState)
    ensures Consistent(s) ==> Consistent(r)
  {
    match e
    case ToggleClick => ToggleClicked(s)
    case CollapseClick(a, b) => CollapseClicked(s, a, b)
    case DocumentClick(n, i) => DocumentClicked(s, n, i)
    case KeyDown(k) => KeyPressed(s, k)
    case ViewportChange(m) => ViewportChanged(s, m)
  }

  function Run(s: NavState, events: seq<Event>): NavState
    decreases |events|
  {
    if events == [] then s else Run(Step(s, events[0]), events[1..])
  }

  /** After every sequence of events the derived attributes agree with
      `(desktop, open)`. */
  lemma {:induction false} RunKeepsConsistent(s: NavState, events: seq<Event>)
    requires Consistent(s)
    ensures Consistent(Run(s, events))
    decreases |events|
  {
    if events != [] {
      RunKeepsConsistent(Step(s, events[0]), events[1..]);
    }
  }

  /** In desktop mode, after any sequence of events, the panel is visible to
      assistive technology, not inert, the focus gate is off and no focusable
      element keeps a marker. */
  lemma DesktopAlwaysReachable(s: NavState, events: seq<Event>)
    requires Consistent(s)
    ensures var r := Run(s, events);
      r.desktop ==> r.ariaHidden == "false" && !r.inert && !r.focusDisabled && NoneSaved(r.focusables)
  {
    RunKeepsConsistent(s, events);
  }

  /** Synchronisation keeps the focusables descended from their originals. */
  lemma SyncTracksOrigin(s: NavState, orig: seq<Element>)
    requires GateValid(s.focusDisabled, s.focusables)
    requires TracksOrigin(s.focusables, s.focusDisabled, orig)
    ensures TracksOrigin(SyncCollapse(s).focusables, SyncCollapse(s).focusDisabled, orig)
  {
    ToggledTracksOrigin(s.focusables, s.focusDisabled, !s.desktop && !s.open, orig);
  }

  /** The part of consistency the focus gate depends on: the gate is closed
      exactly when the panel is collapsed, and keeps its own invariant.
      `aria-expanded` plays no part in it. */
  predicate GateInSync(s: NavState) {
    s.focusDisabled == Collapsed(s) && GateValid(s.focusDisabled, s.focusables)
  }

  /** Every event keeps the gate in sync and the focusables descended from
      their originals. */
  lemma StepTracksOrigin(s: NavState, e: Event, orig: seq<Element>)
    requires GateInSync(s) && TracksOrigin(s.focusables, s.focusDisabled, orig)
    ensures GateInSync(Step(s, e))
    ensures TracksOrigin(Step(s, e).focusables, Step(s, e).focusDisabled, orig)
  {
    SyncTracksOrigin(s.(open := false, ariaExpanded := "false"), orig);
    SyncTracksOrigin(s.(open := true, ariaExpanded := "true"), orig);
    if e.ViewportChange? {
      var t := s.(desktop := e.matches);
      SyncTracksOrigin(t, orig);
      SyncTracksOrigin(t.(open := false, ariaExpanded := "false"), orig);
    }
  }

  lemma {:induction false} RunTracksOrigin(s: NavState, events: seq<Event>, orig: seq<Element>)
    requires GateInSync(s) && TracksOrigin(s.focusables, s.focusDisabled, orig)
    ensures GateInSync(Run(s, events))
    ensures TracksOrigin(Run(s, events).focusables, Run(s, events).focusDisabled, orig)
    decreases |events|
  {
    if events != [] {
      StepTracksOrigin(s, events[0], orig);
      RunTracksOrigin(Step(s, events[0]), events[1..], orig);
    }
  }

  /** From setup on, whenever the layout is desktop, every focusable element
      is back in the tab order: it carries no marker and its `tabindex` is its
      original one, or, when that was missing or empty, "0" on a Shoelace
      button and no attribute on anything else. */
  lemma DesktopRestoresTabindex(markupOpen: bool, markupExpanded: string, markupHidden: string, markupInert: bool,
                                matches: bool, focusables: seq<Element>, events: seq<Event>)
    requires NoneSaved(focusables)
    ensures var r := Run(Setup(markupOpen, markupExpanded, markupHidden, markupInert, matches, focusables), events);
      |r.focusables| == |focusables| &&
      (r.desktop ==> forall k :: 0 <= k < |focusables| ==>
        r.focusables[k].saved == None && r.focusables[k].tag == focusables[k].tag &&
        (r.focusables[k].tabindex == focusables[k].tabindex ||
         ((focusables[k].tabindex == None || focusables[k].tabindex == Some("")) &&
          r.focusables[k].tabindex == Natural(focusables[k].tag))))
  {
    var s0 := NavState(markupOpen, matches, markupExpanded, markupHidden, markupInert, false, focusables);
    var t := s0.(open := false, ariaExpanded := "false");
    SyncTracksOrigin(s0, focusables);
    SyncTracksOrigin(t, focusables);
    RunTracksOrigin(Setup(markupOpen, markupExpanded, markupHidden, markupInert, matches, focusables), events, focusables);
  }

  /** Escape leaves the nav closed and a second Escape changes nothing; on a
      consistent closed nav even the first one changes nothing. */
  lemma EscapeIdempotent(s: NavState)
    ensures !KeyPressed(s, "Escape").open
    ensures KeyPressed(KeyPressed(s, "Escape"), "Escape") == KeyPressed(s, "Escape")
    ensures Consistent(s) && !s.open ==> KeyPressed(s, "Escape") == s
  {
  }

  /** In compact mode, closing and reopening a consistent open nav gives every
      restorable focusable element back its original `tabindex`. */
  lemma CloseReopenRestores(s: NavState)
    requires Consistent(s) && !s.desktop && s.open
    requires forall k :: 0 <= k < |s.focusables| ==> Restorable(s.focusables[k])
    ensures ToggleClicked(ToggleClicked(s)) == s
  {
    RoundTripIdentity(s.focusables);
  }

  /** The controller over the live page: the logical state and the derived
      attributes as fields, the focus gate as a separate object. */
  class NavController {
    var open: bool
    var desktop: bool
    var ariaExpanded: string
    var ariaHidden: string
    var inert: bool
    const gate: Gate

    ghost function State(): NavState
      reads this, gate, gate.elements
    {
      NavState(open, desktop, ariaExpanded, ariaHidden, inert, gate.focusDisabled, gate.elements[..])
    }

    /** `setupNavToggle` once the nav, its toggle and its panel are found. */
    constructor (markupOpen: bool, markupExpanded: string, markupHidden: string, markupInert: bool,
                 matches: bool, focusables: array<Element>)
      modifies focusables
      ensures gate.elements == focusables
      ensures State() == Setup(markupOpen, markupExpanded, markupHidden, markupInert, matches, old(focusables[..]))
    {
      open := markupOpen;
      desktop := matches;
      ariaExpanded := markupExpanded;
      ariaHidden := markupHidden;
      inert := markupInert;
      gate := new Gate(focusables);
      new;
      HandleViewportChange(matches);
    }

    method SyncCollapseState()
      modifies this, gate, gate.elements
      ensures State() == SyncCollapse(old(State()))
    {
      if desktop {
        ariaHidden := "false";
        inert := false;
        gate.Toggle(false);
      } else {
        var isOpen := open;
        ariaHidden := if isOpen then "false" else "true";
        inert := !isOpen;
        gate.Toggle(!isOpen);
      }
    }

    method CloseNav()
      modifies this, gate, gate.elements
      ensures State() == Close(old(State()))
    {
      open := false;
      ariaExpanded := "false";
      SyncCollapseState();
    }

    method OpenNav()
      modifies this, gate, gate.elements
      ensures State() == Open(old(State()))
    {
      open := true;
      ariaExpanded := "true";
      SyncCollapseState();
    }

    method OnToggleClick()
      modifies this, gate, gate.elements
      ensures State() == ToggleClicked(old(State()))
      ensures open == !old(open)
    {
      if open {
        CloseNav();
      } else {
        OpenNav();
      }
    }

    method OnCollapseClick(inAnchor: bool, inLinkButton: bool)
      modifies this, gate, gate.elements
      ensures State() == CollapseClicked(old(State()), inAnchor, inLinkButton)
    {
      if inAnchor {
        CloseNav();
        return;
      }
      if inLinkButton {
        CloseNav();
      }
    }

    method OnDocumentClick(targetIsNode: bool, targetInNav: bool)
      modifies this, gate, gate.elements
      ensures State() == DocumentClicked(old(State()), targetIsNode, targetInNav)
    {
      if !open {
        return;
      }
      if targetIsNode && !targetInNav {
        CloseNav();
      }
    }

    method OnKeyDown(key: string)
      modifies this, gate, gate.elements
      ensures State() == KeyPressed(old(State()), key)
    {
      if key == "Escape" {
        CloseNav();
      }
    }

    method HandleViewportChange(matches: bool)
      modifies this, gate, gate.elements
      ensures State() == ViewportChanged(old(State()), matches)
    {
      desktop := matches;
      if desktop {
        open := false;
        ariaExpanded := "false";
      }
      SyncCollapseState();
    }

    /** Dispatches one event to its handler; the controller's state follows
        `Step`, so consistency is preserved. */
    method Dispatch(e: Event)
      modifies this, gate, gate.elements
      ensures State() == Step(old(State()), e)
      ensures old(Consistent(State())) ==> Consistent(State())
    {
      match e {
        case ToggleClick => OnToggleClick();
        case CollapseClick(a, b) => OnCollapseClick(a, b);
        case DocumentClick(n, i) => OnDocumentClick(n, i);
        case KeyDown(k) => OnKeyDown(k);
        case ViewportChange(m) => HandleViewportChange(m);
      }
    }
  }
}
