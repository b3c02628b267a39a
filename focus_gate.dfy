/** The focus gate of the navigation toggle (index.js:30-70): it takes the
    focusable descendants of the collapsible panel out of the tab order and
    later puts them back, remembering each element's original `tabindex` in
    its `data-original-tabindex` entry. */
module FocusGate {
  import opened Wrappers

  /** The gate treats Shoelace buttons (`tagName` "SL-BUTTON") differently
      from every other element. */
  datatype Tag = SlButton | OtherTag

  /** One focusable element: its tag, its `tabindex` attribute (None when the
      attribute is absent) and its `dataset.originalTabindex` entry (None when
      undefined). */
  datatype Element = Element(tag: Tag, tabindex: Option<string>, saved: Option<string>)

  /** What disabling records for a `tabindex`: its value, or "" when absent. */
  function Marker(tabindex: Option<string>): string {
    if tabindex.None? then "" else tabindex.value
  }

  /** The `tabindex` an element gets back when no explicit value is restored:
      "0" for a Shoelace button, no attribute for anything else. */
  function Natural(tag: Tag): Option<string> {
    if tag == SlButton then Some("0") else None
  }

  /** One element after disabling: the first recorded original survives. */
  function Disabled(e: Element): Element {
    var saved := if e.saved == None then Some(Marker(e.tabindex)) else e.saved;
    Element(e.tag, Some("-1"), saved)
  }

  /** One element after enabling: the recorded marker is restored and dropped. */
  function Enabled(e: Element): Element {
    match e.saved
    case Some(stored) =>
      if stored == "" then Element(e.tag, Natural(e.tag), None)
      else Element(e.tag, Some(stored), None)
    case None =>
      Element(e.tag, Natural(e.tag), None)
  }

  function DisableAll(s: seq<Element>): seq<Element> {
    if s == [] then [] else [Disabled(s[0])] + DisableAll(s[1..])
  }

  function EnableAll(s: seq<Element>): seq<Element> {
    if s == [] then [] else [Enabled(s[0])] + EnableAll(s[1..])
  }

  /** The elements after a request for `shouldDisable` when the gate's flag
      says `disabled`: a request for the state already in effect does nothing. */
  function Toggled(s: seq<Element>, disabled: bool, shouldDisable: bool): seq<Element> {
    if shouldDisable == disabled then s
    else if shouldDisable then DisableAll(s)
    else EnableAll(s)
  }

  /** No element carries a recorded marker. */
  predicate NoneSaved(s: seq<Element>) {
    forall k :: 0 <= k < |s| ==> s[k].saved == None
  }

  /** Every element is out of the tab order and has its marker recorded. */
  predicate AllGated(s: seq<Element>) {
    forall k :: 0 <= k < |s| ==> s[k].tabindex == Some("-1") && s[k].saved.Some?
  }

  /** The gate's invariant: a marker exists exactly while the gate is closed. */
  predicate GateValid(disabled: bool, s: seq<Element>) {
    if disabled then AllGated(s) else NoneSaved(s)
  }

  lemma {:induction false} DisableAllAt(s: seq<Element>, k: nat)
    requires k < |s|
    ensures |DisableAll(s)| == |s| && DisableAll(s)[k] == Disabled(s[k])
  {
    if k > 0 {
      DisableAllAt(s[1..], k - 1);
    } else if |s| > 1 {
      DisableAllAt(s[1..], 0);
    }
  }

  lemma {:induction false} EnableAllAt(s: seq<Element>, k: nat)
    requires k < |s|
    ensures |EnableAll(s)| == |s| && EnableAll(s)[k] == Enabled(s[k])
  {
    if k > 0 {
      EnableAllAt(s[1..], k - 1);
    } else if |s| > 1 {
      EnableAllAt(s[1..], 0);
    }
  }

  lemma {:induction false} DisableAllLength(s: seq<Element>)
    ensures |DisableAll(s)| == |s|
  {
    if s != [] {
      DisableAllLength(s[1..]);
    }
  }

  lemma {:induction false} EnableAllLength(s: seq<Element>)
    ensures |EnableAll(s)| == |s|
  {
    if s != [] {
      EnableAllLength(s[1..]);
    }
  }

  /** Disabling takes every element out of the tab order and leaves a marker on
      each: an existing marker is kept, otherwise the current `tabindex` is
      recorded ("" when absent). Tags never change. */
  lemma DisableGates(s: seq<Element>)
    ensures |DisableAll(s)| == |s|
    ensures AllGated(DisableAll(s))
    ensures forall k :: 0 <= k < |s| ==> DisableAll(s)[k].tag == s[k].tag
    ensures forall k :: 0 <= k < |s| && s[k].saved.Some? ==> DisableAll(s)[k].saved == s[k].saved
    ensures forall k :: 0 <= k < |s| && s[k].saved.None? ==>
      DisableAll(s)[k].saved == Some(if s[k].tabindex.None? then "" else s[k].tabindex.value)
  {
    DisableAllLength(s);
    forall k | 0 <= k < |s| ensures DisableAll(s)[k] == Disabled(s[k]) {
      DisableAllAt(s, k);
    }
  }

  /** Enabling drops every marker. A non-empty marker comes back as the
      `tabindex`; an empty or missing one leaves a Shoelace button at "0" and
      removes the attribute from anything else. */
  lemma EnableRestores(s: seq<Element>)
    ensures |EnableAll(s)| == |s|
    ensures NoneSaved(EnableAll(s))
    ensures forall k :: 0 <= k < |s| ==> EnableAll(s)[k].tag == s[k].tag
    ensures forall k :: 0 <= k < |s| && s[k].saved.Some? && s[k].saved.value != "" ==>
      EnableAll(s)[k].tabindex == s[k].saved
    ensures forall k :: 0 <= k < |s| && (s[k].saved == None || s[k].saved == Some("")) ==>
      EnableAll(s)[k].tabindex == (if s[k].tag == SlButton then Some("0") else None)
  {
    EnableAllLength(s);
    forall k | 0 <= k < |s| ensures EnableAll(s)[k] == Enabled(s[k]) {
      EnableAllAt(s, k);
    }
  }

  /** Disable then enable, starting from elements without markers, gives back
      each element's original non-empty `tabindex`. A missing `tabindex` comes
      back as "0" on a Shoelace button and stays missing elsewhere; an empty
      one is recorded as "" and so comes back as if it had been missing. */
  lemma RoundTrip(s: seq<Element>)
    requires NoneSaved(s)
    ensures |EnableAll(DisableAll(s))| == |s|
    ensures NoneSaved(EnableAll(DisableAll(s)))
    ensures forall k :: 0 <= k < |s| ==> EnableAll(DisableAll(s))[k].tag == s[k].tag
    ensures forall k :: 0 <= k < |s| && s[k].tabindex.Some? && s[k].tabindex != Some("") ==>
      EnableAll(DisableAll(s))[k].tabindex == s[k].tabindex
    ensures forall k :: 0 <= k < |s| && s[k].tag != SlButton && s[k].tabindex == None ==>
      EnableAll(DisableAll(s))[k].tabindex == None
    ensures forall k :: 0 <= k < |s| && s[k].tag == SlButton && s[k].tabindex == None ==>
      EnableAll(DisableAll(s))[k].tabindex == Some("0")
    ensures forall k :: 0 <= k < |s| && s[k].tabindex == Some("") ==>
      EnableAll(DisableAll(s))[k].tabindex == Natural(s[k].tag)
  {
    DisableGates(s);
    EnableRestores(DisableAll(s));
  }

  /** An element whose `tabindex` survives a round trip unchanged: one with a
      non-empty explicit value, or a non-Shoelace element without one. */
  predicate Restorable(e: Element) {
    e.saved == None && (if e.tabindex == None then e.tag != SlButton else e.tabindex != Some(""))
  }

  /** When every element is restorable, disable then enable is the identity. */
  lemma RoundTripIdentity(s: seq<Element>)
    requires forall k :: 0 <= k < |s| ==> Restorable(s[k])
    ensures EnableAll(DisableAll(s)) == s
  {
    RoundTrip(s);
    var r := EnableAll(DisableAll(s));
    forall k | 0 <= k < |s| ensures r[k] == s[k] {
      assert r[k].tag == s[k].tag;
    }
  }

  /** A second disable changes nothing: the first-recorded marker survives. */
  lemma DisableIdempotent(s: seq<Element>)
    ensures DisableAll(DisableAll(s)) == DisableAll(s)
  {
    DisableGates(s);
    DisableGates(DisableAll(s));
    forall k | 0 <= k < |s| ensures DisableAll(DisableAll(s))[k] == DisableAll(s)[k] {
      DisableAllAt(DisableAll(s), k);
    }
  }

  /** Whatever the flag and the request, the invariant holds afterwards if it
      held before; a request that changes the flag establishes it outright. */
  lemma ToggledKeepsValid(s: seq<Element>, disabled: bool, shouldDisable: bool)
    ensures GateValid(disabled, s) ==> GateValid(shouldDisable, Toggled(s, disabled, shouldDisable))
    ensures shouldDisable != disabled ==> GateValid(shouldDisable, Toggled(s, disabled, shouldDisable))
    ensures |Toggled(s, disabled, shouldDisable)| == |s|
  {
    DisableGates(s);
    EnableRestores(s);
  }

  /** `t` is a `tabindex` the element that started as `orig` may carry with
      the gate open: its original value, or, when that was missing or empty,
      the natural one of its tag. */
  predicate Restored(t: Option<string>, orig: Element) {
    t == orig.tabindex || ((orig.tabindex == None || orig.tabindex == Some("")) && t == Natural(orig.tag))
  }

  /** The elements descend from `orig`: same tags, and each element's
      `tabindex` with the gate open (now, or once enabled when `disabled`)
      is `Restored` with respect to its original. */
  predicate TracksOrigin(s: seq<Element>, disabled: bool, orig: seq<Element>) {
    |s| == |orig| &&
    forall k :: 0 <= k < |s| ==>
      s[k].tag == orig[k].tag &&
      Restored(if disabled then Enabled(s[k]).tabindex else s[k].tabindex, orig[k])
  }

  /** Any request to a valid gate keeps the elements descended from their
      originals, however many times they have been gated before. */
  lemma ToggledTracksOrigin(s: seq<Element>, disabled: bool, shouldDisable: bool, orig: seq<Element>)
    requires GateValid(disabled, s) && TracksOrigin(s, disabled, orig)
    ensures TracksOrigin(Toggled(s, disabled, shouldDisable), shouldDisable, orig)
  {
    if shouldDisable != disabled {
      var r := Toggled(s, disabled, shouldDisable);
      if shouldDisable {
        DisableAllLength(s);
        forall k | 0 <= k < |s| ensures r[k] == Disabled(s[k]) {
          DisableAllAt(s, k);
        }
      } else {
        EnableAllLength(s);
        forall k | 0 <= k < |s| ensures r[k] == Enabled(s[k]) {
          EnableAllAt(s, k);
        }
      }
    }
  }

  /** The gate itself: the focusable descendants of the collapsible panel and
      the closure flag `focusDisabled`. The set of elements is fixed. */
  class Gate {
    const elements: array<Element>
    var focusDisabled: bool

    ghost predicate Valid()
      reads this, elements
    {
      GateValid(focusDisabled, elements[..])
    }

    /** A fresh gate starts with `focusDisabled` false (index.js:28). */
    constructor (elements: array<Element>)
      ensures this.elements == elements && !focusDisabled
    {
      this.elements := elements;
      focusDisabled := false;
    }

    /** `toggleFocusableState(shouldDisable)` (index.js:30-70). */
    method Toggle(shouldDisable: bool)
      modifies this, elements
      ensures focusDisabled == shouldDisable
      ensures elements[..] == Toggled(old(elements[..]), old(focusDisabled), shouldDisable)
      ensures old(Valid()) ==> Valid()
      ensures shouldDisable != old(focusDisabled) ==> Valid()
    {
      ToggledKeepsValid(elements[..], focusDisabled, shouldDisable);
      if shouldDisable == focusDisabled {
        return;
      }
      var n := elements.Length;
      if shouldDisable {
        var i := 0;
        while i < n
          invariant 0 <= i <= n
          invariant forall k :: 0 <= k < i ==> elements[k] == Disabled(old(elements[k]))
          invariant forall k :: i <= k < n ==> elements[k] == old(elements[k])
        {
          var e := elements[i];
          var saved := e.saved;
          if saved == None {
            var current := e.tabindex;
            saved := Some(if current == None then "" else current.value);
          }
          elements[i] := Element(e.tag, Some("-1"), saved);
          i := i + 1;
        }
        forall k | 0 <= k < n ensures elements[..][k] == DisableAll(old(elements[..]))[k] {
          DisableAllAt(old(elements[..]), k);
        }
        DisableAllLength(old(elements[..]));
      } else {
        var i := 0;
        while i < n
          invariant 0 <= i <= n
          invariant forall k :: 0 <= k < i ==> elements[k] == Enabled(old(elements[k]))
          invariant forall k :: i <= k < n ==> elements[k] == old(elements[k])
        {
          var e := elements[i];
          var tabindex := e.tabindex;
          match e.saved {
            case Some(stored) =>
              if stored == "" {
                tabindex := None;
                if e.tag == SlButton {
                  tabindex := Some("0");
                }
              } else {
                tabindex := Some(stored);
              }
            case None =>
              if e.tag == SlButton {
                tabindex := Some("0");
              } else {
                tabindex := None;
              }
          }
          elements[i] := Element(e.tag, tabindex, None);
          i := i + 1;
        }
        forall k | 0 <= k < n ensures elements[..][k] == EnableAll(old(elements[..]))[k] {
          EnableAllAt(old(elements[..]), k);
        }
        EnableAllLength(old(elements[..]));
      }
      focusDisabled := shouldDisable;
    }
  }
}
