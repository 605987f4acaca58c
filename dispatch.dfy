/**
 * The tap state machine of `tapAction`: the `selected` slot, highlight on
 * begin, revert on end or cancel, and the action invoked after a release.
 */
module Dispatch {
  import opened Wrappers
  import opened Attributes
  import opened StyledText
  import opened HitTest

  /** `UIGestureRecognizerState`; `.recognized` is the same state as `.ended`. */
  datatype GestureState = Possible | Began | Changed | Ended | Cancelled | Failed

  /** One call of a link's action, with the buffer and the slot it observed. */
  datatype Invocation = Invocation(action: ActionId, buffer: seq<Cell>, selected: Option<Selection>)

  /**
   * The part of the view the gestures change: the attributed text, the
   * `selected` slot, the actions invoked so far and the redraw requests.
   */
  datatype ViewState = ViewState(buffer: seq<Cell>, selected: Option<Selection>, log: seq<Invocation>, redraws: nat)

  /** A recorded selection lies within the buffer, so it can be reverted. */
  predicate Wf(s: ViewState) {
    s.selected.Some? ==> InBounds(s.selected.value.range, |s.buffer|)
  }

  /**
   * `tapBegan`: on a hit, record it and highlight its range; on a miss,
   * nothing changes. No action is invoked.
   */
  function TapBegan(s: ViewState, t: Touch, font: Option<Font>): (r: ViewState)
    ensures r.log == s.log
    ensures LookupAction(s.buffer, t).None? ==> r == s
    ensures LookupAction(s.buffer, t).Some? ==>
      && r.selected == LookupAction(s.buffer, t)
      && r.buffer == Highlight(s.buffer, r.selected.value.range, true, font)
      && r.redraws == s.redraws + 1
    ensures Wf(s) ==> Wf(r)
    ensures LookupAction(s.buffer, t).Some? ==> Wf(r)
  {
    match LookupAction(s.buffer, t)
    case None => s
    case Some(hit) => ViewState(Highlight(s.buffer, hit.range, true, font), Some(hit), s.log, s.redraws + 1)
  }

  /**
   * `tapEnded`: with a selection, revert its range, clear the slot, then
   * invoke its action once, so that the action sees the reverted buffer and
   * an empty slot; without one, nothing changes.
   */
  function TapEnded(s: ViewState, font: Option<Font>): (r: ViewState)
    requires Wf(s)
    ensures r.selected == None && Wf(r)
    ensures s.selected.None? ==> r == s
    ensures s.selected.Some? ==>
      && r.buffer == Highlight(s.buffer, s.selected.value.range, false, font)
      && r.log == s.log + [Invocation(s.selected.value.action, r.buffer, None)]
      && r.redraws == s.redraws + 1
  {
    match s.selected
    case None => s
    case Some(sel) =>
      var reverted := Highlight(s.buffer, sel.range, false, font);
      ViewState(reverted, None, s.log + [Invocation(sel.action, reverted, None)], s.redraws + 1)
  }

  /**
   * `tapCancelled`: with a selection, revert its range and clear the slot,
   * never invoking the action; without one, nothing changes.
   */
  function TapCancelled(s: ViewState, font: Option<Font>): (r: ViewState)
    requires Wf(s)
    ensures r.selected == None && Wf(r) && r.log == s.log
    ensures s.selected.None? ==> r == s
    ensures s.selected.Some? ==>
      && r.buffer == Highlight(s.buffer, s.selected.value.range, false, font)
      && r.redraws == s.redraws + 1
  {
    match s.selected
    case None => s
    case Some(sel) => ViewState(Highlight(s.buffer, sel.range, false, font), None, s.log, s.redraws + 1)
  }

  /**
   * `tapAction`: began, changed (nothing), ended, and every other state
   * (possible, cancelled, failed) handled as a cancel.
   */
  function TapAction(s: ViewState, g: GestureState, t: Touch, font: Option<Font>): (r: ViewState)
    requires g !in {Began, Changed} ==> Wf(s)
    ensures Wf(s) ==> Wf(r)
    ensures g !in {Began, Changed} ==> Wf(r) && r.selected == None
    ensures g == Changed ==> r == s
    ensures g != Ended ==> r.log == s.log
    ensures g == Ended ==> |s.log| <= |r.log| <= |s.log| + 1 && r.log[..|s.log|] == s.log
  {
    match g
    case Began => TapBegan(s, t, font)
    case Changed => s
    case Ended => TapEnded(s, font)
    case _ => TapCancelled(s, font)
  }

  /** One delivery of the gesture's action message. */
  datatype Event = Event(state: GestureState, touch: Touch)

  /** The state after a sequence of gesture events, in order. */
  function Replay(s: ViewState, es: seq<Event>, font: Option<Font>): (r: ViewState)
    requires Wf(s)
    ensures Wf(r)
    decreases |es|
  {
    if es == [] then s else Replay(TapAction(s, es[0].state, es[0].touch, font), es[1..], font)
  }

  /** How many of the events are releases. */
  function Releases(es: seq<Event>): nat
    decreases |es|
  {
    if es == [] then 0 else (if es[0].state == Ended then 1 else 0) + Releases(es[1..])
  }

  /**
   * Actions are only ever appended to the log, and at most one per
   * release: a gesture that is never released invokes nothing.
   */
  lemma {:induction false} ReplayInvocations(s: ViewState, es: seq<Event>, font: Option<Font>)
    requires Wf(s)
    ensures var r := Replay(s, es, font);
      |s.log| <= |r.log| <= |s.log| + Releases(es) && r.log[..|s.log|] == s.log
    decreases |es|
  {
    if es != [] {
      var s1 := TapAction(s, es[0].state, es[0].touch, font);
      ReplayInvocations(s1, es[1..], font);
      var r := Replay(s1, es[1..], font);
      assert r.log[..|s.log|] == r.log[..|s1.log|][..|s.log|];
    }
  }

  /**
   * A press on a link of a compiled buffer followed by a release, with no
   * property changed in between: the buffer is back as it was, the slot is
   * empty, and the link's action was invoked exactly once, on the restored
   * buffer. Whatever the slot held before is overwritten by the hit.
   */
  lemma PressAndRelease(ts: seq<Text>, font: Option<Font>, textColor: Option<Color>, s: ViewState, t: Touch)
    requires s.buffer == Compile(ts, font, textColor)
    requires LookupAction(s.buffer, t).Some?
    ensures var hit := LookupAction(s.buffer, t).value;
      TapEnded(TapBegan(s, t, font), font)
        == ViewState(s.buffer, None, s.log + [Invocation(hit.action, s.buffer, None)], s.redraws + 2)
  {
    HighlightRevertRestores(ts, font, textColor, t);
  }

  /**
   * A press on a link of a compiled buffer that ends in any state but
   * `.ended`: the buffer is back as it was, the slot is empty, nothing invoked.
   */
  lemma PressAndCancel(ts: seq<Text>, font: Option<Font>, textColor: Option<Color>, s: ViewState, t: Touch, g: GestureState, u: Touch)
    requires s.buffer == Compile(ts, font, textColor)
    requires LookupAction(s.buffer, t).Some?
    requires g in {Possible, Cancelled, Failed}
    ensures var pressed := TapBegan(s, t, font);
      TapAction(pressed, g, u, font) == ViewState(s.buffer, None, s.log, s.redraws + 2)
  {
    HighlightRevertRestores(ts, font, textColor, t);
  }

  lemma {:induction false} ReplayAppend(s: ViewState, es: seq<Event>, fs: seq<Event>, font: Option<Font>)
    requires Wf(s)
    ensures Replay(s, es + fs, font) == Replay(Replay(s, es, font), fs, font)
    decreases |es|
  {
    if es != [] {
      assert (es + fs)[1..] == es[1..] + fs;
      ReplayAppend(TapAction(s, es[0].state, es[0].touch, font), es[1..], fs, font);
    } else {
      assert es + fs == fs;
    }
  }

  /** Any number of `.changed` deliveries leave the view as it was. */
  lemma {:induction false} ChangesAreIgnored(s: ViewState, es: seq<Event>, font: Option<Font>)
    requires Wf(s)
    requires forall i :: 0 <= i < |es| ==> es[i].state == Changed
    ensures Replay(s, es, font) == s
    decreases |es|
  {
    if es != [] {
      ChangesAreIgnored(s, es[1..], font);
    }
  }

  /**
   * Begin on a link, any number of `.changed` deliveries, then end: the
   * compiled buffer is restored and the link's action is invoked exactly once.
   */
  lemma PressHoldRelease(ts: seq<Text>, font: Option<Font>, textColor: Option<Color>, s: ViewState, t: Touch, moves: seq<Event>, u: Touch)
    requires s.buffer == Compile(ts, font, textColor) && Wf(s)
    requires LookupAction(s.buffer, t).Some?
    requires forall i :: 0 <= i < |moves| ==> moves[i].state == Changed
    ensures var hit := LookupAction(s.buffer, t).value;
      Replay(s, [Event(Began, t)] + moves + [Event(Ended, u)], font)
        == ViewState(s.buffer, None, s.log + [Invocation(hit.action, s.buffer, None)], s.redraws + 2)
  {
    var pressed := TapBegan(s, t, font);
    ReplayAppend(s, [Event(Began, t)] + moves, [Event(Ended, u)], font);
    ReplayAppend(s, [Event(Began, t)], moves, font);
    ChangesAreIgnored(pressed, moves, font);
    assert Replay(s, [Event(Began, t)], font) == pressed;
    PressAndRelease(ts, font, textColor, s, t);
  }
}
