/**
 * The view itself: its properties, the attributed text it displays, the
 * `selected` slot, and the gesture handlers that update them in place.
 */
module View {
  import opened Wrappers
  import opened Attributes
  import opened StyledText
  import opened HitTest
  import Dispatch

  class LinkTextView {
    var font: Option<Font>
    var textColor: Option<Color>
    var textForegroundColor: Option<Color>
    var textBackgroundColor: Option<Color>
    var linkForegroundColor: Option<Color>
    var linkBackgroundColor: Option<Color>
    var texts: seq<Text>
    /** `attributedText` */
    var buffer: seq<Cell>
    var selected: Option<Selection>
    /** The actions invoked so far, each with the state it observed. */
    var log: seq<Dispatch.Invocation>
    /** Calls of `setNeedsDisplay`. */
    var redraws: nat

    function State(): Dispatch.ViewState
      reads this
    {
      Dispatch.ViewState(buffer, selected, log, redraws)
    }

    /** A view showing `initial`, with empty `texts` and nothing selected. */
    constructor (initial: seq<Cell>, font: Option<Font>, textColor: Option<Color>)
      ensures this.font == font && this.textColor == textColor
      ensures textForegroundColor == None && textBackgroundColor == None
      ensures linkForegroundColor == None && linkBackgroundColor == None
      ensures texts == [] && buffer == initial && selected == None && log == [] && redraws == 0
    {
      this.font := font;
      this.textColor := textColor;
      textForegroundColor, textBackgroundColor := None, None;
      linkForegroundColor, linkBackgroundColor := None, None;
      texts := [];
      buffer := initial;
      selected := None;
      log := [];
      redraws := 0;
    }

    /**
     * Rebuild the attributed text from `texts`; an empty `texts` leaves the
     * displayed text as it was.
     */
    method UpdateTexts()
      modifies this`buffer
      ensures buffer == if texts == [] then old(buffer) else Compile(texts, font, textColor)
    {
      if texts == [] {
        return;
      }
      var textAttributes := DropNil(TextAttributes(font, textColor));
      var linkAttributes := DropNil(LinkAttributes(font));
      var s: seq<Cell> := [];
      for i := 0 to |texts|
        invariant s == Runs(texts[..i], textAttributes, linkAttributes)
      {
        assert texts[..i + 1][..i] == texts[..i];
        match texts[i]
        case Plain(str) =>
          s := s + Run(str, textAttributes);
        case Link(str, action) =>
          var attributes := linkAttributes[Action := ActionValue(action)];
          s := s + Run(str, attributes);
      }
      assert texts[..|texts|] == texts;
      buffer := s;
    }

    method SetTexts(ts: seq<Text>)
      modifies this`texts, this`buffer
      ensures texts == ts
      ensures buffer == if ts == [] then old(buffer) else Compile(ts, font, textColor)
    {
      texts := ts;
      UpdateTexts();
    }

    method SetFont(f: Option<Font>)
      modifies this`font, this`buffer
      ensures font == f
      ensures buffer == if texts == [] then old(buffer) else Compile(texts, f, textColor)
    {
      font := f;
      UpdateTexts();
    }

    /** The four colour properties only trigger a rebuild; no attribute set reads them. */
    method SetTextForegroundColor(c: Option<Color>)
      modifies this`textForegroundColor, this`buffer
      ensures textForegroundColor == c
      ensures buffer == if texts == [] then old(buffer) else Compile(texts, font, textColor)
    {
      textForegroundColor := c;
      UpdateTexts();
    }

    method SetTextBackgroundColor(c: Option<Color>)
      modifies this`textBackgroundColor, this`buffer
      ensures textBackgroundColor == c
      ensures buffer == if texts == [] then old(buffer) else Compile(texts, font, textColor)
    {
      textBackgroundColor := c;
      UpdateTexts();
    }

    method SetLinkForegroundColor(c: Option<Color>)
      modifies this`linkForegroundColor, this`buffer
      ensures linkForegroundColor == c
      ensures buffer == if texts == [] then old(buffer) else Compile(texts, font, textColor)
    {
      linkForegroundColor := c;
      UpdateTexts();
    }

    method SetLinkBackgroundColor(c: Option<Color>)
      modifies this`linkBackgroundColor, this`buffer
      ensures linkBackgroundColor == c
      ensures buffer == if texts == [] then old(buffer) else Compile(texts, font, textColor)
    {
      linkBackgroundColor := c;
      UpdateTexts();
    }

    /**
     * A copy of the attributed text whose range `r` is restyled: the
     * attributes at `r.location`, overlaid entry by entry with the selected
     * or the plain link attributes, set over the whole range.
     */
    method AttributedTextWith(r: Range, highlighted: bool) returns (text: seq<Cell>)
      requires InBounds(r, |buffer|)
      ensures text == Highlight(buffer, r, highlighted, font)
    {
      var attributes := buffer[r.location].attrs;
      ghost var original := attributes;
      var over := if highlighted then SelectedLinkAttributes(font) else LinkAttributes(font);
      var rest := over.Keys;
      while rest != {}
        invariant rest <= over.Keys
        invariant forall k :: k in over && k !in rest && over[k].None? ==> k !in attributes
        invariant forall k :: k in over && k !in rest && over[k].Some? ==> k in attributes && attributes[k] == over[k].value
        invariant forall k :: k in original && (k !in over || k in rest) ==> k in attributes && attributes[k] == original[k]
        invariant forall k :: k in attributes ==> k in original || k in over
        decreases rest
      {
        var key :| key in rest;
        match over[key] {
          case Some(val) => attributes := attributes[key := val];
          case None => attributes := attributes - {key};
        }
        rest := rest - {key};
      }
      assert attributes == Overlay(original, over);
      text := SetAttributes(buffer, attributes, r);
    }

    /** `tapBegan`: hit-test the touch; on a hit, record it and highlight its range. */
    method TapBegan(t: Touch)
      modifies this`buffer, this`selected, this`redraws
      ensures State() == Dispatch.TapBegan(old(State()), t, font)
    {
      var hit := LookupAction(buffer, t);
      if hit.Some? {
        selected := hit;
        buffer := AttributedTextWith(hit.value.range, true);
        redraws := redraws + 1;
      }
    }

    /** `tapEnded`: revert, clear the slot, then invoke the recorded action. */
    method TapEnded()
      requires Dispatch.Wf(State())
      modifies this`buffer, this`selected, this`log, this`redraws
      ensures State() == Dispatch.TapEnded(old(State()), font)
    {
      if selected.Some? {
        var sel := selected.value;
        buffer := AttributedTextWith(sel.range, false);
        redraws := redraws + 1;
        selected := None;
        log := log + [Dispatch.Invocation(sel.action, buffer, selected)];
      }
    }

    /** `tapCancelled`: revert and clear the slot; the action is not invoked. */
    method TapCancelled()
      requires Dispatch.Wf(State())
      modifies this`buffer, this`selected, this`redraws
      ensures State() == Dispatch.TapCancelled(old(State()), font)
    {
      if selected.Some? {
        var sel := selected.value;
        buffer := AttributedTextWith(sel.range, false);
        redraws := redraws + 1;
        selected := None;
      }
    }

    /** `tapAction`: dispatch on the recognizer's state; `.changed` does nothing. */
    method TapAction(g: Dispatch.GestureState, t: Touch)
      requires g !in {Dispatch.Began, Dispatch.Changed} ==> Dispatch.Wf(State())
      modifies this`buffer, this`selected, this`log, this`redraws
      ensures State() == Dispatch.TapAction(old(State()), g, t, font)
    {
      match g
      case Began => TapBegan(t);
      case Changed =>
      case Ended => TapEnded();
      case _ => TapCancelled();
    }
  }
}
