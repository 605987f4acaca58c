/**
 * Attribute keys, attribute values and the three attribute sets the view
 * builds (`textAttributes`, `linkAttributes`, `selectedLinkAttributes`).
 * Fonts and colours are opaque tokens.
 */
module Attributes {
  import opened Wrappers

  /** Identity of a link's callback. */
  type ActionId = nat

  /** Fonts; `SystemFont17` is the fallback `UIFont.systemFont(ofSize: 17)`. */
  datatype Font = SystemFont17 | CustomFont(id: nat)

  /** Colours; `TranslucentBlack` is black with alpha 0.2. */
  datatype Color = Black | Blue | TranslucentBlack | CustomColor(id: nat)

  /**
   * Attribute names of the attributed string. `Action` is the view's own
   * hidden key "LinkTextView::Action"; `OtherKey` stands for any attribute
   * an initial attributed text may carry.
   */
  datatype Key = FontName | ForegroundColor | BackgroundColor | UnderlineStyle | Action | OtherKey(name: string)

  datatype Value =
    | FontValue(font: Font)
    | ColorValue(color: Color)
    | UnderlineValue(style: int)
    | ActionValue(action: ActionId)
    | OtherValue(id: nat)

  /** `NSUnderlineStyle.styleSingle.rawValue` */
  const UnderlineStyleSingle: int := 1

  /** An attribute dictionary as stored in the attributed string, `[String: Any]`. */
  type Attrs = map<Key, Value>

  /** An attribute dictionary whose entries may be nil, `[String: Any?]`. */
  type OptionalAttrs = map<Key, Option<Value>>

  function FontOrDefault(font: Option<Font>): Font {
    if font.Some? then font.value else SystemFont17
  }

  /** Attributes of plain characters. */
  function TextAttributes(font: Option<Font>, textColor: Option<Color>): (r: OptionalAttrs)
    ensures r.Keys == {FontName, ForegroundColor}
    ensures r[FontName] == Some(FontValue(FontOrDefault(font)))
    ensures r[ForegroundColor] == Some(ColorValue(if textColor.Some? then textColor.value else Black))
  {
    map[FontName := Some(FontValue(FontOrDefault(font))),
        ForegroundColor := Some(ColorValue(if textColor.Some? then textColor.value else Black))]
  }

  /** Attributes of link characters; the background is listed as nil. */
  function LinkAttributes(font: Option<Font>): (r: OptionalAttrs)
    ensures r.Keys == {FontName, ForegroundColor, UnderlineStyle, BackgroundColor}
    ensures r[FontName] == Some(FontValue(FontOrDefault(font)))
    ensures r[ForegroundColor] == Some(ColorValue(Blue))
    ensures r[UnderlineStyle] == Some(UnderlineValue(UnderlineStyleSingle))
    ensures r[BackgroundColor] == None
  {
    map[FontName := Some(FontValue(FontOrDefault(font))),
        ForegroundColor := Some(ColorValue(Blue)),
        UnderlineStyle := Some(UnderlineValue(UnderlineStyleSingle)),
        BackgroundColor := None]
  }

  /** Attributes of a link while it is pressed. */
  function SelectedLinkAttributes(font: Option<Font>): (r: OptionalAttrs)
    ensures r.Keys == {FontName, ForegroundColor, UnderlineStyle, BackgroundColor}
    ensures r[FontName] == Some(FontValue(FontOrDefault(font)))
    ensures r[ForegroundColor] == Some(ColorValue(Blue))
    ensures r[UnderlineStyle] == Some(UnderlineValue(UnderlineStyleSingle))
    ensures r[BackgroundColor] == Some(ColorValue(TranslucentBlack))
  {
    LinkAttributes(font)[BackgroundColor := Some(ColorValue(TranslucentBlack))]
  }

  /** The dictionary with its nil entries dropped. */
  function Compact(m: OptionalAttrs): (r: Attrs)
    ensures forall k :: k in r <==> k in m && m[k].Some?
    ensures forall k :: k in r ==> m[k] == Some(r[k])
  {
    map k | k in m && m[k].Some? :: m[k].value
  }

  /** The loop of `updateTexts` that copies the non-nil entries into a fresh dictionary. */
  method DropNil(m: OptionalAttrs) returns (r: Attrs)
    ensures r == Compact(m)
  {
    r := map[];
    var rest := m.Keys;
    while rest != {}
      invariant rest <= m.Keys
      invariant forall k :: k in r <==> k in m && k !in rest && m[k].Some?
      invariant forall k :: k in r ==> m[k] == Some(r[k])
      decreases rest
    {
      var k :| k in rest;
      if m[k].Some? {
        r := r[k := m[k].value];
      }
      rest := rest - {k};
    }
  }

  /**
   * `attributes[key] = val` for every entry of `over`: a non-nil value
   * replaces the entry, a nil value removes the key, other keys are kept.
   */
  function Overlay(attrs: Attrs, over: OptionalAttrs): (r: Attrs)
    ensures forall k :: k in over && over[k].None? ==> k !in r
    ensures forall k :: k in over && over[k].Some? ==> k in r && r[k] == over[k].value
    ensures forall k :: k in attrs && k !in over ==> k in r && r[k] == attrs[k]
    ensures forall k :: k in r ==> k in attrs || k in over
  {
    map k | k in attrs.Keys + over.Keys && (k in over ==> over[k].Some?) ::
      if k in over then over[k].value else attrs[k]
  }
}
