/**
 * The attribute lookup of `lookupAction` and the restyling of
 * `attributedText(with:highlighted:)`.
 */
module HitTest {
  import opened Wrappers
  import opened Attributes
  import opened StyledText

  /** A character range of the buffer, as an `NSRange`. */
  datatype Range = Range(location: nat, length: nat)

  /** A hit, and the content of the view's `selected` slot. */
  datatype Selection = Selection(action: ActionId, range: Range)

  /**
   * What the layout engine reports for a touch point: the index of the
   * nearest character and the fraction of the distance between insertion points.
   */
  datatype Touch = Touch(characterIndex: nat, fraction: real)

  predicate InBounds(r: Range, n: nat) {
    r.location < n && r.location + r.length <= n
  }

  predicate Contains(r: Range, i: int) {
    r.location <= i < r.location + r.length
  }

  /** Cell `j` exists and carries action `a` under the hidden key. */
  predicate Carries(b: seq<Cell>, j: int, a: ActionId) {
    0 <= j < |b| && Action in b[j].attrs && b[j].attrs[Action] == ActionValue(a)
  }

  /** The action at index `i`, when the hidden attribute is there and is an action. */
  function ActionAt(b: seq<Cell>, i: nat): (r: Option<ActionId>)
    ensures r.Some? <==> i < |b| && Action in b[i].attrs && b[i].attrs[Action].ActionValue?
    ensures r.Some? ==> Carries(b, i, r.value)
  {
    if i < |b| && Action in b[i].attrs && b[i].attrs[Action].ActionValue? then Some(b[i].attrs[Action].action) else None
  }

  /**
   * `r` is the effective range of the action attribute `a`: every cell in it
   * carries `a`, and neither neighbour does.
   */
  ghost predicate IsEffectiveRange(b: seq<Cell>, a: ActionId, r: Range) {
    && InBounds(r, |b|)
    && (forall j :: Contains(r, j) ==> Carries(b, j, a))
    && !Carries(b, r.location - 1, a)
    && !Carries(b, r.location + r.length, a)
  }

  /** The first cell of the stretch of cells carrying `a` that holds `i`. */
  function RunStart(b: seq<Cell>, a: ActionId, i: nat): (s: nat)
    requires Carries(b, i, a)
    ensures s <= i
    ensures forall j :: s <= j <= i ==> Carries(b, j, a)
    ensures !Carries(b, s - 1, a)
    decreases i
  {
    if i > 0 && Carries(b, i - 1, a) then RunStart(b, a, i - 1) else i
  }

  /** One past the last cell of the stretch of cells carrying `a` that holds `i`. */
  function RunEnd(b: seq<Cell>, a: ActionId, i: nat): (e: nat)
    requires Carries(b, i, a)
    ensures i < e <= |b|
    ensures forall j :: i <= j < e ==> Carries(b, j, a)
    ensures !Carries(b, e, a)
    decreases |b| - i
  {
    if Carries(b, i + 1, a) then RunEnd(b, a, i + 1) else i + 1
  }

  /**
   * Hit-testing against the buffer: a miss when the touch is off the glyph
   * or the character has no action, otherwise the action and its effective
   * range around the character.
   */
  function LookupAction(b: seq<Cell>, t: Touch): (r: Option<Selection>)
    ensures t.fraction >= 1.0 ==> r == None
    ensures t.fraction < 1.0 ==> (r.Some? <==> ActionAt(b, t.characterIndex).Some?)
    ensures r.Some? ==>
      && ActionAt(b, t.characterIndex) == Some(r.value.action)
      && Contains(r.value.range, t.characterIndex)
      && IsEffectiveRange(b, r.value.action, r.value.range)
  {
    if t.fraction >= 1.0 then None
    else match ActionAt(b, t.characterIndex)
      case None => None
      case Some(a) =>
        var s := RunStart(b, a, t.characterIndex);
        var e := RunEnd(b, a, t.characterIndex);
        Some(Selection(a, Range(s, e - s)))
  }

  /** `setAttributes(attrs, range:)`: the cells of `r` get exactly `attrs`. */
  function SetAttributes(b: seq<Cell>, attrs: Attrs, r: Range): (out: seq<Cell>)
    requires InBounds(r, |b|)
    ensures |out| == |b|
    ensures forall i :: 0 <= i < |b| ==> out[i] == if Contains(r, i) then Cell(b[i].ch, attrs) else b[i]
  {
    seq(|b|, i requires 0 <= i < |b| => if Contains(r, i) then Cell(b[i].ch, attrs) else b[i])
  }

  /** The attribute set laid over a range to highlight it or to revert it. */
  function HighlightAttributes(highlighted: bool, font: Option<Font>): (r: OptionalAttrs)
    ensures r.Keys == LinkAttributes(font).Keys && Action !in r
    ensures r - {BackgroundColor} == LinkAttributes(font) - {BackgroundColor}
    ensures r[BackgroundColor] == if highlighted then Some(ColorValue(TranslucentBlack)) else None
  {
    if highlighted then SelectedLinkAttributes(font) else LinkAttributes(font)
  }

  /**
   * `attributedText(with: r, highlighted:)`: the attributes at `r.location`,
   * overlaid with the selected or the plain link attributes, applied to all of `r`.
   */
  function Highlight(b: seq<Cell>, r: Range, highlighted: bool, font: Option<Font>): (out: seq<Cell>)
    requires InBounds(r, |b|)
    ensures |out| == |b| && Chars(out) == Chars(b)
    ensures forall i :: 0 <= i < |b| && !Contains(r, i) ==> out[i] == b[i]
    ensures forall i :: Contains(r, i) ==>
      && FontName in out[i].attrs && out[i].attrs[FontName] == FontValue(FontOrDefault(font))
      && ForegroundColor in out[i].attrs && out[i].attrs[ForegroundColor] == ColorValue(Blue)
      && UnderlineStyle in out[i].attrs && out[i].attrs[UnderlineStyle] == UnderlineValue(UnderlineStyleSingle)
      && (highlighted ==> BackgroundColor in out[i].attrs && out[i].attrs[BackgroundColor] == ColorValue(TranslucentBlack))
      && (!highlighted ==> BackgroundColor !in out[i].attrs)
    ensures forall i, k :: Contains(r, i) && k in b[r.location].attrs && k !in LinkAttributes(font) ==>
      k in out[i].attrs && out[i].attrs[k] == b[r.location].attrs[k]
    ensures forall i, k :: Contains(r, i) && k in out[i].attrs && k !in LinkAttributes(font) ==> k in b[r.location].attrs
    ensures ActionAt(b, r.location).Some? ==> forall i :: Contains(r, i) ==> Carries(out, i, ActionAt(b, r.location).value)
  {
    var out := SetAttributes(b, Overlay(b[r.location].attrs, HighlightAttributes(highlighted, font)), r);
    assert Chars(out) == Chars(b);
    out
  }

  /**
   * Hit-testing a compiled buffer anywhere inside a link segment answers that
   * segment's action and a range covering the whole segment; when no two link
   * segments share an action, the range is exactly the segment.
   */
  lemma CompiledHit(ts: seq<Text>, font: Option<Font>, textColor: Option<Color>, k: nat, j: nat, fraction: real)
    requires k < |ts| && ts[k].Link? && j < |ts[k].str| && fraction < 1.0
    ensures var r := LookupAction(Compile(ts, font, textColor), Touch(Offset(ts, k) + j, fraction));
      && r.Some? && r.value.action == ts[k].action
      && r.value.range.location <= Offset(ts, k)
      && Offset(ts, k) + |ts[k].str| <= r.value.range.location + r.value.range.length
      && (UniqueLinkActions(ts) ==> r.value.range == Range(Offset(ts, k), |ts[k].str|))
  {
    var b := Compile(ts, font, textColor);
    var o, n, a := Offset(ts, k), |ts[k].str|, ts[k].action;
    CompiledCharacter(ts, font, textColor, k, j);
    var r := LookupAction(b, Touch(o + j, fraction));
    assert r.Some? && r.value.action == a;
    var s, e := r.value.range.location, r.value.range.location + r.value.range.length;
    if s > o {
      CompiledCharacter(ts, font, textColor, k, s - 1 - o);
    }
    if e < o + n {
      CompiledCharacter(ts, font, textColor, k, e - o);
    }
    if UniqueLinkActions(ts) {
      if s < o {
        OnlyOwnLinkCarries(ts, font, textColor, k, o - 1);
      }
      if e > o + n {
        OnlyOwnLinkCarries(ts, font, textColor, k, o + n);
      }
    }
  }

  /**
   * When link actions are distinct, no cell outside link segment `k` of a
   * compiled buffer carries that segment's action.
   */
  lemma OnlyOwnLinkCarries(ts: seq<Text>, font: Option<Font>, textColor: Option<Color>, k: nat, p: nat)
    requires UniqueLinkActions(ts) && k < |ts| && ts[k].Link?
    requires p < |Compile(ts, font, textColor)| && !(Offset(ts, k) <= p < Offset(ts, k) + |ts[k].str|)
    ensures !Carries(Compile(ts, font, textColor), p, ts[k].action)
  {
    if Carries(Compile(ts, font, textColor), p, ts[k].action) {
      CompiledActionCell(ts, font, textColor, p, ts[k].action);
    }
  }

  /** Reverting a pressed link's attributes gives back the compiled link attributes. */
  lemma RevertUndoesPress(font: Option<Font>, a: ActionId)
    ensures var link := Compact(LinkAttributes(font))[Action := ActionValue(a)];
      Overlay(Overlay(link, SelectedLinkAttributes(font)), LinkAttributes(font)) == link
  {
  }

  /**
   * Highlighting the range a hit-test found on a compiled buffer and then
   * reverting it gives back the compiled buffer: the revert removes the
   * background key and restores every other link attribute.
   */
  lemma HighlightRevertRestores(ts: seq<Text>, font: Option<Font>, textColor: Option<Color>, t: Touch)
    requires LookupAction(Compile(ts, font, textColor), t).Some?
    ensures var b := Compile(ts, font, textColor);
      var r := LookupAction(b, t).value.range;
      Highlight(Highlight(b, r, true, font), r, false, font) == b
  {
    var b := Compile(ts, font, textColor);
    var sel := LookupAction(b, t).value;
    var r, a := sel.range, sel.action;
    var link := Compact(LinkAttributes(font))[Action := ActionValue(a)];
    forall i | Contains(r, i) ensures b[i].attrs == link {
      CompiledActionCell(ts, font, textColor, i, a);
    }
    assert Contains(r, r.location);
    RevertUndoesPress(font, a);
    var pressed := Overlay(link, SelectedLinkAttributes(font));
    var h := SetAttributes(b, pressed, r);
    assert Highlight(b, r, true, font) == h;
    assert h[r.location].attrs == pressed;
    var h2 := SetAttributes(h, link, r);
    assert Highlight(h, r, false, font) == h2;
    assert |h2| == |b|;
    forall i | 0 <= i < |b| ensures h2[i] == b[i] {
    }
  }

  /**
   * A link between two plain strings, as in the example
   * ["ab", link "cd", "ef"]: a touch on any link character answers the
   * link's action over exactly the link's characters.
   */
  lemma LinkBetweenPlainStrings(x: string, y: string, z: string, a: ActionId, font: Option<Font>, textColor: Option<Color>, j: nat, fraction: real)
    requires j < |y| && fraction < 1.0
    ensures LookupAction(Compile([Plain(x), Link(y, a), Plain(z)], font, textColor), Touch(|x| + j, fraction))
      == Some(Selection(a, Range(|x|, |y|)))
  {
    var ts := [Plain(x), Link(y, a), Plain(z)];
    assert ts[..1] == [Plain(x)] && ts[..1][..0] == [];
    assert Concat(ts[..1]) == x;
    assert Offset(ts, 1) == |x|;
    CompiledHit(ts, font, textColor, 1, j, fraction);
    var r := LookupAction(Compile(ts, font, textColor), Touch(Offset(ts, 1) + j, fraction));
    assert r.value.range == Range(|x|, |y|);
  }
}
