/**
 * The styled-text compiler of `updateTexts`: an ordered list of segments
 * becomes one attributed buffer, one cell per character.
 */
module StyledText {
  import opened Wrappers
  import opened Attributes

  /** A segment of the view's `texts`: a link bound to an action, or a plain string. */
  datatype Text = Link(str: string, action: ActionId) | Plain(str: string)

  /** One character of the attributed string with the attributes that apply to it. */
  datatype Cell = Cell(ch: char, attrs: Attrs)

  /** The characters of a buffer, without attributes. */
  function Chars(b: seq<Cell>): (s: string)
    ensures |s| == |b|
    ensures forall i :: 0 <= i < |b| ==> s[i] == b[i].ch
  {
    seq(|b|, i requires 0 <= i < |b| => b[i].ch)
  }

  /** `NSAttributedString(string: s, attributes: attrs)` */
  function Run(s: string, attrs: Attrs): (r: seq<Cell>)
    ensures |r| == |s|
    ensures forall i :: 0 <= i < |s| ==> r[i] == Cell(s[i], attrs)
  {
    seq(|s|, i requires 0 <= i < |s| => Cell(s[i], attrs))
  }

  /** The attributes a segment's run gets, given the nil-free plain and link sets. */
  function RunAttributes(t: Text, text: Attrs, link: Attrs): (r: Attrs)
    ensures t.Plain? ==> r == text
    ensures t.Link? ==> Action in r && r[Action] == ActionValue(t.action)
    ensures t.Link? ==> r - {Action} == link - {Action}
  {
    match t
    case Plain(_) => text
    case Link(_, a) => link[Action := ActionValue(a)]
  }

  /** The runs of `ts` appended one after another, in order. */
  function Runs(ts: seq<Text>, text: Attrs, link: Attrs): (r: seq<Cell>)
    ensures |r| == |Concat(ts)|
    decreases |ts|
  {
    if ts == [] then []
    else Runs(ts[..|ts| - 1], text, link) + Run(ts[|ts| - 1].str, RunAttributes(ts[|ts| - 1], text, link))
  }

  /** The buffer `updateTexts` builds from a non-empty `texts`. */
  function Compile(ts: seq<Text>, font: Option<Font>, textColor: Option<Color>): (r: seq<Cell>)
    ensures Chars(r) == Concat(ts)
  {
    RunsText(ts, Compact(TextAttributes(font, textColor)), Compact(LinkAttributes(font)));
    Runs(ts, Compact(TextAttributes(font, textColor)), Compact(LinkAttributes(font)))
  }

  /** The segment strings concatenated in order. */
  function Concat(ts: seq<Text>): string
    decreases |ts|
  {
    if ts == [] then "" else Concat(ts[..|ts| - 1]) + ts[|ts| - 1].str
  }

  /** Where segment `k` starts in the compiled buffer. */
  function Offset(ts: seq<Text>, k: nat): nat
    requires k <= |ts|
  {
    |Concat(ts[..k])|
  }

  /** No two link segments share an action. */
  predicate UniqueLinkActions(ts: seq<Text>) {
    forall k, l :: 0 <= k < l < |ts| && ts[k].Link? && ts[l].Link? ==> ts[k].action != ts[l].action
  }

  /** Text order: the compiled characters are the segment strings in order. */
  lemma {:induction false} RunsText(ts: seq<Text>, text: Attrs, link: Attrs)
    ensures Chars(Runs(ts, text, link)) == Concat(ts)
    decreases |ts|
  {
    if ts != [] {
      var n := |ts| - 1;
      RunsText(ts[..n], text, link);
      var b, c := Runs(ts, text, link), Concat(ts);
      var init := Runs(ts[..n], text, link);
      assert |b| == |c|;
      forall i | 0 <= i < |b| ensures Chars(b)[i] == c[i] {
        if i < |init| {
          assert b[i] == init[i];
          assert Chars(init)[i] == init[i].ch;
        }
      }
    }
  }

  /** The cell at position `j` of segment `k`. */
  lemma {:induction false} RunsCellAt(ts: seq<Text>, text: Attrs, link: Attrs, k: nat, j: nat)
    requires k < |ts| && j < |ts[k].str|
    ensures Offset(ts, k) + j < |Runs(ts, text, link)|
    ensures Runs(ts, text, link)[Offset(ts, k) + j] == Cell(ts[k].str[j], RunAttributes(ts[k], text, link))
    decreases |ts|
  {
    var n := |ts| - 1;
    var init := ts[..n];
    RunsText(init, text, link);
    if k == n {
      assert ts[..k] == init;
    } else {
      RunsCellAt(init, text, link, k, j);
      assert init[..k] == ts[..k];
    }
  }

  /** Every position of the compiled buffer lies in some segment. */
  lemma {:induction false} RunsLocate(ts: seq<Text>, text: Attrs, link: Attrs, p: nat)
    requires p < |Runs(ts, text, link)|
    ensures exists k :: 0 <= k < |ts| && Offset(ts, k) <= p < Offset(ts, k) + |ts[k].str|
    decreases |ts|
  {
    var n := |ts| - 1;
    var init := ts[..n];
    RunsText(init, text, link);
    if p < |Runs(init, text, link)| {
      RunsLocate(init, text, link, p);
      var k :| 0 <= k < |init| && Offset(init, k) <= p < Offset(init, k) + |init[k].str|;
      assert init[..k] == ts[..k];
      assert Offset(ts, k) <= p < Offset(ts, k) + |ts[k].str|;
    } else {
      assert ts[..n] == init;
      assert Offset(ts, n) <= p < Offset(ts, n) + |ts[n].str|;
    }
  }

  /**
   * Per-character attributes: a character of a link segment carries that
   * segment's action and the nil-free link attributes, so no background;
   * a character of a plain segment carries the text attributes and no action.
   */
  lemma CompiledCharacter(ts: seq<Text>, font: Option<Font>, textColor: Option<Color>, k: nat, j: nat)
    requires k < |ts| && j < |ts[k].str|
    ensures Offset(ts, k) + j < |Compile(ts, font, textColor)|
    ensures var c := Compile(ts, font, textColor)[Offset(ts, k) + j];
      && c.ch == ts[k].str[j]
      && BackgroundColor !in c.attrs
      && (ts[k].Plain? ==> c.attrs == Compact(TextAttributes(font, textColor)) && Action !in c.attrs)
      && (ts[k].Link? ==>
            && c.attrs == Compact(LinkAttributes(font))[Action := ActionValue(ts[k].action)]
            && c.attrs[Action] == ActionValue(ts[k].action)
            && c.attrs[FontName] == FontValue(FontOrDefault(font))
            && c.attrs[ForegroundColor] == ColorValue(Blue)
            && c.attrs[UnderlineStyle] == UnderlineValue(UnderlineStyleSingle))
  {
    RunsCellAt(ts, Compact(TextAttributes(font, textColor)), Compact(LinkAttributes(font)), k, j);
  }

  /**
   * A cell of a compiled buffer that carries action `a` belongs to a link
   * segment with action `a` and holds exactly that segment's attributes.
   */
  lemma CompiledActionCell(ts: seq<Text>, font: Option<Font>, textColor: Option<Color>, p: nat, a: ActionId)
    requires p < |Compile(ts, font, textColor)|
    requires var c := Compile(ts, font, textColor)[p]; Action in c.attrs && c.attrs[Action] == ActionValue(a)
    ensures Compile(ts, font, textColor)[p].attrs == Compact(LinkAttributes(font))[Action := ActionValue(a)]
    ensures exists k :: 0 <= k < |ts| && Offset(ts, k) <= p < Offset(ts, k) + |ts[k].str| && ts[k] == Link(ts[k].str, a)
  {
    RunsLocate(ts, Compact(TextAttributes(font, textColor)), Compact(LinkAttributes(font)), p);
    var k :| 0 <= k < |ts| && Offset(ts, k) <= p < Offset(ts, k) + |ts[k].str|;
    CompiledCharacter(ts, font, textColor, k, p - Offset(ts, k));
  }
}
