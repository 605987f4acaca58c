# LinkTextView, modelled in Dafny

`LinkTextView` is a `UITextView` subclass that shows an ordered list of
segments, each either a plain string or a link bound to an action. It compiles
the list into one attributed string. Every link character carries the link
styling plus a hidden `Action` attribute. A single press gesture then
hit-tests the touch against that hidden attribute. It highlights the link's
range while the press lasts, reverts the highlight on release or cancel, and
invokes the action only on release.

The model has two parts. The first is the styled-text compiler of
`updateTexts`. The second is the tap state machine built from `tapAction`,
`tapBegan`, `tapEnded`, `tapCancelled`, `lookupAction` and
`attributedText(with:highlighted:)`. The attributed string is modelled as a
sequence of `Cell`s, one character plus its attribute map each.

Modules, leaf first:

- `Wrappers`: `Option`, standing for Swift's optionals.
- `Attributes`: attribute keys and values (fonts and colours are opaque
  tokens), the `textAttributes`, `linkAttributes` and
  `selectedLinkAttributes` getters, the nil-dropping copy (`Compact`, and the
  loop `DropNil` that computes it), and `Overlay`, the entry-wise
  `attributes[key] = val` where a nil value removes the key.
- `StyledText`: the segment type `Text`, the compiled buffer (`Runs`,
  `Compile`), and lemmas on text order and per-character attributes.
- `HitTest`: the attribute lookup of `lookupAction` with its effective
  range, and `Highlight`, which is `attributedText(with:highlighted:)`. It also
  holds the lemmas that a hit inside a link finds that link, and that
  highlight followed by revert restores a compiled buffer.
- `Dispatch`: the gesture transitions as functions on a `ViewState`. The
  `ViewState` holds the buffer, the `selected` slot, a log of invoked actions
  and a count of `setNeedsDisplay` calls. The module also has lemmas on whole
  press sequences.
- `View`: the class `LinkTextView`. Its fields are the view's properties,
  `texts`, `buffer` (the `attributedText`), `selected`, the invocation log and
  the redraw count. Its methods do what the Swift methods do, step by step.
  Each method is proved equal to the corresponding `Compile`, `Highlight` or
  `Dispatch` function.

An action is an opaque `ActionId`. Invoking it appends an `Invocation` to the
log. The `Invocation` records the buffer and the `selected` slot as the action
would observe them, which pins down that `tapEnded` calls the action after the
revert and after clearing the slot. The layout engine's answer for a touch
is the parameter `Touch(characterIndex, fraction)`.

Behaviour of the code worth noting:

- `textForegroundColor`, `textBackgroundColor`, `linkForegroundColor` and
  `linkBackgroundColor` (LinkTextView/LinkTextView.swift:34-37) only trigger
  a rebuild. No attribute set reads them. Links are always blue, and plain
  text uses `textColor` or black.
- Changing `font` calls `updateTexts` (line 40), which rebuilds the text
  with the new font unless `texts` is empty. It does so whether or not the
  font is the default.
- `.changed` is ignored (line 133). Nothing tracks how far the touch moves,
  so only the recognizer's own end or cancel finishes a press.

## Model

| member | source | states |
|---|---|---|
| Attributes.TextAttributes | LinkTextView/LinkTextView.swift:42-48 | definition of the plain-text set: exactly a font (the view's font or the 17-point system font) and a foreground colour (`textColor` or black), both non-nil |
| Attributes.LinkAttributes | LinkTextView/LinkTextView.swift:49-57 | definition of the link set: font, blue foreground, single underline, and the background listed as nil |
| Attributes.SelectedLinkAttributes | LinkTextView/LinkTextView.swift:58-62 | definition of the pressed-link set: the link set's keys and values, except that the background is the translucent black |
| Attributes.Compact | LinkTextView/LinkTextView.swift:95-112 | a key is in the result exactly when its value is non-nil, and it keeps that value |
| Attributes.DropNil | LinkTextView/LinkTextView.swift:95-103 | the copying loop yields exactly the nil-free dictionary, whatever order it visits the keys in |
| Attributes.Overlay | LinkTextView/LinkTextView.swift:187-189 | an overlay key with a value is set to it, an overlay key with nil is removed, every other key keeps its value, and no new key appears |
| StyledText.Run | LinkTextView/LinkTextView.swift:116 | definition of `NSAttributedString(string:attributes:)`: one cell per character of the string, in order, each with the given attributes |
| StyledText.RunAttributes | LinkTextView/LinkTextView.swift:115-120 | definition of the attributes a segment's run gets: the text set for a plain segment; for a link, the link set with the hidden key set to the segment's action |
| StyledText.Runs | LinkTextView/LinkTextView.swift:113-122 | definition of the append loop over the segments; its length is the total length of the segment strings |
| StyledText.Compile | LinkTextView/LinkTextView.swift:94-123 | definition of the buffer `updateTexts` builds from the nil-free sets; its characters are the segment strings in order |
| StyledText.RunsText | LinkTextView/LinkTextView.swift:113-123 | the compiled buffer's characters are the segment strings concatenated in order |
| StyledText.RunsCellAt | LinkTextView/LinkTextView.swift:113-122 | character j of segment k sits at offset(k)+j, with that segment's run attributes |
| StyledText.RunsLocate | LinkTextView/LinkTextView.swift:113-122 | every position of the compiled buffer belongs to some segment |
| StyledText.CompiledCharacter | LinkTextView/LinkTextView.swift:113-121 | a link character has the nil-free link attributes (font, blue, single underline) plus its own action, and no background; a plain character has the nil-free text attributes and no action or background |
| StyledText.CompiledActionCell | LinkTextView/LinkTextView.swift:117-120 | a compiled cell that carries action a lies in a link segment with action a, and holds exactly that link's attributes |
| HitTest.ActionAt | LinkTextView/LinkTextView.swift:177-178 | an action is read exactly when the hidden key is present and holds an action |
| HitTest.RunStart | LinkTextView/LinkTextView.swift:176-178 | the effective range's start: every cell from it up to the index carries the action, and the cell before it does not |
| HitTest.RunEnd | LinkTextView/LinkTextView.swift:176-178 | the effective range's end: every cell from the index up to it carries the action, and the cell at it does not |
| HitTest.LookupAction | LinkTextView/LinkTextView.swift:166-182 | a miss when the fraction is at least 1; otherwise a hit exactly when the character has an action, and then that action with a maximal in-bounds range containing the index |
| HitTest.SetAttributes | LinkTextView/LinkTextView.swift:190 | cells in the range get exactly the given attributes and keep their characters; others are untouched |
| HitTest.HighlightAttributes | LinkTextView/LinkTextView.swift:187 | definition of the set laid over the range: the link set's keys (never the hidden action key) with the link values, and a background that is the translucent black when highlighting and nil when reverting |
| HitTest.Highlight | LinkTextView/LinkTextView.swift:184-192 | characters and everything outside the range are unchanged; inside, font, blue and underline are set, the background is the selected colour when highlighting and absent when reverting, and the action and every other non-link key come from the attributes at range.location |
| HitTest.CompiledHit | LinkTextView/LinkTextView.swift:166-182 | a touch on any character of a compiled link finds that link's action over a range covering the whole segment, and exactly the segment when link actions are distinct |
| HitTest.HighlightRevertRestores | LinkTextView/LinkTextView.swift:184-192 | on a compiled buffer, highlighting a hit range and then reverting it gives back the buffer exactly, so no background is left behind |
| HitTest.OnlyOwnLinkCarries | LinkTextView/LinkTextView.swift:117-120 | when link actions are distinct, no cell outside a link segment carries that segment's action |
| HitTest.RevertUndoesPress | LinkTextView/LinkTextView.swift:49-62 | overlaying the selected link attributes and then the link attributes on a compiled link's map gives that map back, because the nil background removes the key |
| HitTest.LinkBetweenPlainStrings | LinkTextView/LinkTextView.swift:113-123 | for plain x, link y, plain z (such as "ab", "cd", "ef"), a touch on any character of y finds the link's action over exactly y's range (for the example, range (2, 2) at index 2 or 3) |
| Dispatch.TapBegan | LinkTextView/LinkTextView.swift:141-147 | a miss changes nothing; a hit is recorded in the slot, its range is highlighted and one redraw is requested; nothing is invoked |
| Dispatch.TapEnded | LinkTextView/LinkTextView.swift:149-156 | with a selection: the range is reverted, the slot is cleared, and the action is logged once, observing the reverted buffer and an empty slot; without one: no change |
| Dispatch.TapCancelled | LinkTextView/LinkTextView.swift:158-164 | with a selection: the range is reverted and the slot cleared, with no invocation; without one: no change |
| Dispatch.TapAction | LinkTextView/LinkTextView.swift:129-139 | `.changed` changes nothing, only `.ended` can invoke, and it invokes at most one action; `.ended` and the cancel states leave the slot empty; only those states need the recorded selection to lie within the buffer |
| Dispatch.Replay | LinkTextView/LinkTextView.swift:129-139 | a sequence of gesture deliveries keeps the selection within the buffer |
| Dispatch.ReplayInvocations | LinkTextView/LinkTextView.swift:129-164 | over any event sequence, the log only grows, and by at most one entry per `.ended` delivery |
| Dispatch.ChangesAreIgnored | LinkTextView/LinkTextView.swift:133 | any run of `.changed` deliveries leaves the state unchanged |
| Dispatch.PressAndRelease | LinkTextView/LinkTextView.swift:141-156 | begin on a compiled link then end: the buffer is restored, the slot is empty, and the action is invoked exactly once |
| Dispatch.PressAndCancel | LinkTextView/LinkTextView.swift:141-164 | begin on a compiled link then cancel, fail or possible: the buffer is restored, the slot is empty, and nothing is invoked |
| Dispatch.PressHoldRelease | LinkTextView/LinkTextView.swift:129-156 | begin, any number of `.changed`, then end: the buffer is restored and the action is invoked exactly once |
| View.LinkTextView.constructor | LinkTextView/LinkTextView.swift:34-40 | the view starts with its initial text, empty `texts`, the colour properties unset and nothing selected |
| View.LinkTextView.UpdateTexts | LinkTextView/LinkTextView.swift:92-124 | empty `texts` leaves the buffer as it was; otherwise the buffer becomes the compiled `texts` |
| View.LinkTextView.SetTexts | LinkTextView/LinkTextView.swift:38 | assigning `texts` stores it and rebuilds the buffer, except when it is empty |
| View.LinkTextView.SetFont | LinkTextView/LinkTextView.swift:40 | assigning `font` rebuilds with the new font, except when `texts` is empty |
| View.LinkTextView.SetTextForegroundColor | LinkTextView/LinkTextView.swift:34 | stores the colour and rebuilds with unchanged attributes |
| View.LinkTextView.SetTextBackgroundColor | LinkTextView/LinkTextView.swift:35 | stores the colour and rebuilds with unchanged attributes |
| View.LinkTextView.SetLinkForegroundColor | LinkTextView/LinkTextView.swift:36 | stores the colour and rebuilds with unchanged attributes |
| View.LinkTextView.SetLinkBackgroundColor | LinkTextView/LinkTextView.swift:37 | stores the colour and rebuilds with unchanged attributes |
| View.LinkTextView.AttributedTextWith | LinkTextView/LinkTextView.swift:184-192 | the overlay loop and `setAttributes` produce exactly `Highlight` of the current buffer |
| View.LinkTextView.TapBegan | LinkTextView/LinkTextView.swift:141-147 | the fields change exactly as `Dispatch.TapBegan` says |
| View.LinkTextView.TapEnded | LinkTextView/LinkTextView.swift:149-156 | the fields change exactly as `Dispatch.TapEnded` says |
| View.LinkTextView.TapCancelled | LinkTextView/LinkTextView.swift:158-164 | the fields change exactly as `Dispatch.TapCancelled` says |
| View.LinkTextView.TapAction | LinkTextView/LinkTextView.swift:129-139 | the fields change exactly as `Dispatch.TapAction` says |

## Left out

- The gesture recognizer subclass and its `canPrevent` override (lines 14-21). These are platform gesture machinery.
- `init`, `setup` and `awakeFromNib` (lines 66-90), including `minimumPressDuration`, `isEditable`, `isScrollEnabled` and `isSelectable`. These are view setup. The constructor only takes the initial text, font and text colour.
- The geometry of hit-testing (lines 167-172): the touch location, the inset subtraction and `characterIndex(for:in:fractionOfDistanceBetweenInsertionPoints:)`. The layout engine's answer is the `Touch` parameter.
- Font, colour and underline values. They are opaque tokens, with no colour or alpha arithmetic.
- UTF-16 indexing of `NSRange`. Indices count cells, one per Unicode scalar (Dafny `char`), not per UTF-16 unit or per Swift `Character`.
- HitTest.LookupAction: an index at or past the end of the buffer is a miss. `NSAttributedString` would raise a range exception there instead.
- HitTest.LookupAction: the range is the maximal stretch of cells carrying the same action. `attribute(_:at:effectiveRange:)` only promises some range with that value around the index.
- HitTest.CompiledHit: the exact-segment conclusion needs distinct actions on link segments. Two touching links whose boxed closures compare equal would merge into one range; the identity of boxed closures is not modelled.
- Dispatch.TapEnded, Dispatch.TapCancelled, View.LinkTextView.TapEnded, View.LinkTextView.TapCancelled, HitTest.Highlight, View.LinkTextView.AttributedTextWith: they require the range being restyled to lie within the buffer. `Dispatch.TapAction` and `View.LinkTextView.TapAction` need this only for `.ended` and the cancel states. If `texts` is reassigned to a shorter text during a press, the revert reads and writes an out-of-range location, and `NSAttributedString` would raise there. That crash is not modelled.
- Dispatch.Replay, Dispatch.ReplayInvocations, Dispatch.ChangesAreIgnored: they require the starting state's selection to lie within the buffer, even when the first event is `.began` or `.changed`, which would not need it.
- View.LinkTextView.SetFont: the inherited `UITextView.font` setter, which runs before `didSet` and restyles the whole displayed text, is not modelled. When `texts` is empty, that restyling stays on screen, but the model keeps the buffer unchanged. `font` and `textColor` are treated as plain stored fields.
- Assigning `textColor`, the `UITextView` property the text attributes read. It does not trigger a rebuild in this class, and UIKit's own effect on the shown text is not visible. The model fixes `textColor` at construction.
- The redraws that assigning `attributedText` causes inside UIKit. Only explicit `setNeedsDisplay` calls are counted.
- Running an action's closure, and any re-entrancy it causes. Invoking is a log append.
- LinkTextView/ViewController.swift is not part of this model. It is a demo that assigns a sample `texts` list.
