# p44featured core in Dafny

p44featured is a daemon for LED installations. This project models four parts of it:

- **Pixel arithmetic of `view.cpp`.** This covers:
  - colour values and rectangles;
  - dimming and saturating add;
  - alpha overlay;
  - the cross-fade in the linear (PWM) domain;
  - the web colour codec.
- **The `View` object.** This covers:
  - its frame and content rectangles;
  - the re-entrant geometry-change transaction that notifies the parent once;
  - the dirty flag;
  - alpha fading driven by `step`;
  - the `colorAt` rendering query, with orientation, wrapping and clipping;
  - next-call bookkeeping;
  - `configureView`, which applies a JSON configuration key by key.
- **`ViewStack`.** An ordered stack of views with push, pop, remove, clear, purge, label lookup and the positioning mode.
- **`LethdApi` and `WifiTrack`.** This covers:
  - the script runner's `@{name}` placeholder substitution;
  - wrapping a single command into a command list;
  - the feature registry;
  - routing an API request to a feature or a global command;
  - the Wi-Fi sighting tracker, which keeps one record per network name (SSID) and one per device (MAC address) and links them to each other.

Modules and files:

| file | module | contents |
|---|---|---|
| `wrappers.dfy` | `Wrappers` | `Option` and `Result` |
| `pixel.dfy` | `Pixel` | colours, rectangles, pixel arithmetic |
| `webcolor.dfy` | `WebColor` | `webColorToPixel` and `pixelToWebColor` with their round trip |
| `view_geometry.dfy` | `ViewGeometry` | orientation and wrap-mode bits, `orientPoint`, the `colorAt` pipeline as a function, the next-call fold, the fade arithmetic |
| `view.dfy` | `Views` | class `View` |
| `viewstack.dfy` | `ViewStacks` | class `ViewStack` |
| `lethdapi.dfy` | `Lethd` | substitution, the script wrapper, the feature registry, request routing |
| `wifitrack.dfy` | `WifiTracking` | the classes `WTSSid`, `WTMac` and `WifiTrack` |

How the model is built:

- Code that changes objects in place is modelled as classes whose methods list the fields they modify.
- Each such method is proved against a specification function or against an explicit description of the new state.
  - `View.ColorAt` against `Render`.
  - The substitution loop against the recursive `Substitute`.
  - `RemoveView` and `PurgeViews` against `Without` and `Kept`.
  - `RecordSighting` against the two-state predicate `Recorded`.
- The properties of those specification functions are proved as lemmas.
- Machine integer types are explicit:
  - `uint8_t` fields wrap modulo 256 where the source stores an `int` in them;
  - C integer division truncates toward zero (`CDiv`).

## Model

| member | source | states |
|---|---|---|
| Pixel.ZeroRectIsEmpty | src/view.hpp:60 | zeroRect has origin 0,0 and no extent |
| Pixel.RectContainsRect | src/view.cpp:338-345 | when the parent contains the child, every point of the child lies in the parent |
| Pixel.RectIntersectsRect | src/view.cpp:347-354 | two rectangles that share a point intersect |
| Pixel.ContainsReflexive | src/view.cpp:338-345 | every rectangle contains itself |
| Pixel.IntersectsSymmetric | src/view.cpp:347-354 | the intersection test does not depend on argument order |
| Pixel.ContainedIntersects | src/view.cpp:338-354 | a child of positive size contained in a parent intersects it |
| Pixel.ContainsIffPointwise | src/view.cpp:338-345 | for a non-empty child, rectContainsRect holds exactly when every point of the child lies in the parent |
| Pixel.IntersectsIffCommonPoint | src/view.cpp:347-354 | for non-empty rectangles, rectIntersectsRect holds exactly when they share a point |
| Pixel.DimVal | src/view.cpp:358-363 | a zero value stays zero; the largest dim factor saturates every non-zero value to 255 |
| Pixel.DimValBounds | src/view.cpp:358-363 | dim factor 255 is the identity, below 255 never brightens, above 255 never darkens |
| Pixel.DimValMonotone | src/view.cpp:358-363 | a larger dim factor never gives a smaller value |
| Pixel.DimmedPixel | src/view.cpp:366-379 | dimming keeps the alpha of the pixel |
| Pixel.AlphaDimmedPixel | src/view.cpp:382-387 | r, g, b never grow, alpha is kept, an opaque pixel is unchanged |
| Pixel.Reduce | src/view.cpp:390-397 | the result is the difference when that stays at or above the minimum, otherwise the minimum |
| Pixel.Increase | src/view.cpp:400-407 | the result is the sum when that stays at or below the maximum, otherwise the maximum |
| Pixel.AddToPixel | src/view.cpp:489-494 | adding never darkens a channel and keeps the alpha |
| Pixel.AddToPixelSaturates | src/view.cpp:489-494 | each colour channel becomes min(sum, 255); alpha is kept |
| Pixel.OverlayPixel | src/view.cpp:410-425 | the composite is always opaque |
| Pixel.OverlayOpaque | src/view.cpp:410-425 | an opaque overlay replaces the base |
| Pixel.OverlayTransparent | src/view.cpp:410-425 | a fully transparent overlay shows the base, made opaque |
| Pixel.OverlayChannelsBounded | src/view.cpp:410-425 | a translucent overlay's channel lies between the dimmed base and the saturated sum of both dimmed parts |
| Pixel.EnergySumBound | src/view.cpp:439-441 | the weighted PWM sum of one channel fits 16 bits, so the shifted channel fits a byte |
| Pixel.MixinPixel | src/view.cpp:428-486 | amount 0 returns the main pixel unchanged; mixing two opaque pixels yields an opaque pixel |
| Pixel.MixinZeroAlphaIsTransparent | src/view.cpp:433-473 | when the combined alpha, wrapped to 8 bits, is 0, the result is transparent |
| Pixel.MixChannelSame | src/view.cpp:439-441 | blending a channel with itself gives its own PWM value whatever the weight |
| Pixel.MixChannelAllOutside | src/view.cpp:439-441 | full weight outside gives the outside channel's PWM value |
| Pixel.MixinSelfOpaque | src/view.cpp:428-486 | cross-fading an opaque pixel with itself returns it, when the brightness tables invert each other on its channels |
| Pixel.MixinAllOutsideOpaque | src/view.cpp:428-486 | an opaque pair at full amount yields the outside pixel, when the tables invert each other on its channels |
| WebColor.DigitValue | src/view.cpp:497-523 | a hex digit's value is below 16 |
| WebColor.HexChar | src/view.cpp:526-532 | the printed nibble is a hex digit that reads back as that nibble |
| WebColor.LeadingHexRun | src/view.cpp:504 | the run sscanf's %x consumes is all hex digits and is followed by a non-digit or the end |
| WebColor.PixelToWebColor | src/view.cpp:526-532 | the printed colour is all hex digits: 6 when opaque and 8 otherwise |
| WebColor.HexValueAppendByte | src/view.cpp:526-532 | appending a printed byte shifts the value by 8 bits and adds the byte |
| WebColor.PrintedValue | src/view.cpp:526-532 | the printed text reads back as the number a<<24 \| r<<16 \| g<<8 \| b, with the alpha part only when printed |
| WebColor.LongFormFields | src/view.cpp:513-520 | the RRGGBB/AARRGGBB decoding takes apart a number built from four bytes |
| WebColor.WebColorToPixel | src/view.cpp:497-523 | the result is opaque unless the text is unparsable (transparent) or is in one of the two forms that carry alpha (ARGB, AARRGGBB) |
| WebColor.RoundTrip | src/view.cpp:497-532 | parsing the printed form of any pixel colour gives that colour back |
| WebColor.UnparsableIsTransparent | src/view.cpp:497-504 | with no hex digit after the optional '#' the result is transparent |
| WebColor.ShortFormRGB | src/view.cpp:505-512 | "#RGB" duplicates each nibble and is opaque |
| WebColor.ShortFormFields | src/view.cpp:505-512 | the short form takes apart three nibbles, each duplicated |
| WebColor.LongFormDefaultsOpaque | src/view.cpp:513-520 | six hex digits give an opaque colour |
| WebColor.LeadingHexRunAll | src/view.cpp:504 | a string of hex digits is consumed entirely |
| WebColor.ExampleShortRed | src/view.cpp:497-523 | "#F00" is opaque red |
| WebColor.ExampleLongWithAlpha | src/view.cpp:497-523 | "#80FF0000" is red with alpha 128 |
| ViewGeometry.NamedOrientations | src/view.hpp:164-174 | right, down, left and up are the stated combinations of xy_swap, x_flip and y_flip |
| ViewGeometry.WrapAndClipBits | src/view.hpp:177-192 | the wrap bits fill the low nibble; the X and Y clip bits are the same two bits 0x30 |
| ViewGeometry.OrientPoint | src/view.cpp:251-263 | without xy swap, or on square content, a point inside the content area stays inside it |
| ViewGeometry.OrientRightIsIdentity | src/view.cpp:251-263 | orientation right leaves a point unchanged |
| ViewGeometry.OrientInvolutive | src/view.cpp:251-263 | flips alone, or the swap alone, undo themselves |
| ViewGeometry.DownUpInverse | src/view.cpp:251-263 | on square content, down and up are inverse to each other |
| ViewGeometry.DownTwiceIsLeft | src/view.cpp:251-263 | on square content, down applied twice is left (a half turn) |
| ViewGeometry.DownNotSelfInverse | src/view.cpp:251-263 | down is not its own inverse |
| ViewGeometry.SizedToContentRight | src/view.cpp:139-149 | with orientation right, sizing to content copies the content size into the frame |
| ViewGeometry.SizedToContentExtents | src/view.cpp:139-149 | for every orientation, sizing to content keeps the frame origin; an unflipped axis takes the content extent (swapped under xy swap); a flipped axis gets -1 without a swap and content.dx - content.dy - 1 (or dy - dx - 1) with one (orientPoint applied to a size) |
| ViewGeometry.WrapAxis | src/view.cpp:293-300 | with a positive size, a coordinate ends inside [0, size) whenever each side it lies beyond has its wrap bit |
| ViewGeometry.WrapAxisBoth | src/view.cpp:293-300 | with both wrap bits and a positive size, the coordinate ends inside [0, size) and equals its Euclidean remainder |
| ViewGeometry.WrapAxisCongruent | src/view.cpp:293-300 | wrapping moves a coordinate by whole content sizes only |
| ViewGeometry.Clipped | src/view.cpp:281-286 | a clipped point always lies outside the content area |
| ViewGeometry.ClipXminAlsoClipsY | src/view.hpp:186-190 | because clipYmin equals clipXmin, clipXmin alone also clips points below y = 0 |
| ViewGeometry.Render | src/view.cpp:267-333 | an invisible view (alpha 0) or a clipped point renders with alpha 0 |
| ViewGeometry.Shade | src/view.cpp:303-329 | the shown alpha is at most that of the fetched colour, or of the background where the fetched colour is fully transparent |
| ViewGeometry.RenderWrapsX | src/view.cpp:293-296 | with X wrapping on both sides, the content is queried inside its width |
| ViewGeometry.RenderWrapsY | src/view.cpp:297-300 | with Y wrapping on both sides, the content is queried inside its height |
| ViewGeometry.RenderMask | src/view.cpp:303-308 | in mask mode a visible content pixel shows the foreground colour |
| ViewGeometry.RenderBackgroundFallback | src/view.cpp:320-325 | a fully transparent content pixel is replaced by the background colour |
| ViewGeometry.RenderAlphaNotRaised | src/view.cpp:326-329 | the view's alpha never raises the shown alpha and leaves it as is at 255 |
| ViewGeometry.RenderBaseView | src/view.hpp:232 | a plain view shows its background wherever it is visible and not clipped |
| ViewGeometry.NextCall | src/view.cpp:170-181 | the result is one of the two inputs, and a pending call is never dropped nor postponed |
| ViewGeometry.FoldNextCall | src/view.cpp:170-181 | the folded result is the pending call or one of the candidates, and a pending call is never dropped nor postponed |
| ViewGeometry.NextCallIsMinimum | src/view.cpp:170-181 | the next call is the earlier of two positive times; a non-positive candidate is ignored; no pending call takes the candidate |
| ViewGeometry.FoldFromPending | src/view.cpp:170-181 | folding candidates into a pending call keeps the earliest positive time, which is one of the inputs |
| ViewGeometry.FoldFromNone | src/view.cpp:170-181 | from no pending call, a call is needed exactly when some candidate is positive, at the earliest such time |
| ViewGeometry.CDiv | src/view.cpp:195 | C division: the remainder a - q*b is smaller than the divisor in magnitude and has the sign of the dividend |
| ViewGeometry.TruncatedRemainder | src/view.cpp:195 | the magnitude quotient, signed by the operand signs, leaves that C remainder |
| ViewGeometry.InterpolatedAlpha | src/view.cpp:189-192 | the interpolated alpha starts at target - distance and reaches the target at the fade time |
| ViewGeometry.CDivExact | src/view.cpp:195 | truncating division of an exact multiple gives the factor |
| ViewGeometry.FadeDownSuggestsPastTime | src/view.cpp:195 | fading down slowly enough makes step suggest a next call in the past (the divisor is the negative distance) |
| Views.WrapCoordinate | src/view.cpp:293-300 | the wrap loops of one axis compute WrapAxis |
| Views.View.constructor | src/view.cpp:29-48 | every field starts at the value the initialiser list gives |
| Views.View.MakeDirty | src/view.hpp:238 | the view becomes dirty |
| Views.View.GeometryChange | src/view.cpp:63-87 | opening increments the counter and, from 0, snapshots frame and content; closing decrements it and, on leaving the outermost level with a change, marks the view dirty and notifies the parent once with the snapshot |
| Views.View.SetFrame | src/view.cpp:91-98 | the frame is set inside one committed transaction |
| Views.View.SetParent | src/view.cpp:101-104 | the parent link is set |
| Views.View.SizeFrameToContent | src/view.cpp:139-149 | the frame size becomes the oriented content size, in one committed transaction |
| Views.View.SetContent | src/view.cpp:107-115 | the content is set and the frame follows it when sizeToContent is on |
| Views.View.SetContentSize | src/view.cpp:118-127 | the content size is set, its origin kept, and the frame follows when sizeToContent is on |
| Views.View.SetFullFrameContent | src/view.cpp:130-136 | the content becomes 0,0 with the frame's size and orientation right; the frame stays |
| Views.View.Clear | src/view.cpp:152-155 | the content size becomes 0x0 with the origin kept |
| Views.View.SetBackgroundColor | src/view.hpp:268 | the background colour is set and the view is dirty |
| Views.View.SetForegroundColor | src/view.hpp:274 | the foreground colour is set and the view is dirty |
| Views.View.SetWrapMode | src/view.hpp:281 | the wrap mode is set and the view is dirty |
| Views.View.SetOrientation | src/view.hpp:316 | the orientation is set and the view is dirty |
| Views.View.SetAlpha | src/view.cpp:213-219 | alpha becomes the int modulo 256; the view becomes dirty only when the value differs |
| Views.View.Hide | src/view.hpp:296 | alpha becomes 0 |
| Views.View.Show | src/view.hpp:299 | alpha becomes 255 |
| Views.View.SetVisible | src/view.hpp:303 | alpha becomes 255 or 0 |
| Views.View.FadeTo | src/view.cpp:229-245 | without time or distance, alpha is set at once and the callback is called; otherwise the fade is armed with its target and callback and alpha is untouched |
| Views.View.StopFading | src/view.cpp:222-226 | fading ends and the callback is dropped |
| Views.View.Step | src/view.cpp:184-210 | not fading: nothing changes and Infinite is returned; during the fade: alpha follows the interpolation and the next call is one alpha step later; at or after the fade time: the target is set, fading ends and the callback is handed out once |
| Views.View.UpdateNextCall | src/view.cpp:170-181 | the result is NextCall of the inputs; a prioritised candidate masks dirty children until twice its distance from now |
| Views.View.ReportDirtyChilds | src/view.cpp:158-167 | dirty children are reported unless a future mask is set; an expired mask is cleared |
| Views.View.IsDirty | src/view.hpp:356 | whether anything changed since the last update: the dirty flag that MakeDirty sets and Updated clears |
| Views.View.Updated | src/view.hpp:359 | the view is no longer dirty |
| Views.View.GetContentSize | src/view.hpp:325 | the content extents as a coordinate pair; SetContentSize states that it reads back the size just set |
| Views.View.ColorAt | src/view.cpp:267-333 | the colour at a point is Render of the view's appearance |
| Views.View.ContentPoint | src/view.cpp:293-302 | the point handed to contentColorAt is the wrapped oriented point shifted by the content origin |
| Views.View.ShadeContent | src/view.cpp:303-329 | the fetched content colour is masked, replaced by the background when transparent, then dimmed by alpha |
| Views.View.GetView | src/view.cpp:632-638 | the view itself is returned exactly when its label matches |
| Views.View.ConfigureView | src/view.cpp:555-629 | every present key sets its field; the frame is the configured frame, resized to the content when sizeToContent is on and the geometry changed; the view becomes dirty exactly for a geometry key, bgcolor, color, wrapmode, orientation, an alpha that differs, or a resize; all inside one transaction that notifies the parent at most once; the result is always ok |
| Views.View.ApplyConfig | src/view.cpp:559-626 | the key groups, then the resize to content when sizeToContent is on and the geometry changed; the frame and the dirty flag as for ConfigureView |
| Views.View.ApplyKeys | src/view.cpp:559-623 | each key group in source order: the frame is FrameAfterKeys of the old state; dirty exactly for a geometry key, a look key that dirties, or orientation |
| Views.View.ApplyFrameKeys | src/view.cpp:559-580 | label, clear, then the frame keys: the frame is FrameAfterKeys of the old state; dirty and changed exactly when clear or a frame key is present |
| Views.View.ApplyLabelAndClear | src/view.cpp:559-564 | label sets the label; a true clear empties the content size |
| Views.View.ApplyFrameRect | src/view.cpp:565-580 | each of x, y, dx, dy that is present sets its frame field and marks a geometry change |
| Views.View.ApplyLookKeys | src/view.cpp:581-595 | colours parse as web colours; alpha, wrap mode and mask are set; dirty exactly for bgcolor, color, wrapmode or an alpha that differs from the current one |
| Views.View.ApplyContentKeys | src/view.cpp:596-623 | the content keys, then orientation and the flags; dirty exactly for a content key, fullframe or orientation |
| Views.View.ApplyContentRect | src/view.cpp:596-611 | each content key that is present sets its field and marks a geometry change |
| Views.View.ApplyContentMode | src/view.cpp:612-623 | orientation, fullframe, sizetocontent and timingpriority; dirty exactly for orientation or fullframe |
| Views.NestedTransactionNotifiesOnce | src/view.cpp:63-98 | two frame changes inside an open transaction notify the parent once, with the geometry from before |
| Views.FadeCompletesOnce | src/view.cpp:184-210 | a completed fade hands out its callback once; the next step has nothing to do |
| Views.StopFadingDropsCallback | src/view.cpp:222-226 | after stopFading, stepping never calls the dropped callback |
| ViewStacks.FirstLabelled | src/viewstack.hpp:102-105 | the index of the first view with the label, and -1 only when none has it |
| ViewStacks.ViewStack.constructor | src/viewstack.hpp:40-41 | a new stack is empty |
| ViewStacks.ViewStack.SetPositioningMode | src/viewstack.hpp:45-51 | the positioning mode is set |
| ViewStacks.ViewStack.GetPositioningMode | src/viewstack.hpp:53-54 | the positioning mode is returned |
| ViewStacks.ViewStack.PushView | src/viewstack.hpp:56-59 | the view goes on top of the stack |
| ViewStacks.ViewStack.PopView | src/viewstack.hpp:67-68 | the topmost view is removed; an empty stack stays empty |
| ViewStacks.ViewStack.RemoveView | src/viewstack.hpp:70-72 | the stack becomes Without(old stack, view) |
| ViewStacks.ViewStack.Clear | src/viewstack.hpp:75-76 | no views remain |
| ViewStacks.ViewStack.PurgeViews | src/viewstack.hpp:61-65 | the stack becomes Kept(old stack, keep, completely) |
| ViewStacks.ViewStack.GetView | src/viewstack.hpp:102-105 | the first view with the label, or null exactly when no view has it |
| ViewStacks.Without | src/viewstack.hpp:70-72 | the stack with the view taken out is never longer than before |
| ViewStacks.Kept | src/viewstack.hpp:61-65 | the purged stack is never longer than before |
| ViewStacks.WithoutMembers | src/viewstack.hpp:70-72 | after removal the view is gone and every other view is still there |
| ViewStacks.KeptMembers | src/viewstack.hpp:61-65 | purging keeps exactly the views that pass the keep test |
| ViewStacks.CompletelyKeptIsPartiallyKept | src/viewstack.hpp:61-65 | a non-empty view kept by a complete purge is also kept by a partial one |
| ViewStacks.AutoResizesIffNoClipBits | src/viewstack.hpp:48 | the stack auto-resizes exactly when neither of the bits 0x30 is set |
| ViewStacks.PushPopRestores | src/viewstack.hpp:56-68 | pushing then popping a view gives back the stack as it was |
| Lethd.FindOpen | src/lethdapi.cpp:130 | a found position is at or after the start and holds "@{" |
| Lethd.FindClose | src/lethdapi.cpp:131 | a found position is at or after the start and holds "}" |
| Lethd.FindOpenFirst | src/lethdapi.cpp:130 | find("@{") returns the first occurrence, and npos only when there is none |
| Lethd.FindCloseFirst | src/lethdapi.cpp:131 | find("}") returns the first occurrence, and npos only when there is none |
| Lethd.OpenFoundAt | src/lethdapi.cpp:130 | the first occurrence at or after the start is what find returns |
| Lethd.CloseFoundAt | src/lethdapi.cpp:131 | the first closing brace at or after the start is what find returns |
| Lethd.Substitute | src/lethdapi.cpp:126-146 | reference definition of the substitution: the text before the first "@{" is kept, the placeholder is replaced by its value, and the text after its "}" is substituted on its own |
| Lethd.SubstituteErrors | src/lethdapi.cpp:131-142 | every failure of the substitution is an unterminated placeholder or names a placeholder missing from the map |
| Lethd.SubstitutePlaceholders | src/lethdapi.cpp:126-146 | the in-place substitution loop computes the reference Substitute |
| Lethd.NoPlaceholderUnchanged | src/lethdapi.cpp:130 | text without "@{" comes through unchanged |
| Lethd.SinglePlaceholder | src/lethdapi.cpp:137-145 | one known placeholder is replaced by its value, even an empty one |
| Lethd.NoReexpansion | src/lethdapi.cpp:144-145 | scanning resumes after the inserted value, so a value is never expanded again |
| Lethd.UnterminatedExample | src/lethdapi.cpp:131-135 | "@{" without a later "}" is an error carrying the text from the placeholder on |
| Lethd.UnknownExample | src/lethdapi.cpp:137-142 | a name missing from the map is an error carrying the name |
| Lethd.ExecuteJson | src/lethdapi.cpp:159-168 | an array runs as is; anything else becomes a one-element command list |
| Lethd.ExecuteJsonWrapOnce | src/lethdapi.cpp:159-168 | wrapping is idempotent |
| Lethd.RunJsonString | src/lethdapi.cpp:123-156 | substitution only with a map; a substitution error stops before parsing; otherwise a parse error, nothing (no object), or the wrapped commands |
| Lethd.Get | src/lethdapi.cpp:277 | a key is found exactly when it is present on an object and not null |
| Lethd.Feature.SetInitialized | src/lethdapi.cpp:286 | the feature reports itself initialised |
| Lethd.LethdApi.constructor | src/lethdapi.hpp:123 | a new API has no features |
| Lethd.LethdApi.AddFeature | src/lethdapi.cpp:227-230 | the feature is filed under its name, replacing an earlier one; other names are unaffected |
| Lethd.LethdApi.GetFeature | src/lethdapi.cpp:217-222 | the feature filed under the name, or null exactly when there is none |
| Lethd.StringValue | src/lethdapi.cpp:301 | the text a JSON value gives as a command name: a string's own text, a scalar's printed text |
| Lethd.LethdApi.RouteRequest | src/lethdapi.cpp:272-328 | a request is only handed to a registered, initialised feature; a global command is one of the six names; nop, global commands and the missing-selector error happen only without a "feature" |
| Lethd.RouteToFeatureIff | src/lethdapi.cpp:277-295 | a request reaches a feature exactly when its "feature" is a string naming a registered, initialised feature |
| Lethd.RouteMissingIff | src/lethdapi.cpp:298-300 | a request is rejected for missing selectors exactly when it has neither "feature" nor "cmd" |
| Lethd.NopIsOk | src/lethdapi.cpp:302-305 | "nop" is answered with ok |
| Lethd.RouteUnknownCommandIff | src/lethdapi.cpp:306-326 | a command is rejected as unknown exactly when it is neither nop nor one of the six global commands |
| Lethd.FeatureSelectorWins | src/lethdapi.cpp:277-295 | with a feature selector present, "cmd" is never looked at; the only rejections are the three feature errors |
| WifiTracking.WTSSid.constructor | src/wifitrack.cpp:29-33 | never seen, count 0, no devices |
| WifiTracking.WTSSid.Saw | src/wifitrack.cpp:181-182 | last seen now, count one more |
| WifiTracking.WTMac.constructor | src/wifitrack.cpp:38-42 | never seen, count 0, no networks |
| WifiTracking.WTMac.Saw | src/wifitrack.cpp:195-197 | last seen now, count one more, signal strength stored |
| WifiTracking.WifiTrack.Valid | src/wifitrack.cpp:170-194 | every network record is filed under its own name and every device record under its own address |
| WifiTracking.WifiTrack.Recorded | src/wifitrack.cpp:168-200 | the effect of one sighting: both keys present, existing records reused, new records fresh, counts and times updated, the two records linked, every other record unchanged |
| WifiTracking.WifiTrack.constructor | src/wifitrack.hpp:87-88 | a new tracker has no records |
| WifiTracking.WifiTrack.FindOrCreateSSid | src/wifitrack.cpp:170-180 | the record filed under the name; a fresh, empty record is created and filed only for an unseen name |
| WifiTracking.WifiTrack.FindOrCreateMac | src/wifitrack.cpp:184-194 | the record filed under the address; a fresh, empty record is created and filed only for an unseen address |
| WifiTracking.WifiTrack.Touch | src/wifitrack.cpp:181-200 | both records count the sighting at now, the device takes the signal strength, and each links to the other |
| WifiTracking.WifiTrack.RecordSighting | src/wifitrack.cpp:168-200 | both keys present, existing records reused, new records fresh, counts and times updated, the two linked both ways, every other record unchanged, and every record filed under its own key |
| WifiTracking.WifiTrack.GotDumpLine | src/wifitrack.cpp:152-205 | a read error, no line or a non-matching line changes nothing; a matching line is recorded as its decoded sighting |
| WifiTracking.AddSSidConsistent | src/wifitrack.cpp:170-180 | filing a new network record without links keeps links mirrored |
| WifiTracking.AddMacConsistent | src/wifitrack.cpp:184-194 | filing a new device record without links keeps links mirrored |
| WifiTracking.LinkConsistent | src/wifitrack.cpp:199-200 | linking a known device and network in both directions keeps links mirrored |
| WifiTracking.RecordKeepsLinksConsistent | src/wifitrack.cpp:170-200 | one recorded sighting keeps every device-to-network link mirrored by a network-to-device link and back |

## Left out

- hsbToPixel (src/view.cpp:536): floating-point colour conversion.
- brightnessToPwm and pwmToBrightness: tables declared in ledchaincomm.hpp (included by src/view.cpp:23), which is not part of this model. `MixinPixel` takes them as parameters (`toPwm`, `toBrightness`). The mixin lemmas that need them to invert each other say so in their requires.
- Views.View.Step: the interpolated alpha is computed in double precision in the source. The model uses the exact rational value truncated toward zero, so rounding differences of the double computation are not captured.
- WebColor.WebColorToPixel: sscanf's skipping of leading white space, its sign and its "0x" prefix are not modelled. The value of the leading hex run is taken modulo 2^32.
- Views.View.SetAlpha and Views.View.ConfigureView take an int that is already within int32. Int conversion of JSON values beyond that range is not modelled.
- The rssi field of a sighting is taken as an already converted int. The "%d" conversion is not modelled.
- The main-loop clock, the tcpdump stream, the regular-expression line decoder and stringToMacAddress are parameters:
  - `now` is passed in;
  - `readError` and `line` stand for the stream;
  - `decode` stands for the pattern match and the capture conversions.
- Never and Infinite (constants of the p44utils main loop, reached through p44utils_common.hpp, which is not part of this model) are given the values 0 and -2. These match how view.cpp uses them: at most 0 means "no call needed", and Never means "no mask".
- Callbacks are opaque tokens (`Callback`). A method that would call one returns the token it calls instead.
- JSON parsing is a parameter of `RunJsonString`.
- The feature handlers, the global command handlers (call, init, reset, now, status, ping), executeNextCmd and runCmd scheduling, and all request I/O are outside the model. `RouteRequest` decides only where a request goes.
- Lethd.StringValue: arrays and objects are printed as fixed placeholders rather than as their JSON text.
- ConfigValue: a JSON value as configureView reads it is a record of its string, bool and int32 conversions. JsonObject comes from p44utils (jsonobject.hpp, included by src/view.hpp:32), which is not part of this model.
- Views.View.ConfigureView always returns ok, as the code does, including for a configuration that is not an object.
- Views.View.SizeFrameToContent is modelled as written: the content size is passed through orientPoint. `SizedToContentExtents` states the resulting extents for every orientation: -1 on a flipped axis without xy swap, the difference of the content extents minus 1 with it.
- ViewStack:
  - In the source a ViewStack is a View (src/viewstack.hpp:29). The model's `ViewStack` carries only the stack and the positioning mode, not the View state (frame, content, colours, alpha, dirty flag).
  - The overrides of clear, configureView and contentColorAt (src/viewstack.hpp:76, 100, 116) are not modelled: configuring a stack's own look and compositing the stacked views' colours are outside the model.
  - The override of getView (src/viewstack.hpp:105) is modelled only as a search of the stacked views' own labels. It does not check the stack's own label and does not descend into nested stacks.
  - Where pushView places a view (spacing and direction) is not modelled.
  - How the content bounds are recomputed is not modelled.
  - How purgeViews measures its keep rectangle is not modelled; `PurgeViews` receives that rectangle.
  - step, isDirty, updated and childGeometryChanged are not modelled.
  - The initial positioning mode is not modelled.
  - Those bodies are not part of the header. `RemoveView` removes every occurrence of the view.
- ViewStacks.ViewStack.GetView searches from the bottom of the stack. The header does not say in which order its body searches.
- Views.View.GetView covers only the view's own label. Subviews are the stack's business.
- WifiTracking.WifiTrack.RecordSighting:
  - Both records are looked up (or created) before either is updated. The source updates the SSID record between the two lookups.
  - The two orders end in the same state because the SSID update touches only fields of the SSID record.
- WifiTracking.WifiTrack.Valid states only that each record is filed under its own key. That links are mirrored is proved on a value abstraction of the link maps (`LinksConsistent`, `RecordKeepsLinksConsistent`), not as a class invariant.
- WifiTracking.WifiTrack.GotDumpLine: processSighting only logs and is not modelled.
- seenCount is a C long in the source. Its overflow is not modelled.
- wifitrack.hpp declares lastRssi, bestRssi and worstRssi, while wifitrack.cpp assigns a single rssi. The model follows the .cpp.
