# texel_types in Dafny

A verified model of the core of the `texel_types` library: the data types of
a terminal ASCII-art editor. A *texel* is a positioned character with a style
set and two colour indices. A *sprite* is a list of frames of texels with a
current frame index, and it is edited in place: symbols, colours and styles
are applied to rectangular areas, texels are pasted, frames are added and
removed. A *scene* is a versioned list of positioned sprites.

The model follows the library's own layout, one Dafny module per concern:

| file | module | what it holds |
|---|---|---|
| `common.dfy` | `Common` | machine integer ranges, `SymbolStyle`, `ColorMode`, `Which`, `Option`, UTF-8 byte length |
| `coordinates.dfy` | `Coordinates` | `Position`, `Position2D` and their arithmetic |
| `texel.dfy` | `Texels` | `Texel`, `moved_from`, `texels_from_str`, `write_to_texels` (over an `array`) |
| `dimension.dfy` | `Dimensions` | `Dimension`, saturating subtraction, `size`, `for_area`, `for_sprite` (a loop) |
| `bounds.dfy` | `Geometry` | `Bounds`, containment, intersection, the row-major iterator (a class with a cursor), `area`, `area_texels` |
| `movement.dfy` | `Movement` | `Translation`, `Direction`, `Position::apply` and `Position2D::apply` |
| `frame_edit.dfy` | `FrameEdits` | the effect of every area edit on one frame, as functions, with cell-by-cell lemmas |
| `normalization.dfy` | `Normalization` | what `calculate_bounds` does to all frames, with its lemmas |
| `sprite.dfy` | `Sprites` | the `Sprite` class with its editing methods, `SpriteV1` and the lift from it |
| `text_import.dfy` | `TextImport` | the character walk of the text-file importer and the size limit |
| `scene.dfy` | `Scenes` | `SceneV1`, `SceneV2`, `Scene::current`, `Scene::default` |

The sprite is a `class` whose methods change `frames` and `index` in place,
as the original does. Each editing method is proved equal to a function on
the old frames (`Symbolled`, `PlaceAll`, `Colored`, `StyleToggled`,
`Outside`, `Normalized`), and the lemmas about those functions state what
the edit means: which texel each cell holds afterwards, what stays the same,
and that no cell gets two texels. The predicate `Sprite.Valid()`, that the
index names a frame, holds after each constructor and every method keeps
it. Loops of the original are loops here, with invariants (`for_sprite`, the iterator drain, `area_texels`,
`texels_from_str`, `write_to_texels`, the colour loop of `apply_color`, the
corner search and the shift of `calculate_bounds`, the text walk).

Integers are unbounded. Where a 16-bit quantity matters the model is
explicit: `as u16` keeps the low 16 bits, `try_into` fails to 0, and
`size()` requires that `w * h` fits in 16 bits.

Three facts about the code that the model keeps:
- The default foreground is `0xE8 + 16` = 248 (`src/sprite.rs:14`).
- `for_sprite` gives (1, 1) for a sprite without texels
  (`src/dimension.rs:66-86`).
- `Position::apply` on binding bounds repairs only the first violated side,
  so it does not always land inside them (see Findings).

## Model

| member | source | states |
|---|---|---|
| Common.Toggle | src/sprite.rs:304-310 | flipping a style removes it when present and adds it otherwise; other styles keep their membership |
| Common.ToggleInvolution | src/sprite.rs:304-310 | flipping the same style twice restores the style set |
| Common.Utf8Width | src/texel.rs:58 | a character takes 1 to 4 bytes in UTF-8 |
| Common.Utf8Length | src/texel.rs:58 | the byte length `str::len` reports lies between the character count and four times it |
| Common.Utf8LengthAscii | src/texel.rs:58 | for ASCII text the byte length equals the character count |
| Coordinates.Position.Plus2D | src/position.rs:213-223 | adding a planar offset moves x and y by it and keeps z |
| Coordinates.Position.Flat | src/position.rs:190-194 | the definition, no contract of its own; the planar part `(x, y)` of a position, its meaning carried by `Minus3D` and `Apply2D` |
| Coordinates.Position.PlusScalar | src/position.rs:225-235 | adding a number adds it to x and to y alike and keeps z |
| Coordinates.Position.Minus | src/position.rs:258-268 | subtraction is undone by adding back, in the plane and in z |
| Coordinates.Position2D.Plus | src/position.rs:202-211 | adding is undone by subtracting the same point |
| Coordinates.Position2D.Minus | src/position.rs:270-279 | subtracting is undone by adding the same point |
| Coordinates.Position2D.Minus3D | src/position.rs:281-290 | subtracting a 3D position ignores its z |
| Coordinates.FromXY | src/position.rs:351-353 | the point has the given coordinates |
| Coordinates.PlusMinusInverse | src/position.rs:202-279 | planar addition and subtraction are inverse to each other |
| Coordinates.MinusOrigin | src/position.rs:162-166 | the default point (0, 0) is neutral for addition and subtraction |
| Texels.Texel.MovedFrom | src/texel.rs:27-33 | the copy's position plus the origin gives back the position; symbol, styles and colours are unchanged |
| Texels.Plain | src/texel.rs:41-47 | a texel with the given position and symbol, no styles, bg 16 and fg 248 |
| Texels.MovedFromRoundTrip | src/texel.rs:27-33 | moving from `o` and then from `-o` gives back the texel |
| Texels.Flatten | src/sprite.rs:146-148 | the definition, no contract of its own beyond the empty case; `frames.iter().flatten()`, whose meaning is `FlattenMember` and `FlattenEmpty` |
| Texels.FlattenEmpty | src/sprite.rs:146-148 | the list of all texels is empty exactly when every frame is empty |
| Texels.FlattenMember | src/sprite.rs:146-148 | a texel is listed exactly when some frame holds it |
| Texels.TextRow | src/texel.rs:37-51 | one texel per character of the string |
| Texels.Symbols | src/texel.rs:37-51 | the symbols of a row, one per texel |
| Texels.TexelsFromStr | src/texel.rs:37-51 | one texel per character, spaces included, in order; the i-th sits at `(start.x + i, start.y)`, carries the i-th character, no style and the default colours |
| Texels.TextRowSymbols | src/texel.rs:37-51 | the symbols of the built row spell the string back |
| Texels.Overwritten | src/texel.rs:57-66 | the write succeeds exactly when the start plus the byte length of the string fits; then only the symbols of the cells from the start on change |
| Texels.WriteToTexels | src/texel.rs:57-66 | refuses and changes nothing when the start plus the byte length exceeds the list; otherwise writes the characters into the symbols from the start on and changes nothing else |
| Texels.OverwriteTextRow | src/texel.rs:37-66 | writing an ASCII string of the same length over a built row gives the row built from the new string |
| Dimensions.Dimension.Minus | src/dimension.rs:22-38 | subtraction stops at 0 in each axis separately |
| Dimensions.Dimension.Size | src/dimension.rs:48-50 | the cell count is below 2^16 and is 0 exactly when an axis is 0 |
| Dimensions.Unit | src/dimension.rs:43-45 | the unit dimension holds one cell |
| Dimensions.FromWH | src/dimension.rs:61-63 | the dimension has the given width and height |
| Dimensions.AsU16 | src/dimension.rs:55-56 | the 16-bit cast keeps values that fit |
| Dimensions.ForArea | src/dimension.rs:53-58 | each axis is the corners' difference plus one when that fits in 16 bits |
| Dimensions.ForAreaSamePoint | src/dimension.rs:53-58 | the area of a point with itself is the unit dimension |
| Dimensions.ForAreaWraps | src/dimension.rs:55-56 | a span of exactly 2^16 cells wraps to width 0 |
| Dimensions.TryU16 | src/dimension.rs:83-84 | a value that fits is kept, any other becomes 0 |
| Dimensions.ForSprite | src/dimension.rs:66-86 | the loop over all texels of all frames computes the extent `(max(0, largest x) + 1, max(0, largest y) + 1)`, with an axis that does not fit becoming 0; the frame index is not an input |
| Dimensions.MaxXIsMaximum | src/dimension.rs:67-77 | the running maximum of x is at least 0, bounds every x and is 0 or attained |
| Dimensions.MaxYIsMaximum | src/dimension.rs:67-77 | the running maximum of y is at least 0, bounds every y and is 0 or attained |
| Dimensions.MaxX | src/dimension.rs:67-77 | the definition, no contract of its own; the running maximum of x from 0, whose meaning is `MaxXIsMaximum` |
| Dimensions.MaxY | src/dimension.rs:67-77 | the definition, no contract of its own; the running maximum of y from 0, whose meaning is `MaxYIsMaximum` |
| Dimensions.SpriteExtent | src/dimension.rs:66-86 | the definition, no contract of its own; the extent `for_sprite` returns, tied to its loop by `ForSprite` and given meaning by `ForSpriteEncloses` and `ForSpriteNoTexels` |
| Dimensions.ForSpriteNoTexels | src/dimension.rs:66-86 | a sprite without texels has extent (1, 1) |
| Dimensions.ForSpriteEncloses | src/dimension.rs:66-86 | when both axes fit, every texel lies strictly inside the extent, and the extent is tight |
| Dimensions.ForSpriteTooWide | src/dimension.rs:83-84 | a texel at x of 2^16 - 1 or more makes the width 0 |
| Geometry.Bounds.Size | src/position.rs:112-115 | the cell count of the bounds is the width times the height of their dimension |
| Geometry.Bounds.Minus | src/position.rs:74-83 | subtracting a point keeps the kind and the dimension and moves the anchor by it |
| Geometry.Bounds.Right | src/position.rs:117-120 | the definition, no contract of its own; the last column `x + w - 1`, whose meaning is `ContainsWithinEdges` |
| Geometry.Bounds.Bottom | src/position.rs:122-125 | the definition, no contract of its own; the last row `y + h - 1`, whose meaning is `ContainsWithinEdges` |
| Geometry.Bounds.Contains | src/position.rs:127-136 | the definition, no contract of its own; half-open containment, whose meaning is `ContainsWithinEdges` and `PositionsAreContents` |
| Geometry.Bounds.Intersects | src/position.rs:138-153 | the definition, no contract of its own; the strict four-sided overlap test, whose meaning is `IntersectsIffOverlap` and `IntersectsZeroWidth` |
| Geometry.Bounds.Positions | src/position.rs:58-71 | the iteration yields `size()` positions |
| Geometry.Empty | src/position.rs:86-89 | the empty bounds are free, anchored at (0, 0) with dimension (0, 0), hold no cell and contain nothing |
| Geometry.Point | src/position.rs:92-94 | point bounds are binding, hold one cell and contain exactly that point |
| Geometry.CoordsFromIndex | src/position.rs:437-446 | decoding succeeds exactly for indices below `w * h` |
| Geometry.PositionAt | src/position.rs:58-71 | the i-th position yielded is `(x + i % w, y + i / w)` and is contained in the bounds |
| Geometry.PositionFormula | src/position.rs:437-446 | the i-th position yielded is `(x + i % w, y + i / w)` |
| Geometry.CellInside | src/position.rs:437-446 | the decoded cell of every index below the size is contained |
| Geometry.ContainedIsYielded | src/position.rs:58-71 | every contained cell is yielded at some index |
| Geometry.PositionsAreContents | src/position.rs:58-71 | a cell is yielded exactly when the bounds contain it |
| Geometry.PositionsRowMajor | src/position.rs:437-446 | earlier indices are on an earlier row, or on the same row further left |
| Geometry.PositionsDistinct | src/position.rs:437-446 | no cell is yielded twice |
| Geometry.MinusContains | src/position.rs:74-83 | shifting the bounds and the point alike keeps containment |
| Geometry.ContainsWithinEdges | src/position.rs:118-136 | containment is the closed box from the anchor to `right()` and `bottom()` |
| Geometry.IntersectsIffOverlap | src/position.rs:139-153 | a shared cell implies intersection; for non-empty rectangles intersection implies a shared cell |
| Geometry.IntersectsZeroWidth | src/position.rs:139-153 | a zero-width rectangle contains nothing yet intersects one that spans its column |
| Geometry.BoundsIterator.constructor | src/position.rs:39-44 | the cursor starts at index 0 over the given bounds |
| Geometry.BoundsIterator.Next | src/position.rs:58-71 | yields the cell at the cursor and advances while below the size; afterwards yields nothing and keeps the cursor |
| Geometry.Collect | src/position.rs:35-71 | draining a fresh iterator gives exactly the row-major positions |
| Geometry.IterationExample | src/position.rs:58-71 | a 2x2 area at (2, 3) yields (2,3), (3,3), (2,4), (3,4) |
| Geometry.Area | src/position.rs:376-389 | the area of two corners is binding and anchored at their componentwise minimum |
| Geometry.AreaEncloses | src/position.rs:376-389 | the area contains both corners, measures `|dx| + 1` by `|dy| + 1`, and lies inside every bounds containing both corners |
| Geometry.Column | src/position.rs:392-402 | one column lists `h` cells |
| Geometry.AreaTexels | src/position.rs:392-402 | builds the cells column by column, each column top to bottom |
| Geometry.ColumnsAreContents | src/position.rs:392-402 | the list has `w * h` cells, exactly those of the rectangle |
| Movement.Translated | src/position.rs:304-325 | `None` keeps the position, `Relative` adds the offset, `Absolute` sets x and y and sets z only when given, `ToEdge` sets x to the anchor's x (Left) or to `right()` (Right), or y to the anchor's y (Top) or to `bottom()` (Bottom), whatever the kind of bounds, and keeps the other coordinates |
| Movement.Apply | src/position.rs:304-347 | the move is the translation followed by the clamp chain; true exactly when the bounds are free or the translated position is within the edges; z is never clamped |
| Movement.Clamp | src/position.rs:327-344 | the definition, no contract of its own; the first-hit clamp chain, whose meaning is `ClampOrder`, `ClampTouchesOneCoordinate`, `FreeNeverClamps` and `ClampLeavesOutside` |
| Movement.ClampTouchesOneCoordinate | src/position.rs:327-344 | the clamp keeps z, changes at most one of x and y, and reports true exactly when it changed nothing |
| Movement.ClampOrder | src/position.rs:329-343 | the sides are tested in the order left, top, right, bottom and only the first violated one is repaired |
| Movement.FreeNeverClamps | src/position.rs:345 | free bounds always accept the translated position, also after a move to an edge |
| Movement.ClampLeavesOutside | src/position.rs:329-343 | a move past two sides ends outside the bounds |
| Movement.ClampInside | src/position.rs:327-344 | repairing every violated side lands inside non-empty binding bounds; same verdict; z kept |
| Movement.ClampAgreement | src/position.rs:327-344 | the chain and the full repair agree on the verdict, and on the position when at most one axis was violated |
| Movement.Apply2D | src/position.rs:359-373 | the new x and y are kept only when the 3D move returned true; otherwise the point does not move |
| Movement.Apply2DIndependentOfClamp | src/position.rs:359-373 | the planar move gives the same result whichever clamp the 3D move uses |
| Movement.ClampedMoveExample | src/position.rs:329-331 | a move left past the edge is refused |
| Movement.ToEdgeExample | src/position.rs:323 | moving to the right edge of a 4x4 area lands on column 3 |
| FrameEdits.FindAt | src/sprite.rs:251-253 | the index of the first texel at the cell, or none when no texel is there |
| FrameEdits.TexelAt | src/sprite.rs:251-253 | the texel found is in the frame at the cell; none exactly when no texel is there |
| FrameEdits.FindAtSamePositions | src/sprite.rs:270 | the search depends only on positions |
| FrameEdits.TexelAtTail | src/sprite.rs:251-253 | past a head at another cell the search continues in the tail |
| FrameEdits.TexelAtConcat | src/sprite.rs:251-257 | in a concatenation the left part is searched first |
| FrameEdits.TexelAtDistinct | src/sprite.rs:251-253 | in a frame without stacked texels each texel is the one found at its cell |
| FrameEdits.Outside | src/sprite.rs:320 | the kept texels are exactly those not inside the area |
| FrameEdits.OutsideNothingInside | src/sprite.rs:320 | removal with nothing inside keeps the frame |
| FrameEdits.OutsideLength | src/sprite.rs:319-322 | removal keeps the length exactly when no texel lay inside |
| FrameEdits.TexelAtOutside | src/sprite.rs:320 | afterwards nothing is found inside the area and everything outside is found as before |
| FrameEdits.OutsideDistinct | src/sprite.rs:320 | removal keeps a frame free of stacked texels |
| FrameEdits.Painted | src/sprite.rs:232-240 | one fresh texel per listed cell |
| FrameEdits.TexelAtPainted | src/sprite.rs:232-240 | a listed cell holds a texel with the symbol, the colours and no style; others hold nothing |
| FrameEdits.SymbolledAt | src/sprite.rs:227-243 | after the edit each cell of the area holds the new symbol and colours with no style; each other cell is as before |
| FrameEdits.Symbolled | src/sprite.rs:227-240 | the definition, no contract of its own; the current frame after `apply_symbol`'s retain and push, whose meaning is `SymbolledAt` and `SymbolledDistinct` |
| FrameEdits.SymbolledDistinct | src/sprite.rs:227-243 | the edit keeps a frame free of stacked texels |
| FrameEdits.Place | src/sprite.rs:251-258 | one placement either overwrites in place or appends the texel |
| FrameEdits.Localized | src/sprite.rs:248-249 | the pasted copy is moved by the offset and otherwise unchanged |
| FrameEdits.LastAt | src/sprite.rs:247-259 | the last pasted texel landing on a cell is at that cell |
| FrameEdits.TexelAtPlace | src/sprite.rs:251-258 | after one placement the cell of the texel holds it, and every other cell is as before |
| FrameEdits.TexelAtPlaceAll | src/sprite.rs:246-262 | after pasting, a cell holds the last pasted texel landing on it, or what it held before when none lands there |
| FrameEdits.PlaceAll | src/sprite.rs:246-259 | the definition, no contract of its own; the current frame after `apply_texels`' loop, whose meaning is `TexelAtPlaceAll` and `PlaceAllDistinct` |
| FrameEdits.PlaceDistinct | src/sprite.rs:251-258 | one placement never stacks two texels on a cell |
| FrameEdits.PlaceAllDistinct | src/sprite.rs:246-262 | pasting never stacks two texels on a cell |
| FrameEdits.Recolor | src/sprite.rs:271-274 | the chosen channel gets the colour; all else is kept |
| FrameEdits.Background | src/sprite.rs:277-288 | the added blank has symbol space, no style, the colour in the chosen channel and the default in the other |
| FrameEdits.ColorStep | src/sprite.rs:270-275 | one step keeps the length and every position |
| FrameEdits.ColorPass | src/sprite.rs:269-292 | the in-place recolouring keeps the length and every position |
| FrameEdits.Missing | src/sprite.rs:276-289 | at most one blank per cell of the area |
| FrameEdits.TexelAtColorPass | src/sprite.rs:269-292 | after the in-place pass a cell of the area holds its texel recoloured, and other cells are as before |
| FrameEdits.LastAtSnoc | src/sprite.rs:247-259 | a texel appended to the paste list wins at its cell |
| FrameEdits.LastAtMissing | src/sprite.rs:276-292 | a blank is collected exactly for the cells of the area where nothing was found |
| FrameEdits.ColoredAt | src/sprite.rs:265-298 | after the edit cells outside the area are untouched; a cell inside holds its texel recoloured, or a new blank when it was empty; either way its channel holds the colour |
| FrameEdits.Colored | src/sprite.rs:265-295 | the definition, no contract of its own; the current frame after `apply_color`'s loop and paste, whose meaning is `ColoredAt` |
| FrameEdits.StyleToggled | src/sprite.rs:301-315 | the edit keeps the frame's length |
| FrameEdits.StyleToggledTwice | src/sprite.rs:301-315 | applying the same style to the same area twice restores the frame |
| FrameEdits.StyleToggledKeeps | src/sprite.rs:301-315 | only the styles of texels inside the area change, by flipping the style; positions, symbols and colours stay |
| FrameEdits.Copied | src/sprite.rs:136-143 | the copy is no longer than the frame |
| FrameEdits.CopiedContents | src/sprite.rs:136-143 | a texel is copied exactly when it is a texel of the area moved relative to the area's corner |
| FrameEdits.CopiedWithinArea | src/sprite.rs:136-143 | the copy lies inside the area moved to the origin |
| FrameEdits.LastAtCopied | src/sprite.rs:136-143 | pasting a copy back at the corner puts at each cell of the area the texel it held |
| FrameEdits.CopyPasteRestores | src/sprite.rs:136-143 | pasting a copy of an area at its own corner leaves every cell of a frame without stacked texels as it was |
| Normalization.NoTexelsIffFlattenEmpty | src/sprite.rs:330-338 | the sprite is empty exactly when the list of all its texels is empty |
| Normalization.NoTexels | src/sprite.rs:330-338 | the definition, no contract of its own; `is_empty`, whose meaning is `NoTexelsIffFlattenEmpty` |
| Normalization.MinXIsMinimum | src/sprite.rs:347-358 | the corner search's x is at most `i32::MAX`, bounds every x and is attained unless it stayed at `i32::MAX` |
| Normalization.MinYIsMinimum | src/sprite.rs:347-358 | the same for y |
| Normalization.Corner | src/sprite.rs:347-358 | the definition, no contract of its own; the corner the loop finds, whose meaning is `CornerAttained`, `MinXIsMinimum` and `MinYIsMinimum` |
| Normalization.MinAtZero | src/sprite.rs:347-358 | when no coordinate is negative and one is 0, the search finds 0 |
| Normalization.ShiftFrame | src/sprite.rs:362-369 | shifting keeps the frame's length |
| Normalization.Shift | src/sprite.rs:362-369 | shifting keeps the number of frames |
| Normalization.BoundsOf | src/sprite.rs:342-376 | the returned bounds are free |
| Normalization.Normalized | src/sprite.rs:342-370 | the definition, no contract of its own; the frames after `calculate_bounds`, whose meaning is `NormalizedIsShiftByCorner`, `NormalizedAtOrigin` and `NormalizedIdempotent` |
| Normalization.NormalizedIsShiftByCorner | src/sprite.rs:361-375 | every texel is moved by exactly the returned anchor |
| Normalization.FlattenShift | src/sprite.rs:362-369 | shifting every frame shifts the list of all texels |
| Normalization.CornerAttained | src/sprite.rs:347-358 | on a sprite with texels the corner is the componentwise minimum and is attained in each axis |
| Normalization.NormalizedAtOrigin | src/sprite.rs:342-376 | after the shift no coordinate is negative and the minimum x and y are both 0 |
| Normalization.ShiftZero | src/sprite.rs:361 | a zero shift changes nothing |
| Normalization.ShiftKeepsEmptiness | src/sprite.rs:362-369 | shifting keeps every frame's emptiness |
| Normalization.NormalizedIdempotent | src/sprite.rs:342-376 | recomputing the bounds right after changes nothing and returns the same dimension at the origin |
| Normalization.ShiftDistinct | src/sprite.rs:362-369 | shifting keeps a frame free of stacked texels |
| Normalization.BoundsOfEncloses | src/sprite.rs:372-375 | the returned bounds contain every texel at its old position, when the extent fits |
| Normalization.FlattenSingle | src/sprite.rs:146-148 | a one-texel sprite lists that texel |
| Normalization.NormalizeSingle | src/sprite.rs:342-376 | a one-texel sprite is moved to the origin and reports a unit rectangle at the texel's old cell |
| Normalization.WithTexels | src/sprite.rs:343-375 | on a sprite with texels the frames are shifted by the corner and the bounds are the corner with the new extent |
| Normalization.SingleCorner | src/sprite.rs:347-358 | the corner of a one-texel sprite is its texel's cell |
| Normalization.SingleShift | src/sprite.rs:362-369 | shifting a one-texel sprite moves its texel |
| Normalization.SingleExtent | src/dimension.rs:66-86 | a texel at the origin has extent (1, 1) |
| Normalization.MaxAtOrigin | src/dimension.rs:67-77 | a texel at the origin gives running maxima 0 |
| Sprites.LiftRoundTrip | src/sprite.rs:45-54 | lifting a first-format sprite keeps its frames and index and adds no id and no labels |
| Sprites.Lift | src/sprite.rs:45-54 | the definition, no contract of its own; `From<SpriteV1>`, whose meaning is `LiftRoundTrip` |
| Sprites.FrameChangeStaysValid | src/sprite.rs:111-133 | from a valid index every frame change keeps the index valid and returns it; `All`, an out-of-range `At` and `Next` on the last frame leave it unchanged |
| Sprites.FrameChange | src/sprite.rs:110-133 | the definition, no contract of its own; the new index and result of `apply_frame_change`, whose meaning is `FrameChangeStaysValid` and `NextThenPrevious` |
| Sprites.NextThenPrevious | src/sprite.rs:111-133 | `Previous` undoes a successful `Next` |
| Sprites.InsertCopyShape | src/sprite.rs:93-97 | one frame more; the frames at the index and after it both equal the old current frame; the others keep their order |
| Sprites.InsertCopy | src/sprite.rs:92-97 | the definition, no contract of its own; `insert(index, clone)`, whose meaning is `InsertCopyShape` |
| Sprites.RemoveAtShape | src/sprite.rs:100-108 | one frame less; the frames before the index stay and those after it move down by one |
| Sprites.RemoveAt | src/sprite.rs:99-108 | the definition, no contract of its own; `remove(index)`, whose meaning is `RemoveAtShape` |
| Sprites.ShiftFrameLoop | src/sprite.rs:362-369 | the shift loop, subtracting only a non-zero minimum on each axis, gives the frame re-expressed relative to the corner |
| Sprites.ColorCells | src/sprite.rs:266-292 | the loop produces the recoloured frame and the collected blanks, and reports a change exactly when the area has a cell |
| Sprites.Sprite.Default | src/sprite.rs:56-65 | one empty frame, index 0, no id, no labels |
| Sprites.Sprite.FromTexels | src/sprite.rs:203-210 | one frame holding the texels, index 0, no id, no labels |
| Sprites.Sprite.IsEmpty | src/sprite.rs:330-338 | true exactly when no frame holds a texel |
| Sprites.Sprite.SetFrame | src/sprite.rs:125-133 | a valid index is taken and returned; an invalid one is refused and the index is left untouched |
| Sprites.Sprite.ApplyFrameChange | src/sprite.rs:111-122 | the new index and the result are those of the frame change, which keeps the index valid |
| Sprites.Sprite.NewFrame | src/sprite.rs:93-97 | inserts a copy of the current frame at the index and moves to the next one |
| Sprites.Sprite.DeleteFrame | src/sprite.rs:100-108 | on a one-frame sprite returns false and changes nothing; otherwise removes the current frame, sets the index to `max(i, 1) - 1` and returns true |
| Sprites.Sprite.CopyArea | src/sprite.rs:136-143 | returns the copy of the area from the current frame and changes nothing |
| Sprites.Sprite.CalculateBounds | src/sprite.rs:342-376 | shifts every texel of every frame by the corner and returns the free bounds of the corner and the extent; an empty sprite is unchanged and gets the empty bounds |
| Sprites.Sprite.ApplySymbol | src/sprite.rs:227-243 | the current frame keeps its texels outside the area, followed by one new texel per cell of the area in iteration order, and the sprite is then re-anchored |
| Sprites.Sprite.ApplyTexels | src/sprite.rs:246-262 | each pasted texel overwrites the first texel at its cell or is appended, and the sprite is then re-anchored |
| Sprites.Sprite.ApplyColor | src/sprite.rs:265-298 | colours every cell of the area as `Colored` says, re-anchors the sprite, and reports a change exactly when the area has a cell |
| Sprites.Sprite.ApplyStyle | src/sprite.rs:301-315 | flips the style on exactly the current-frame texels inside the area, changes nothing else, and reports whether there was one |
| Sprites.Sprite.ClearSymbol | src/sprite.rs:318-327 | removes the current-frame texels inside the area; when something was removed re-anchors and returns the bounds, otherwise changes nothing and returns none |
| Sprites.Sprite.FillColor | src/sprite.rs:213-217 | re-anchors, then colours the area of the returned bounds, which is anchored at the old corner |
| Sprites.Sprite.FillStyle | src/sprite.rs:220-224 | re-anchors, then flips the style inside the returned bounds, anchored at the old corner |
| Sprites.Sprite.FillColorAnchored | src/sprite.rs:213-217 | the corrected fill: colours the extent placed at the origin |
| Sprites.Sprite.FillStyleAnchored | src/sprite.rs:220-224 | the corrected fill: flips the style inside the extent placed at the origin |
| Sprites.NormalizedInsideExtent | src/sprite.rs:342-376 | after re-anchoring every texel lies in the extent placed at the origin |
| Sprites.FillStyleAnchoredTogglesAll | src/sprite.rs:220-224 | the corrected fill flips the style on every texel of the current frame, and reports true exactly when the frame has one |
| Sprites.FillColorAnchoredCoversAll | src/sprite.rs:213-217 | the corrected fill recolours every texel of the current frame in place |
| Sprites.FillStyleMissesTexel | src/sprite.rs:220-224 | on a one-texel sprite off column 0 the fill as written flips nothing and reports false |
| Sprites.FillColorMissesTexel | src/sprite.rs:213-217 | on the same sprites the fill as written leaves the texel's colour and adds a blank at its old cell |
| TextImport.LineStart | src/sprite.rs:180-183 | the start of the current line lies within the text |
| TextImport.LineStartIsLastBreak | src/sprite.rs:180-183 | the line starts right after a line break, and no break follows it |
| TextImport.NewlinesCount | src/sprite.rs:180-183 | the line counter is the number of line breaks read |
| TextImport.Glyphs | src/sprite.rs:177-197 | at most one texel per character |
| TextImport.StepCursor | src/sprite.rs:178-196 | a space moves the column on, a line break resets the column and moves the line on, any other character is emitted at the column and line and moves the column on |
| TextImport.WalkChars | src/sprite.rs:174-197 | the walk emits exactly the glyphs of the text, each at its column and line |
| TextImport.FromTxt | src/sprite.rs:166-200 | text over 65535 bytes is refused with `InvalidInput`; otherwise the result is a fresh one-frame sprite holding the glyphs |
| TextImport.GlyphsMembers | src/sprite.rs:177-197 | a texel is imported exactly when it is a visible character at the column since the last line break and the line given by the breaks before it |
| TextImport.GlyphsCount | src/sprite.rs:177-197 | one texel per character other than space and line break |
| TextImport.GlyphsArePlain | src/sprite.rs:185-193 | every imported texel is visible, unstyled, in the default colours and at non-negative coordinates |
| TextImport.SingleLine | src/sprite.rs:177-197 | text without line breaks imports onto line 0 |
| TextImport.ExampleFirstLine | src/sprite.rs:178-194 | a space and a glyph give the glyph at (1, 0) |
| TextImport.AfterBreak | src/sprite.rs:180-194 | after a line break glyphs start at column 0 of the next line |
| TextImport.ImportExample | src/sprite.rs:177-197 | the text " a", line break, "bc" gives texels at (1, 0), (0, 1) and (1, 1) |
| Scenes.Upgrade | src/scene.rs:43-53 | same number of objects in the same order, each position unchanged, each sprite lifted with no id and no labels, no bookmarks |
| Scenes.Current | src/scene.rs:84-89 | a current scene is returned unchanged; an old one is upgraded |
| Scenes.Default | src/scene.rs:68-72 | the default scene has the current format, no objects and no bookmarks |
| Scenes.Unflagged | src/scene.rs:23 | the old objects without their flags, one per object |
| Scenes.Downgrade | src/scene.rs:39 | the current objects in first-format terms, one per object |
| Scenes.UpgradeLosesOnlyFlags | src/scene.rs:43-53 | going back after the upgrade gives the old objects without flags, and two old scenes upgrade alike exactly when they agree on everything but the flags |
| Scenes.CurrentIdempotent | src/scene.rs:84-89 | taking the current format twice changes nothing more |

## Left out

- File reading in `from_txt_file` (`File::open`, `read_to_string`): the model takes the text read. Its byte size is taken as the UTF-8 length of that text.
- Serde derives and any physical encoding of scenes: the version tag is the `Scene` constructor.
- `src/ecs_specs.rs` and `src/lib.rs`: registration with an external crate and re-exports, with no behaviour.
- `src/common.rs`: only type declarations, mirrored as datatypes. `SymbolStyles` is a `set`, not a bitset.
- `Display` implementations: text formatting.
- i32 overflow and the `usize` range are not modelled: coordinates and indices are unbounded integers.
- `IntoIterator for Sprite`, `frame_index`, `frame_count`, `all_iter_mut` and `frame_iter_mut`: field reads and iterators, modelled as direct access to `frames` and `index`. `all_iter` is `Flatten`.
- Capacity hints (`with_capacity`): they do not change results.
- `Position::apply` and `Position2D::apply` change a `Copy` value in place; the model returns the new value instead.
- Sprites.Sprite.ApplySymbol, Sprites.Sprite.ApplyColor: require the area's `w * h` to fit in 16 bits, because `size()` multiplies in 16 bits.
- Sprites.Sprite.FillColor, Sprites.Sprite.FillColorAnchored: require the same of the sprite's extent, for the same reason.
- Normalization.BoundsOfEncloses, Normalization.NormalizedAtOrigin, Normalization.NormalizedIdempotent: require coordinates of at most `i32::MAX`, which any i32 meets; the corner search starts from that value.
- Sprites.Sprite.NewFrame, Sprites.Sprite.CopyArea, Sprites.Sprite.ApplyStyle and the other editing methods: require a valid current index (`Valid()`), which the original assumes and would otherwise panic on; the constructors establish it and every method keeps it.

## Findings

| source | as written | input that shows it | evidently intended | confidence | as-written member | corrected member |
|---|---|---|---|---|---|---|
| src/position.rs:329-343 | the clamp chain repairs only the first violated side | moving to (-1, -1) inside binding bounds (0, 0) 3x3 gives (0, -1), still outside | a move against binding bounds that is clamped lands inside them, as the method's documentation says | not executed | Movement.ClampLeavesOutside | Movement.ClampInside |
| src/sprite.rs:213-217 | `fill_color` colours the bounds returned by `calculate_bounds`, anchored at the old corner, after the texels were moved to the origin | a sprite with a single texel at (1, 0): the texel keeps its colour and a blank is added at (1, 0) | colour every texel of the current frame | not executed | Sprites.FillColorMissesTexel | Sprites.FillColorAnchoredCoversAll |
| src/sprite.rs:220-224 | `fill_style` toggles inside the same misplaced bounds | a sprite with a single texel at (1, 0): nothing is toggled and the result is false | toggle the style on every texel of the current frame | not executed | Sprites.FillStyleMissesTexel | Sprites.FillStyleAnchoredTogglesAll |
