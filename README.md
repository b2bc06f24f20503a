# Dead-pixel repair, modelled in Dafny

This project models the core of a script that evens out a fixed rectangle of
dead pixels in every frame of a video (`change_pixel_from_video.py`). The
core is the routine `change_frame`, together with the "middle pixel" that
`main` computes once from the rectangle and the five coordinate predicates
that `change_frame` uses.

`change_frame` walks the rectangle `[x0, x1) x [y0, y1)` column by column, and
each column from top to bottom. It overwrites every pixel in place with a
neighbour. The first matching branch of an if/elif chain picks the neighbour:

- rows above the middle copy the pixel above;
- otherwise, pixels left of the middle copy the pixel to their left;
- otherwise, pixels right of the middle copy the pixel of the same row in column `x1`;
- otherwise, the fourth test was meant to catch pixels below the middle and copy row `y1`;
- otherwise, the middle itself copies pixel `(x1, y1)`.

Reads see earlier writes of the same pass, so copies cascade.

All of it is in `change_pixel.dfy`, module `ChangePixel`:

- `Point`, `Rect` and `Grid<T>` are the data model. A pixel is an opaque
  value of type `T` that is only copied. A frame is an `array2<T>` indexed
  `frame[y, x]`, or a `seq<seq<T>>` of rows when it is treated as a value.
- `Middle` is the reference point. `IsSame`, `IsRighterThan`, `IsLefterThan`,
  `IsLowerThan` and `IsHigherThan` are the predicates.
- `ChosenRule` is the if/elif chain. `ReadFrom` gives the neighbour each rule reads.
- `FinalSource` is the closed form of the cascade. It names the pixel of the
  ORIGINAL frame whose value a pixel holds once the pass is over.
  `Repaired` applies that closed form to a whole frame value.
- `ChangeFrame`, `RepairColumn` and `RepairPixel` are the routine itself: the
  outer loop, the inner loop and the loop body. They work in place on the
  `array2`, and `ChangeFrame` is proved to leave exactly `Repaired` of the
  original frame.
- `Variant` selects the fourth test of the chain. `AsWritten` is the program
  as it stands: it repeats the "lefter" test. `LowerFixed` is the evidently
  intended "lower" test. `ChangeFrame(frame, r, middle, AsWritten)` is
  `change_frame(frame, pixel_from, pixel_to, pixel_middle)`.

The routine requires `1 <= x0 <= x1 < width` and `1 <= y0 <= y1 < height`
(`FitsFrame`). The reads `frame[y-1][x]`, `frame[y][x-1]`, `frame[y][x1]`
and `frame[y1][x1]` can need these bounds; which of them a given rectangle
actually performs depends on where its middle falls. The program does not check them: with
a numpy frame an index of -1 would silently wrap around. The middle passed
in may be any point; the closed form holds for every choice.

Two behaviours of the code that one might expect otherwise:

- Because copies cascade, a repeated repair might be expected to keep
  changing pixels. In the code every rewritten pixel copies, in the end, an
  untouched pixel outside the rectangle, or keeps its own value. So repairing
  twice gives the same frame as repairing once (`RepairedIdempotent`).
- For the 2 x 2 square with corners (2, 2) and (4, 4), the middle (3, 3)
  might be expected to copy the rectangle's last pixel, `frame[3][3]`. The
  code copies `frame[pixel_to[1]][pixel_to[0]]`, which is `frame[4][4]`, just
  past the exclusive corner (`SmallSquareScenario`).

## Model

| member | source | states |
|---|---|---|
| `ChangePixel.Middle` | change_pixel_from_video.py:49-51 | the middle is the ceiling of the midpoint on each axis (`a+b <= 2m <= a+b+1`); whenever the corners are ordered it lies between them, closing edges included |
| `ChangePixel.PredicatesPartition` | change_pixel_from_video.py:146-174 | the five predicates: left and right exclude each other, higher and lower exclude each other, "same" holds exactly when none of the four does, and left/right and higher/lower are converses |
| `ChangePixel.ChosenRule` | change_pixel_from_video.py:124-142 | the region each branch of the chain wins: above the middle, left of it, right of it, the middle itself; as written the "lower" branch never fires and the middle column below the middle fires no branch at all |
| `ChangePixel.FinalSource` | change_pixel_from_video.py:118-143 | pixels outside the rectangle are their own source; every rewritten pixel gets its value from outside the rectangle, within the one-pixel ring around it |
| `ChangePixel.CascadeStep` | change_pixel_from_video.py:121-142 | the neighbour a rewritten pixel reads is outside the rectangle or was visited earlier in the column-major pass, and following it leads to the same final source |
| `ChangePixel.SourceIsFixedPoint` | change_pixel_from_video.py:118-143 | the final source of a final source is itself |
| `ChangePixel.Repaired` | change_pixel_from_video.py:121-122 | the repaired frame has the frame's shape and every pixel outside `[x0,x1) x [y0,y1)` is unchanged |
| `ChangePixel.RepairedCascades` | change_pixel_from_video.py:121-130 | above the middle: the original pixel just above the rectangle, same column; level or below and left of the middle: the original pixel just left of the rectangle, same row |
| `ChangePixel.RepairedEdgeCopies` | change_pixel_from_video.py:133-142 | level or below and right of the middle: the pixel of column `x1`, same row; the middle: pixel `(x1, y1)`; middle column below the middle: unchanged as written, row `y1` when fixed |
| `ChangePixel.RepairedIdempotent` | change_pixel_from_video.py:118-143 | repairing a repaired frame gives the same frame |
| `ChangePixel.UniformSurroundingRestored` | change_pixel_from_video.py:121-142 | if every pixel of the one-pixel ring around the rectangle has one value, the ring and every rewritten pixel end with that value; only the pixels the chain as written skips may keep another |
| `ChangePixel.CorrectedRepairsWholeRect` | change_pixel_from_video.py:136-138 | with the "lower" test the chain was meant to have, every pixel of the rectangle ends with the value of a pixel outside it |
| `ChangePixel.ConfiguredRectLeavesPixelUnrepaired` | change_pixel_from_video.py:137-138 | for the configured rectangle (948, 230)-(954, 235) the middle is (951, 233); pixel (951, 234) keeps its dead value as written, and copies (951, 235) when fixed |
| `ChangePixel.SmallSquareScenario` | change_pixel_from_video.py:124-142 | for the square (2, 2)-(4, 4): middle (3, 3); (2, 2) and (3, 2) copy the row above, (2, 3) copies (1, 3), (3, 3) copies (4, 4) |
| `ChangePixel.SweepStep` | change_pixel_from_video.py:121-142 | rewriting pixel (x, y) from the neighbour its rule reads turns the state "visited pixels final, the rest original" at (x, y) into the same state at (x, y+1) |
| `ChangePixel.RepairPixel` | change_pixel_from_video.py:124-142 | the loop body: pixel (x, y) takes the current value of the neighbour its rule reads, and no other pixel changes |
| `ChangePixel.RepairColumn` | change_pixel_from_video.py:122-142 | the inner loop: after column x every pixel of columns up to x holds its final value and every other pixel its original one |
| `ChangePixel.ChangeFrame` | change_pixel_from_video.py:118-143 | the whole pass in place: the frame ends equal to `Repaired` of the original frame |

## Left out

- `main`'s video plumbing is not modelled: opening and reading the video, writing frames or still images, releasing and closing windows. It is I/O through foreign libraries.
- The audio read through `MediaPlayer` is not modelled. Its result is read and then discarded.
- The creation of the output directory, the timing and the final print are not modelled.
- The every-100th-frame snapshot mode is not modelled. It is loop control around I/O.
- The configuration globals are not modelled as globals. The rectangle and the middle are parameters; `ConfiguredRect` holds the configured rectangle for one lemma.
- Pixel channels and numpy semantics are not modelled. A pixel is an opaque value that is only copied.
- `Middle` uses exact integer ceiling division, `(a+b+1)/2`. The program divides floats; the two differ only for sums beyond 2^53, far outside any frame size.
- Negative-index wrap-around is not modelled. `ChangeFrame` requires the bounds under which no index is negative or past the frame.
- `ChangeFrame` requires those bounds for every rectangle, so it excludes some rectangles the program repairs with in-bounds reads only: an empty rectangle, which reads nothing; a one-pixel-thick strip on the frame's bottom edge (`y1` equal to the height) whose middle row is `y1`, so that every pixel copies from above; a strip on the right edge (`x1` equal to the width) whose middle column is `x1`, so that column `x1` is never read; and a one-row strip starting at column 0, which only reads the row above. The configured rectangle in a 1920 x 1080 frame meets the bounds.

## Findings

| source | as written | input that shows it | evidently intended | confidence | as-written member | corrected member |
|---|---|---|---|---|---|---|
| change_pixel_from_video.py:137 | the fourth branch re-tests `is_lefter_than`, which the second branch already handled, so it never fires and `is_lower_than` is never used; pixels in the middle column below the middle match no branch and keep their dead value | the configured rectangle (948, 230)-(954, 235): middle (951, 233), pixel (951, 234) is left unchanged | test `is_lower_than` and copy `frame[y1][x]`, so every pixel of the rectangle is repaired | high (not executed) | `ChangePixel.ConfiguredRectLeavesPixelUnrepaired` | `ChangePixel.CorrectedRepairsWholeRect` |
