# Bouncer in Dafny

Bouncer decodes one JPEG picture and produces 300 frames. Each frame shows a
shaded red sphere with a black rim. The sphere moves up and down the picture
and bounces near the top and bottom edges. Each frame is handed to an MPFF
encoder under the name `frame000.mpff` … `frame299.mpff`. Almost all of the
program calls into FFmpeg. This project models the program's own logic, all
of it in `bouncer.cpp`:

- `geometry.dfy` (module `Geometry`): `dist_from` and `inCircle`. The
  horizontal byte difference is divided by 3 with C++ truncating division.
  The floating-point test `sqrt(d²) < radius` becomes the integer test
  `d² < radius²`. A lemma over reals shows the two tests agree for exact
  arithmetic.
- `motion.dfy` (module `Motion`): `moveCenter`, the direction update of the
  frame loop, the start state (`height/2`, going down, radius `height/10`)
  and the state after `n` frames.
- `raster.dfy` (module `Raster`): `drawSphere` on an RGB24 picture. A
  picture is a flat byte sequence with a row stride (`linesize`). The
  nested loop is a method. It is proved equal to a byte-by-byte reference
  picture (`Render`). Pixel-level lemmas about the reference state the
  fill, the rim, the padding and the bytes past the last row.
- `frame_names.dfy` (module `FrameNames`): the `sprintf`/`strcat` file name
  construction, with a parser that reads the frame number back.
- `arguments.dfy` (module `Arguments`): the argument count and extension
  check. `length() - 4` and `length() - 5` are computed in 64-bit `size_t`.
  `substr` throws `std::out_of_range` when the position is past the end.
- `sequencer.dfy` (module `Sequencer`): the 300-iteration frame loop. It
  produces the named frames that the encoder would receive.

Three facts about the code shape the model:

- The loop's x and the centre `centerX*3` are both byte offsets of pixel
  starts. So `(x - centerX*3)/3` is exactly the pixel column difference
  (`Geometry.ByteColumnsArePixels`), and the disc is round in pixel space.
- Row offsets use `linesize`, the row stride, not `width*3`.
- The two bound checks of the bounce are `if … else if`.

## Model

| member | source | states |
|---|---|---|
| Geometry.TruncDivBy3 | bouncer.cpp:64 | the quotient truncates toward zero: the remainder has the sign of the dividend and is below 3 in size, and it is zero on multiples of 3 |
| Geometry.DistSq | bouncer.cpp:61-68 | the squared distance is at least the squared row difference, and when the byte difference is a multiple of 3 it is exactly the squared column difference (byte difference over 3) plus the squared row difference |
| Geometry.InCircle | bouncer.cpp:73-84 | a point is inside only for a positive radius, and the centre is inside exactly when the radius is positive, so with radius 0 the shading branch, which divides by the radius, is never entered; `SquaredTestIsExact` ties the test to the source's square-root comparison |
| Geometry.SquaredTestIsExact | bouncer.cpp:61-84 | for the exact square root `d` of the squared distance, `d < radius` holds iff `radius > 0` and the squared distance is below `radius²` |
| Geometry.ByteColumnsArePixels | bouncer.cpp:61-68 | when both x arguments are byte offsets of pixel starts, the squared distance is the squared pixel distance and `inCircle` is the pixel-space disc test |
| Motion.MoveCenter | bouncer.cpp:89-96 | the centre moves by exactly 5 rows, up (smaller row) when `up` and down otherwise |
| Motion.Bounce | bouncer.cpp:325-329 | below `radius` the direction becomes down; past `height - radius` (and not below `radius`) it becomes up; inside the band it is kept |
| Motion.Step | bouncer.cpp:325-329 | the centre moves exactly 5 rows, the direction changes only when the new row is outside `[radius, height-radius]`, and when `2*radius <= height` the invariant `(y < radius ⇒ down) ∧ (y > height-radius ⇒ up) ∧ radius-5 ≤ y ≤ height-radius+5` is kept |
| Motion.RadiusFor | bouncer.cpp:314 | the radius `height/10` is at most half the height, so the two bounds never cross |
| Motion.Start | bouncer.cpp:312-314 | the start state `(height/2, down)` meets the invariant for radius `height/10` |
| Motion.After | bouncer.cpp:312-329 | after any number of frames the invariant holds, so the centre row lies in `[radius-5, height-radius+5]` |
| Raster.DrawSphere | bouncer.cpp:102-136 | the nested row/byte-column loop yields exactly the reference picture `Render`, byte for byte |
| Raster.PaintRow | bouncer.cpp:108-134 | running the inner loop over row `y` moves the renderer from the start of row `y` to the start of row `y + 1`: every byte of rows up to `y` holds its reference value and every later byte is as in the input |
| Raster.PaintPixel | bouncer.cpp:110-133 | painting the pixel at row `y`, byte column `x` turns the bytes visited so far into their reference values and leaves every unvisited byte as in the input |
| Raster.RenderPixel | bouncer.cpp:110-132 | by squared pixel distance `d²` from the centre: below `radius²` red is 255 and green and blue take the shade; in `[radius², (radius+1)²)` the pixel is black; otherwise the byte keeps its value |
| Raster.RenderFillIsRedShade | bouncer.cpp:123-133 | inside the radius red is 255 and green equals blue |
| Raster.RenderKeepsPadding | bouncer.cpp:105-108 | row padding at offsets `width*3 ≤ off < linesize` is never written |
| Raster.RenderKeepsTail | bouncer.cpp:105 | every byte at index `height*linesize` or beyond is the same after drawing as before |
| FrameNames.DecimalString | bouncer.cpp:338 | `%d` of a non-negative number is a non-empty digit string without a leading zero, of length 1, 2 or 3 below 10, 100 and 1000 |
| FrameNames.ParseDecimalString | bouncer.cpp:338 | reading the `%d` string back gives the number |
| FrameNames.ZeroPadded | bouncer.cpp:340-355 | the padded number is at least three digits, exactly three below 1000, with no leading zero from 100 on |
| FrameNames.FrameName | bouncer.cpp:335-358 | the name starts with `frame`, ends with `.mpff`, and holds the padded number between them |
| FrameNames.FrameNameRoundTrip | bouncer.cpp:335-358 | the frame number is read back from every frame name |
| FrameNames.FrameNameInjective | bouncer.cpp:335-358 | distinct frame numbers give distinct names |
| FrameNames.FrameNameThreeDigits | bouncer.cpp:340-358 | for `i < 1000` the name is `frame`, the hundreds, tens and units digits of `i`, then `.mpff`, 13 characters in all |
| FrameNames.ZeroPaddedThreeDigits | bouncer.cpp:340-355 | for `i < 1000` the zero-padded number is exactly three digits: hundreds, tens and units of `i` |
| Arguments.ToSizeT | bouncer.cpp:150-151 | conversion to `size_t` is the identity on `[0, 2^64)` and adds `2^64` to negative values down to `-2^64` |
| Arguments.Substr | bouncer.cpp:150-151 | `substr` fails with `out_of_range` iff the position is past the end; otherwise it returns the characters from the position, `count` of them or up to the end |
| Arguments.CheckArguments | bouncer.cpp:142-158 | an argument count other than one is refused first; a name shorter than 5 bytes ends in `out_of_range`; otherwise the name is accepted iff it ends in `.jpg`, `.JPG`, `.jpeg` or `.JPEG`, and refused as not a JPEG if not |
| Arguments.MixedCaseRejected | bouncer.cpp:154 | names of at least 5 bytes ending in `.Jpg`, `.Jpeg`, `.jPG` or `.jpG` are refused as not a JPEG |
| Sequencer.NextFrame | bouncer.cpp:318-361 | one iteration turns the state after `i` frames into the state after `i + 1`, moving the row by exactly 5 and keeping it within one step of the band, draws the sphere at the new row on the unmodified base picture, and names the frame `FrameName(i)`, 13 characters long |
| Sequencer.ExpectedFrameShape | bouncer.cpp:312-361 | each of the 300 frames has its row within one step of the band and the 13-character name `FrameName(i)` |
| Sequencer.ExpectedRowsStep | bouncer.cpp:318-329 | the rows of consecutive frames differ by exactly 5 |
| Sequencer.ExpectedRunShape | bouncer.cpp:312-361 | in the 300 expected frames every row lies within one step of the band and every name has 13 characters |
| Sequencer.ExpectedRunSteps | bouncer.cpp:318-329 | in the 300 expected frames the rows of neighbouring frames are exactly 5 apart |
| Sequencer.ExpectedRunNames | bouncer.cpp:335-358 | no two of the 300 expected frames share a file name |
| Sequencer.RunFrames | bouncer.cpp:312-365 | the loop hands on 300 frames; frame `i` is the base with the sphere at the row reached after `i + 1` moves, all rows lie within one step of the band, consecutive frames' rows differ by exactly 5, and all 300 names are distinct and 13 characters long |

## Left out

- JPEG decoding, stream probing, codec lookup and opening, `sws_scale` conversion, and all allocation and freeing (bouncer.cpp:160-306 and 367-375). These are FFmpeg calls whose behaviour is not visible here. The decoded RGB24 picture is a parameter of `Sequencer.RunFrames`.
- `encode_as_mpff` (bouncer.cpp:20-56). It does file I/O and calls an opaque encoder. A frame that fails to encode or to open its file is therefore not modelled; `RunFrames` returns what the loop hands to the encoder.
- `av_frame_clone` (bouncer.cpp:320-322). Whether the copy is deep depends on library internals. The model draws on a picture value, so the base picture cannot change.
- Raster.DrawSphere: the green/blue value `255 - 255*dist/radius` is double arithmetic with `sqrt`/`pow` and a double-to-`uint8_t` conversion. It is a parameter `shade` of the squared pixel distance, so the model states only that red is 255 and green equals blue.
- Raster.RenderPixel: same shade abstraction as `DrawSphere`.
- Geometry.SquaredTestIsExact: the source's `sqrt` and `<` are on doubles. The model assumes exact arithmetic, which agrees with doubles for realistic picture sizes.
- Raster.DrawSphere: 32-bit `int` overflow of `y * linesize + x` and of `centerX*3` is not modelled. Integers are unbounded, and real picture sizes stay far below the limit.
- FrameNames.FrameName: the frame counter is a `nat`. The loop only produces 0 to 299, so `%d` of negative numbers and the 64-byte buffer limit are never reached.
- Arguments.CheckArguments: each `char` of an argument stands for one byte (`CString`), so a UTF-8 name must be given as its bytes; the length test then counts bytes, as `std::string::length()` does.
- The printed diagnostics and the exit status: every `return` in `main` returns 0, and a name shorter than 5 bytes ends the program through the uncaught exception. `Arguments.CheckArguments` returns the error kind instead.
- `bouncer.h`: it holds only include directives and macros.
