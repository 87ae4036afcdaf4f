# Radiarc Epicycle Snake, modelled in Dafny

Radiarc Epicycle Snake is a browser animation. It draws the tip of a chain
of eight rotating arms (vectors) as a trail of square pixels. This project
models its core and proves properties of that model:

- **The animation tick of `sketch.js`.** The `Sketch` class holds the
  vectors, the trail and the trail's length limit. The canvas is recorded
  as the list of `drawPixel`, `erasePixel` and `background` calls made on
  it.
  - `Draw` refreshes the vectors from the controls and reads the limit.
    It flushes the trail down to the limit and scales and steps the active
    vectors. It then sums their arms into the new head, evicts once more
    when the trail is full, and pushes and draws the head.
  - `ResetVectorsAndTrail`, `ClearAndReset` and `Setup` rebuild that state.
  - The pure functions of modules `Vectors` and `Trail` say what one tick
    computes. Their lemmas say what a tick erases and redraws, how a
    vector cycles, and what inactive vectors (D = 0) contribute: nothing.
- **The `BufferedQueue` of `buffered_queue.js`.** This is a circular
  buffer that doubles when full. It is a class over an `array`, with a
  ghost sequence of its contents and a representation invariant. Its
  contracts give first-in-first-out behaviour, resizing, and the error
  on an empty dequeue.
- **The colour panel of `colorSettings.js`.**
  - The `#rrggbb` codec (`RgbToHex`, `HexToRgb`), with its two round
    trips.
  - The in-place edits of the colour-segment list: add, delete, edit the
    length, and edit the colour.
- **The preset manager of `presets.js`.**
  - Save, which replaces the first preset of the same name or appends.
  - Bounds-checked delete.
  - Load, which fills eight vector rows, padding with a default row.
  - The deep copy that normalises colour segments read from storage.

JavaScript's number semantics are written out in module `JsNumber`:

- `parseInt` with radix 10, 16 or none. Leading white space, a sign and
  the `0x` prefix are handled, the longest digit prefix is read, and NaN
  is `None`.
- `Number.prototype.toString(16)` and `padStart`.
- `%`, which truncates towards zero, so its result has the sign of the
  dividend.
- `Math.round`, and `String.prototype.trim`.

Angles are exact reals measured in turns: N / D turns per step stands for
N·2π/D radians. The cosine and sine are a function parameter `polar` of
`Draw`: polar(r, a) stands for (r·cos(2πa), r·sin(2πa)), that is,
Math.cos and Math.sin of the angle a turns makes in radians. The canvas width and
height are parameters too.

The control values (`document.getElementById(...).value`) are the strings
of a `Controls.Form`. `Sketch.Read` turns them into the parsed `Readings`
that the tick uses.

What the code does, and therefore what the model does:

- The trail keeps no count of the entries on each pixel. An eviction
  erases the old entry's pixel and redraws only the entry that becomes the
  front, and only when it lies on the same spot.
- The period of the pattern is never computed. Each vector counts its own
  steps modulo D.
- An angle advances by adding the angular step once per tick, and snaps
  back to initialAngle when the counter wraps to 0.
- Every trail pixel is drawn in red (`sketch.js:138`). The tick does not
  use the colour segments or colorStep.
- No radius statistic is computed. loadPreset only writes 0 into its
  field.
- When no active vector has a radius, the scale factor is 1
  (`sketch.js:91`).
- `maxRadius` is `min(width, height) / 2 - 40 - pixelSize / 2 - 1`
  (`sketch.js:90`).

## Model

| member | source | states |
|---|---|---|
| Queue.BufferedQueue.constructor | buffered_queue.js:2-8 | A new queue of capacity size (at least 1, because every index is taken modulo size) is empty, with head = tail = 0 and the representation invariant established |
| Queue.BufferedQueue.WithDefaultSize | buffered_queue.js:2-8 | With no size given the capacity is 16; the queue is empty and valid |
| Queue.BufferedQueue.Enqueue | buffered_queue.js:10-18 | The element is appended at the logical end and length grows by one, earlier elements unchanged; a full buffer is first doubled and re-based at head 0, otherwise buffer, size and head stay; the invariant (tail = (head + length) mod size, live slots hold the contents in order, every other slot undefined) is preserved |
| Queue.BufferedQueue.Dequeue | buffered_queue.js:20-29 | On an empty queue the result is the "Queue is empty" error and nothing changes; otherwise it returns the oldest element, the contents lose exactly their first element, its slot becomes undefined and head advances modulo size; the invariant is preserved |
| Queue.BufferedQueue.Resize | buffered_queue.js:31-40 | Capacity doubles into a fresh buffer holding the same contents, in order, at indices 0..length-1; afterwards head = 0 and tail = length |
| Queue.FifoAcrossWrapAndResize | buffered_queue.js:10-40 | In a queue of capacity 2, one element wraps around to slot 0, and the next one resizes a full buffer whose head is at slot 1. All four elements still come out in the order they went in, and a further dequeue fails |
| Queue.EnqueueLayout | buffered_queue.js:15-16 | Writing an element into the tail slot of a buffer that is not full lays out the old contents followed by that element, and the next tail is |contents| + 1 past head, modulo size |
| Queue.DequeueLayout | buffered_queue.js:24-26 | The head slot holds the oldest element, and clearing it and moving head on lays out the remaining elements |
| JsNumber.JsRem | sketch.js:101 | JavaScript's % has the sign of the dividend and a magnitude below that of the divisor |
| JsNumber.JsRemQuotient | sketch.js:101 | The remainder differs from the dividend by a whole multiple of the divisor |
| JsNumber.JsRemSmall | sketch.js:101 | For a counter in 1..abs(D), (steps + 1) % D is 0 exactly when the counter reaches abs(D), and the counter itself otherwise |
| JsNumber.Round | sketch.js:10-12 | Math.round lands within half a unit of its argument, rounding halves up |
| JsNumber.Trim | presets.js:196 | trim returns the slice of the input that is left after dropping only white space at both ends; the result has no white space at either end |
| JsNumber.TrimTwice | presets.js:196 | Trimming is idempotent |
| JsNumber.ParseNumeral | sketch.js:14 | parseInt(s, 10), and parseInt(s) when no "0x" follows the sign: leading white space, an optional sign and a run of decimal digits give the signed value of the run, whatever non-digit follows |
| JsNumber.ParseHexNumeral | sketch.js:49 | parseInt(s) and parseInt(s, 16): leading white space, an optional sign, "0x" or "0X" and a run of hexadecimal digits give the signed value of the run in base 16 |
| JsNumber.ParseNoDigits | sketch.js:14 | parseInt(s, 10), and parseInt(s), are NaN when no decimal digit follows the white space and the sign |
| JsNumber.ParseDecimalOfToString | sketch.js:14 | parseInt(String(n), 10) and parseInt(String(n)) give n back for every integer |
| JsNumber.ParseHexDigits | colorSettings.js:62-64 | parseInt(w, 16) of a run of hexadecimal digits is their value in base 16 |
| JsNumber.ParseHexOfToString | colorSettings.js:56 | parseInt(n.toString(16), 16) gives n back for every integer, negative ones included |
| JsNumber.ByteToHex | colorSettings.js:56 | For a byte, toString(16).padStart(2, '0') is the high and the low hexadecimal digit |
| JsNumber.ParseHexPair | colorSettings.js:62-64 | parseInt of two hexadecimal digits in radix 16 is 16 times the first plus the second |
| Vectors.ZParseIntOfToString | sketch.js:13-16 | zParseInt gives back every integer written in decimal, whatever the fallback |
| Vectors.ZParseIntOfNumeral | sketch.js:13-16 | zParseInt reads white space, an optional sign and decimal digits as their signed value and ignores what follows ("12px" is 12) |
| Vectors.ZParseIntFallback | sketch.js:13-16 | zParseInt gives the fallback when no decimal digit follows the white space and the sign (empty, "abc", "-", ".5") |
| Vectors.AngularDelta | sketch.js:38 | With D nonzero the angular step times D is N (N / D turns per step); with D = 0 it is 0 |
| Vectors.Rebuilt | sketch.js:35-46 | A rebuilt vector starts at angle 0, step 0, initialAngle 0; radius, N and D are the parsed inputs, or 0 when they do not parse; an active one turns N / D turns per step |
| Vectors.Refreshed | sketch.js:59-68 | The live update replaces radius, N, D and the angular step from the row (unparsable inputs counting as 0) and keeps angle, steps, initialAngle and scaledRadius |
| Vectors.Stepped | sketch.js:97-105 | An inactive vector is untouched; an active one with a counter of at least 0 gets the counter (steps + 1) mod abs(D), in [0, abs(D)); it returns to initialAngle exactly when the counter wraps to 0 and otherwise advances by its angular step, and keeps every other field |
| Vectors.SteppedInPhase | sketch.js:99-104 | A vector whose angle is initialAngle plus steps angular steps, with steps below abs(D), stays so after a step |
| Vectors.CycleReturns | sketch.js:99-104 | From the start of its cycle, after k < abs(D) steps a vector is at step k and initialAngle plus k angular steps, and after exactly abs(D) steps it is back where it started |
| Vectors.TotalNominalOfActive | sketch.js:88 | totalNominal over all vectors equals totalNominal over the active ones: inactive vectors add nothing |
| Vectors.TotalNominal | sketch.js:88 | totalNominal is at least the absolute radius of every active vector |
| Vectors.TotalNominalZero | sketch.js:88-91 | totalNominal is 0 exactly when every active vector has radius 0, and then the scale factor is 1 |
| Vectors.MaxRadius | sketch.js:90 | maxRadius plus the margin, half a pixel and 1 is at most half the width and at most half the height, and equals half of the smaller one |
| Vectors.ScaleFactor | sketch.js:91 | With a nonzero total the factor scales the total exactly to maxRadius; with a zero total it is 1 |
| Vectors.ScaleAll | sketch.js:92-95 | Every vector is scaled by the same factor, element by element |
| Vectors.OffsetOfActive | sketch.js:108-113 | The summed offset of the head over all vectors equals that over the active vectors: inactive vectors do not move the head |
| Vectors.OffsetSnoc | sketch.js:109-113 | Adding a vector to the end adds its arm to the offset |
| Trail.RemovalEvents | sketch.js:75-84 | Removing an entry erases it first; a second call follows exactly when the next entry lies on the same spot, and it draws that entry |
| Trail.EvictionLog | sketch.js:74-85 | Evicting k entries makes between k and 2k calls |
| Trail.EvictionErasesRemoved | sketch.js:75-78 | Evicting k entries erases exactly those k entries, oldest first, each at its own spot with its own pixel size |
| Trail.EvictionRedrawsCoincident | sketch.js:79-84 | An eviction redraws exactly the entries that become the front on the spot just erased, in order, each with its own pixel size |
| Trail.RedrawFollowsErase | sketch.js:76-84 | Every redraw during an eviction comes right after the erasure of a pixel on the same spot |
| Sketch.ReadOfNumbers | sketch.js:59-71 | Controls holding integers written in decimal are read back as those integers: every length, N and D, the pixel size and the trail length |
| Sketch.SnakeLengthHex | sketch.js:71 | The trail length is read with no radix, so "0x" followed by hexadecimal digits is read in base 16 |
| Sketch.HeadPoint | sketch.js:107-114 | The head carries this tick's pixel size and lies within half a unit, on each axis, of the centre plus the summed arms |
| Sketch.NextMaxTrailLength | sketch.js:49-50 | The limit is replaced only by a parsed snakeLength above 1, so it never drops below 2 |
| Sketch.Evictions | sketch.js:74-127 | A tick removes nothing from a trail below the limit, and otherwise removes entries until limit - 1 remain |
| Sketch.TrailStep | sketch.js:74-132 | After a tick the trail holds between 1 and maxTrailLength entries, ends with the new head, and is a suffix of the old trail followed by the head |
| Sketch.TickErasesEvicted | sketch.js:74-127 | What a tick erases, followed by what remains of the old trail, is the old trail: exactly the removed entries are erased, once each |
| Sketch.TickDrawsFrontsThenHead | sketch.js:74-132 | A tick draws the entries that become the front on a spot just erased, then the head, and nothing else |
| Sketch.TickComposes | sketch.js:74-132 | The flush loop followed by the full-trail eviction and the push make up one tick as specified by TrailStep and TickLog |
| Sketch.RebuiltStartsCycle | sketch.js:39-47 | A rebuilt vector is at angle 0, step 0, initialAngle 0; an active one is in phase and returns to that state after abs(D) steps |
| Sketch.StepAllKeepsCountersNatural | sketch.js:101 | Stepping never makes a step counter negative |
| Sketch.BuildVectors | sketch.js:33-48 | The building loop yields one rebuilt vector per row |
| Sketch.RefreshVectors | sketch.js:59-68 | The live-update loop refreshes every vector from its row |
| Sketch.ScaleVectors | sketch.js:92-95 | The scaling loop sets scaledRadius of each active vector and skips inactive ones |
| Sketch.StepVectors | sketch.js:98-105 | The stepping loop steps every active vector as Stepped does and skips inactive ones |
| Sketch.SumVectors | sketch.js:107-113 | The summing loop ends at the centre plus the summed arms of the active vectors |
| Sketch.MoveVectors | sketch.js:87-114 | Scaling by maxRadius / totalNominal (or 1), stepping and summing give the stepped vectors and the rounded head |
| Sketch.Sketch.constructor | sketch.js:6-8 | Before setup there are no vectors, the trail is empty and the limit is 300 |
| Sketch.Sketch.Setup | sketch.js:18-30 | setup clears the canvas, rebuilds the vectors and empties the trail |
| Sketch.Sketch.ResetVectorsAndTrail | sketch.js:32-52 | The vectors are rebuilt from the rows, the limit follows snakeLength, the trail is emptied and the canvas is untouched |
| Sketch.Sketch.ClearAndReset | sketch.js:153-160 | After clearAndReset the canvas is cleared, the trail is empty and every vector has angle 0, step 0 and initialAngle 0 |
| Sketch.Sketch.EvictFront | sketch.js:76-84 | The oldest entry leaves the trail, is erased with its own size, and the new front is redrawn only when it lies on the same spot |
| Sketch.Sketch.FlushTrail | sketch.js:74-85 | The flush loop shortens the trail to the limit by removing from the front, logging each removal's erase and redraw |
| Sketch.Sketch.PlaceHead | sketch.js:116-132 | A full trail loses its oldest entry first; the head is then pushed and drawn |
| Sketch.Sketch.Draw | sketch.js:54-133 | One frame leaves the vectors refreshed, scaled and stepped, the trail as TrailStep with the new head and the canvas log extended by TickLog; the limit stays at least 2 and the trail within it |
| ColorSettings.RgbToHex | colorSettings.js:55-57 | The encoding starts with '#' |
| ColorSettings.RgbToHexShape | colorSettings.js:55-57 | For components in [0, 255] the encoding is '#' and two lower-case hexadecimal digits per component, high digit first: 7 characters for a triple |
| ColorSettings.Stripped | colorSettings.js:60 | One leading '#' is dropped, and nothing else is changed |
| ColorSettings.HexToRgb | colorSettings.js:59-66 | The decoding always has three components; a component whose pair of characters would start at or past the end of the string (after the '#') is NaN, so the empty string decodes to three NaNs |
| ColorSettings.HexToRgbIgnoresHash | colorSettings.js:60 | "#abcdef" and "abcdef" decode alike |
| ColorSettings.HexToRgbBytes | colorSettings.js:61-65 | Six hexadecimal digits decode to three components in [0, 255] |
| ColorSettings.HexToRgbOfRgbToHex | colorSettings.js:55-66 | Decoding the encoding of a byte triple gives the triple back |
| ColorSettings.RgbToHexOfHexToRgb | colorSettings.js:55-66 | Encoding the decoding of '#' and six lower-case hexadecimal digits gives the string back |
| ColorSettings.LengthInput | colorSettings.js:24 | The stored length is the parsed integer, or 1 when that is NaN or 0, so it is never 0 |
| ColorSettings.ColorPanel.constructor | colorSettings.js:4 | The page starts with one segment of 10 red pixels |
| ColorSettings.ColorPanel.AddColorSegment | colorSettings.js:69-73 | 10 red pixels are appended and the earlier segments stay as they are |
| ColorSettings.ColorPanel.DeleteSegment | colorSettings.js:42-44 | Exactly the segment at idx is removed and the others keep their order |
| ColorSettings.ColorPanel.EditLength | colorSettings.js:23-26 | Only segment idx changes, and only its length, to the parsed value or 1, never 0 |
| ColorSettings.ColorPanel.EditColor | colorSettings.js:33-36 | Only segment idx changes, and only its colour, to the decoded picker value |
| Lists.RemoveAt | presets.js:128 | splice(i, 1) removes nothing past the end; otherwise the list loses exactly element i, keeps the earlier elements in place and moves the later ones down by one |
| Presets.Normalized | presets.js:101-105 | A segment list that is not an array becomes one red pixel; otherwise count and lengths are copied, and each colour is copied when it is an array and becomes red otherwise |
| Presets.NormalizedOfStored | presets.js:40-44 | Loading restores exactly the segments that were saved |
| Presets.Stored | presets.js:40-44 | Saving keeps one stored segment per segment, each with an array colour |
| Presets.NormalizedTwice | presets.js:101-105 | Normalising what was normalised changes nothing |
| Presets.FindIndex | presets.js:47 | The result is -1 exactly when no preset has the name; otherwise it is the first preset with that name |
| Presets.Upsert | presets.js:59-63 | The length is unchanged when the name exists and grows by one otherwise; the new preset is in the list; every preset of another name keeps its place; every entry is either the new preset or the old entry at that index. When the name exists, the first preset of that name is replaced by the new one and every other index keeps its old preset; otherwise the old list is followed by the new preset |
| Presets.UpsertThenFind | presets.js:46-63 | After saving, looking the name up finds the saved preset, in place of the first old one of that name or at the end |
| Presets.UpsertTwice | presets.js:59-63 | Saving the same preset twice leaves the list as saving it once |
| Presets.UpsertKeepsNamesDistinct | presets.js:59-63 | Saving into a list with distinct names keeps the names distinct |
| Presets.RemoveKeepsNamesDistinct | presets.js:128 | Deleting from a list with distinct names keeps them distinct |
| Presets.Saved | presets.js:27-58 | The saved preset carries the name, exactly the first eight vector rows and the segments, which load back unchanged |
| Presets.Slots | presets.js:79-88 | Row i is taken from the preset when it has one, and is length 1, N 1, D 0 otherwise; there are always eight rows |
| Presets.Loaded | presets.js:69-113 | After loading, the name field and the title hold the preset's name; the first eight rows come from the preset, padded with the default row; later rows, if any, are kept; the other inputs come from the preset, and the radius statistic is 0 |
| Presets.SettingsColorStep | settings.js:71 | After saveSettings and loadSettings the colorStep control spells window.colorStep when that is at least 1, and "1" otherwise |
| Presets.LoadedAsWritten | presets.js:106-116 | As written, loadPreset leaves the controls as Loaded except colorStep, which shows window.colorStep as loadSettings rewrites it |
| Presets.LoadAsWrittenLosesColorStep | presets.js:106-116 | As written, a preset saved under a colorStep other than window.colorStep does not load back to the saved controls; colorStep "5" with window.colorStep 1 loads as "1" |
| Presets.LoadAfterSave | presets.js:24-113 | Loading a preset saved from the same controls gives the controls back, with the name in the name field and the title and the radius statistic reset to 0, and the saved segments |
| Presets.PresetManager.constructor | presets.js:16-22 | The manager starts from the stored list |
| Presets.PresetManager.SavePreset | presets.js:24-67 | The loop collects the first eight rows; the list becomes the upsert of the preset built from the controls and the current segments |
| Presets.PresetManager.SaveButton | presets.js:195-201 | An empty trimmed name saves nothing; otherwise the trimmed name is saved under and written back to the name field and the title |
| Presets.PresetManager.DeletePreset | presets.js:121-132 | An index outside the list changes nothing; otherwise exactly that preset is removed and the rest keep their order |
| Presets.PresetManager.LoadPreset | presets.js:69-119 | A missing index changes nothing; otherwise the controls become Loaded of the preset, filled row by row, and the segments become its normalised copy. colorStep takes the preset's value, which is the intended behaviour; the code as written is LoadedAsWritten (see Findings) |
| Presets.SaveThenLoad | presets.js:24-119 | Saving the controls under a name and loading the preset found under that name gives the controls back, colorStep included, under the intended colorStep behaviour of Findings |

## Left out

- Queue.BufferedQueue.constructor: requires a size of at least 1. With size 0 the source's first enqueue resizes to 0 again and its tail becomes NaN, which the model does not represent.
- settings.js is not part of this model, except for the effect on the colorStep control of the saveSettings and loadSettings calls at the end of loadPreset. That effect is modelled by Presets.SettingsColorStep and Presets.LoadedAsWritten (see Findings). Their other effects on the controls leave them as they were: the vector rows, pixelSize, snakeLength and drawSpeed are stored and read back unchanged. settings.js also builds the DOM control table, which is not modelled.
- Presets.SettingsColorStep: window.colorStep is taken to be an integer. It starts at 1 or at the positive integer getStartingColorStep returns. After a loadSettings it holds the string that was stored, and that string spells the same integer.
- The JSON round trip of loadSettings turns a NaN colour component of window.colorSegments into null. This is not modelled. The model keeps ComponentHex(None), which prints "NaN", while rgbToHex on a null component throws.
- Floating point: angles, the scale factor and the arms are exact reals, and Math.cos/Math.sin of the angle in radians (2π times the angle in turns) enter as the parameter `polar`. Precision loss and NaN radii are not modelled.
- Vectors.ScaleAll, Vectors.Offset: the right-hand side is exact real arithmetic, not IEEE doubles.
- p5 and the canvas: createCanvas, pixelDensity, fill/rect inside drawPixel and erasePixel, saveCanvas and keyPressed. Drawing is only the logged Event sequence.
- setup's canvas size (`parseInt(cs.width) || 800`) is not modelled. Width and height are parameters of Draw.
- Sketch.Draw: trail entries store the head already rounded by roundXY. The source stores the unrounded head and rounds it at every use, and that is equivalent because roundXY is deterministic.
- parseInt beyond 2^53: the model reads digit strings as exact integers. It does not lose precision on very long digit strings.
- pauseAnimation and resumeAnimation: animation scheduling, outside this model.
- localStorage and JSON.parse/JSON.stringify are abstracted by PresetManager.presets, the parsed list. getPresets' fallback to [] on a parse failure is the caller's choice of stored list.
- Presets.Preset: a stored preset whose vectorParams is not an array, or whose rows lack fields, is not modelled. Neither is a null entry in the stored list.
- exportPresets and importPresets (Blob, URL, FileReader, file input) are file I/O.
- alert and confirm, refreshPresetList, flashInput and its setTimeout are UI only.
- renderColorSegments' DOM construction and updateColorConfig are UI only. The model keeps the four handlers that change the segment list.
- The load and delete buttons' checks for an empty selection happen before any preset operation. Number(idx) of a select value is an integer index, which is what LoadPreset and DeletePreset take.

## Findings

| source | as written | input that shows it | evidently intended | confidence | as-written member | corrected member |
|---|---|---|---|---|---|---|
| presets.js:106, presets.js:115-116, settings.js:71, settings.js:102-115 | loadPreset writes preset.colorStep into the colorStep control and then calls saveSettings and loadSettings. saveSettings stores window.colorStep, not the control, and loadSettings writes the stored value back into the control. So the control ends up showing window.colorStep | window.colorStep 1, the colorStep control changed to "5", then the preset saved and loaded: after the load the control shows "1" | loading a preset restores the colorStep it was saved with, as savePreset's comment on colorStep says (presets.js:57) | medium, not executed | Presets.LoadAsWrittenLosesColorStep | Presets.LoadAfterSave |
