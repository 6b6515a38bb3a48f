# frame-by-frame — a Dafny model of the LED animation editor's core

frame-by-frame is a browser editor for animations on an 8×8 matrix of
individually addressable RGB LEDs wired as one serpentine strip. An animation
is an ordered, never-empty list of frames. Each frame has a wait in
milliseconds and an 8×8 grid of cells `{on, color, led}`, where `led` is the
cell's index on the strip. The editor lets the user:

- toggle and colour cells;
- add, clone, delete and clear frames;
- play the animation back;
- import a picture by sampling an 80×80 selector region of a canvas;
- export everything as a C array initializer `anim[frames][65][4]` for an
  Arduino sketch.

This project models that logic as pure Dafny functions over immutable data
and proves its properties.

| module | file | what it holds |
|---|---|---|
| `Wrappers` | `wrappers.dfy` | `Option`, used for the parser's `null` and for optional arguments |
| `Addressing` | `addressing.dfy` | the serpentine wire index `LedNumber` and its inverse `Position` |
| `Seqs` | `seqs.dfy` | sortedness, the insertion sort that stands for the numeric `sort`, and uniqueness of sorted permutations |
| `Hex` | `hex.dfy` | the colour parser `hexToRgb` and the formatters `componentToHex` / `rgbToHex` |
| `Grid` | `grid.dfy` | cells, grids and frames; the default grid and frame; the conversions between a grid and its sorted list of lit wire indices |
| `Editor` | `editor.dfy` | the editor state (frames plus selected index), every frame-editing handler as a state transition, and the playback step |
| `Export` | `export.dfy` | the `[frames][65][4]` table and the bracket-to-brace rendering of its text |
| `Convertor` | `convertor.dfy` | the image decoder's sampling loop (the canvas is an abstract function from coordinates to pixels) and the viewport update |

The editor state keeps one invariant, `Editor.Valid`:

- there is at least one frame;
- the selection indexes a frame;
- every frame has a non-negative wait and a grid of 8 rows of 8 cells in which each cell carries its own wire index (`Grid.Positional`).

Every editing handler requires this invariant and re-establishes it. The
playback tick is the exception: it can select a frame that the current list
no longer has (see Findings).

Three facts about the code's behaviour:

- **Clone does not alias.** Clone deep-copies every earlier frame through a
  JSON round trip and appends the original selected frame object. No two
  frames of the resulting list share storage, so a value model of the list
  is exact. Editing the original afterwards leaves the clone unchanged
  (`Editor.CloneIsIsolated`).
- **Play restarts at frame 0.** Play does not resume from the selected
  frame. It starts the timer chain at −1, so the first tick comes after 0 ms
  and lands on frame 0 (`Editor.PlaybackCycles`).
- **Delete removes the selected frame.** Right after an add or a clone, that
  is the new frame (`Editor.DeleteUndoesAdd`, `Editor.DeleteUndoesClone`).

## Model

| member | source | states |
|---|---|---|
| Addressing.LedNumber | src/App.tsx:76-81 | every grid position gets an index in 0..63, and the index's block of 8 is row `7 - y` counted from the top: the strip starts at the bottom row |
| Addressing.Position | src/App.tsx:76-81 | every index 0..63 is the wire index of some grid position, so `LedNumber` is onto 0..63 |
| Addressing.LedNumberInjective | src/App.tsx:76-81 | two grid positions with the same wire index are the same position, so `LedNumber` is one-to-one |
| Addressing.PositionOfLedNumber | src/App.tsx:76-81 | `Position` undoes `LedNumber` on the grid, so the two form a bijection between the 64 positions and 0..63 |
| Addressing.TopLeftIsLast | src/App.tsx:76-81 | the top-left cell is LED 63, the last on the strip |
| Addressing.RowNeighboursAreConsecutive | src/App.tsx:76-81 | horizontally adjacent cells have wire indices that differ by exactly one: descending to the right on even rows, ascending on odd rows |
| Addressing.StripIsContinuous | src/App.tsx:76-81 | any two consecutive LEDs on the strip sit in adjacent cells, including the turn at each row's end |
| Seqs.Sort | src/App.tsx:117 | the numeric sort returns a sorted permutation of its input, strictly increasing when the input has no duplicates |
| Seqs.StrictlyIncreasingUnique | src/App.tsx:117 | two strictly increasing lists with the same members are equal, so any correct sort gives the same list as the one modelled |
| Grid.DefaultGrid | src/App.tsx:83-103 | 8 rows of 8 cells; each cell carries its own wire index, is lit exactly when that index is listed, and has the given colour |
| Grid.DefaultFrame | src/App.tsx:105-110 | a new frame waits 1000 ms and has every cell off with the default red, so its list of lit LEDs is empty |
| Grid.ActiveLeds | src/App.tsx:112-118 | the result is sorted; for a grid it holds exactly the wire indices of the lit cells; when every cell carries its own index it is strictly increasing (no duplicates) |
| Grid.PatternFromActiveLeds | src/App.tsx:120-125 | builds a grid that keeps the invariant, in the given colour or in default red when none is given |
| Grid.ListedFrom | src/App.tsx:112-125 | reference definition of the expected listing: strictly increasing, containing exactly the members of `ids` that are valid wire indices |
| Grid.PatternRoundTrip | src/App.tsx:112-125 | building a grid from a list of indices and listing its lit LEDs gives the list sorted and deduplicated, with everything outside 0..63 dropped |
| Grid.ActiveLedsRoundTrip | src/App.tsx:112-125 | listing a grid's lit LEDs and building a grid from that list restores every cell's on/off state and index |
| Grid.AllLitListsEveryLed | src/App.tsx:112-118 | a grid with every cell lit lists exactly 0..63 in order |
| Grid.NoneLitListsNothing | src/App.tsx:112-118 | a grid with every cell off lists nothing |
| Hex.NatToHex | src/Convertor.tsx:25 | the hex numeral of a natural number is lower-case, has value `n`, has no leading zero, and is one digit exactly when `n < 16` |
| Hex.ComponentToHex | src/Convertor.tsx:24-27 | for a byte: exactly two lower-case hex digits whose value is the byte; for a negative number the text starts with a minus sign |
| Hex.ComponentDigits | src/Convertor.tsx:24-27 | the two digits written for a byte, read as a high and a low digit, give the byte back |
| Hex.RgbToHex | src/Convertor.tsx:29-31 | for byte channels the text is `#` and then six lower-case digits whose pairs spell r, g and b in order |
| Hex.HexToRgb | src/App.tsx:130-144 | a result exists exactly for an optional `#` followed by 3 or 6 hex digits, and every other input gives null; six digits give the base-16 values of the three digit pairs, three digits give 17 times each digit's value; every channel is a byte |
| Hex.RgbHexRoundTrip | src/App.tsx:130-144 | parsing the text that `rgbToHex` writes for byte channels gives those channels back |
| Hex.ShorthandDoublesDigits | src/App.tsx:131-134 | a three-digit colour, with or without `#`, parses like the six-digit colour with each digit doubled, and each channel is 17 times its digit |
| Hex.HexToRgbIgnoresCase | src/App.tsx:131-136 | lower-casing the input does not change the parse result (the patterns carry the case-insensitive flag) |
| Editor.Initial | src/App.tsx:151 | the initial editor holds one frame, selected, equal to the default frame: 1000 ms, every cell off and red; the invariant holds |
| Editor.LedClick | src/App.tsx:160-166 | the clicked cell takes the negated drawn state and the active colour and keeps its index; every other cell, the wait, every other frame and the selection are unchanged; the invariant is kept |
| Editor.ClickTogglesActiveLed | src/App.tsx:160-166 | a click toggles exactly the clicked cell's wire index in the frame's list of lit LEDs and no other index |
| Editor.ChangeFrameLength | src/App.tsx:168-175 | a negative wait changes nothing; a non-negative one becomes the selected frame's wait, and the grid, the other frames and the selection stay the same |
| Editor.Clear | src/App.tsx:177-181 | only the selected frame's grid changes, to the default grid: every cell off and red, with an empty list of lit LEDs; its wait, the other frames and the selection are kept |
| Editor.ApplyDecoded | src/App.tsx:183-187 | the decoded grid replaces only the selected frame's grid; a grid that keeps the invariant keeps the editor valid |
| Editor.DeleteAll | src/App.tsx:189-192 | the result is one frame, selected, equal to the default frame: 1000 ms, every cell off and red |
| Editor.AddFrame | src/App.tsx:194-197 | one frame longer; the earlier frames are unchanged; the new frame equals the default frame (1000 ms, every cell off and red) and is selected |
| Editor.Clone | src/App.tsx:199-203 | one frame longer; the earlier frames are unchanged; the new frame equals the selected one and is selected |
| Editor.CloneIsIsolated | src/App.tsx:199-203 | after a clone, clicking a cell of the original frame leaves the clone as it was |
| Editor.DeleteFrame | src/App.tsx:205-211 | with more than one frame, exactly the selected frame is removed, the others keep their order and frame 0 is selected; with one frame nothing changes |
| Editor.DeleteUndoesAppend | src/App.tsx:194-211 | deleting a frame that was just appended and selected gives back the earlier list, with frame 0 selected |
| Editor.DeleteUndoesAdd | src/App.tsx:194-211 | delete right after add gives back the earlier frames |
| Editor.DeleteUndoesClone | src/App.tsx:199-211 | delete right after clone gives back the earlier frames |
| Editor.DeleteNeverEmpties | src/App.tsx:205-211 | any number of deletes removes one frame each down to one frame and never empties the list; the invariant holds throughout |
| Editor.Select | src/App.tsx:370-373 | choosing frame button `i` sets the selected index to exactly `i`, so that frame is current, and changes no frame |
| Editor.AddLetter | src/App.tsx:253-265 | a letter with a non-empty font entry appends and selects a 1000 ms frame whose lit LEDs are the entry's valid indices in the active colour; otherwise nothing changes |
| Editor.Advance | src/App.tsx:217-221 | the next cursor is the successor of the current one modulo the frame count, always a valid frame index |
| Editor.TogglePlay | src/App.tsx:241-251 | starting sets the cursor to −1 with a tick due after 0 ms; pausing cancels the pending tick and keeps the cursor |
| Editor.TickDelay | src/App.tsx:234-237 | the delay of the next tick: 0 for the start marker −1, otherwise the wait of the frame the cursor is on (the first frame for a cursor below −1); never negative when no wait is |
| Editor.Tick | src/App.tsx:213-239 | a tick moves the cursor to the next frame cyclically and schedules the next tick after the new frame's wait |
| Editor.ShowTick | src/App.tsx:213-244 | the tick keeps the playing flag, steps the cursor over the list captured when play was pressed, schedules the landed frame's wait as the next delay, and selects the landed index in the current list; the frames are not changed; the result is valid exactly when that index exists in the current list, which holds when the captured list is no longer than the current one |
| Editor.DeleteDuringPlaybackSelectsPastEnd | src/App.tsx:205-222 | add, play, one tick, delete: the next tick selects frame 1 of a one-frame list, an editor that is not valid |
| Editor.WaitEditDuringPlayback | src/App.tsx:168-175 | a wait set during playback on a frame still shared with the captured list leaves the pending tick at its old delay and is the delay the following tick schedules |
| Editor.CloneThenWaitEditMissesChain | src/App.tsx:199-203 | play, one tick, clone, select frame 0, set its wait to 300: the edit lands on a copy, and the next tick still schedules the original 1000 ms |
| Editor.LiveTick | src/App.tsx:213-222 | corrected tick over the current list: the selection is always a frame of the current list, and a cursor left past the end wraps to frame 0 |
| Editor.LiveTickAgrees | src/App.tsx:213-222 | when no frame was deleted since play, the corrected tick equals the tick of the code |
| Editor.DeleteDuringLivePlaybackStaysValid | src/App.tsx:205-222 | in the same add, play, tick, delete sequence the corrected tick selects the one remaining frame |
| Editor.ModSucc | src/App.tsx:217-221 | stepping `k` to `k + 1` advances `k mod n` cyclically, which is the cursor's step |
| Editor.PlaybackCycles | src/App.tsx:213-251 | after play, tick `k + 1` shows frame `k mod n` and waits that frame's wait: playback visits every frame in order, starting at frame 0 |
| Export.ColorValues | src/App.tsx:268-271 | the three channel entries are the parsed channels, or three nulls when the colour does not parse |
| Export.Table | src/App.tsx:273-289 | one block per frame, in order. Record 0 is `[wait/1000, frame count, 65, 4]`. For a full grid a block has 65 records of 4 values, and record `1 + 8y + x` holds `led` if lit or 99 if not, then the cell's channels |
| Export.ExportReadsBackActiveLeds | src/App.tsx:279 | the sentinel is unambiguous: reading the non-99 first entries of a block's LED records and sorting them gives exactly the frame's lit LEDs |
| Export.ExportedChannelsAreBytes | src/App.tsx:268-279 | for every colour literal each exported channel is a number in 0..255 |
| Export.SplitJoinIsMapChar | src/App.tsx:292-296 | splitting on one character and joining with another replaces every occurrence of the first with the second and changes nothing else |
| Export.ReplaceAll | src/App.tsx:293-296 | same length, and each character is replaced exactly when it is the searched one |
| Export.SwapBrackets | src/App.tsx:292-296 | same length; every `[` becomes `{`, every `]` becomes `}`, every other character is kept; no square bracket remains |
| Export.Decimal | src/App.tsx:290-291 | the frame count is written as the shortest decimal numeral: digits whose value is the count, one digit exactly below 10, and no leading zero |
| Export.Render | src/App.tsx:290-297 | the export text is the declaration with the frame count as first dimension, then the serialised table with braces for brackets, then `;` |
| Convertor.SamplePoint | src/Convertor.tsx:145-154 | the sample for cell (x, y) lies at the centre of that cell's 10×10 square of the 80×80 selector at (160, 160), inside the selector and inside the 400×400 canvas |
| Convertor.SamplePointsDistinct | src/Convertor.tsx:149-154 | different cells are sampled at different pixels |
| Convertor.DecodeRow | src/Convertor.tsx:147-160 | the inner loop builds, for one row, the cells left to right |
| Convertor.Decode | src/Convertor.tsx:145-162 | the decoded grid keeps the invariant; every cell is lit in `rgbToHex` of the pixel sampled at its centre; its list of lit LEDs is exactly 0..63; each colour parses back to the sampled channels |
| Convertor.SampledColorParses | src/Convertor.tsx:149-158 | each decoded cell's colour parses back to the red, green and blue channels of the sampled pixel |
| Convertor.RedIsDefaultColor | src/Convertor.tsx:29-31 | a pure red pixel decodes to the editor's default colour text `#ff0000` |
| Convertor.Transform | src/Convertor.tsx:52-76 | a position/size button moves the position by (x, y) and grows both sides by s; the difference between width and height is unchanged |
| Convertor.TransformsCompose | src/Convertor.tsx:65-66 | two presses equal one press with the summed offsets and growth |
| Convertor.TransformUndo | src/Convertor.tsx:65-66 | the opposite press restores the viewport |

## Left out

- Rendering, styles, the palette and the colour picker are left out. They do
  not affect the stored data. The active colour is a parameter of the
  handlers that use it.
- Timers are left out: `setTimeout`, `clearTimeout` and the interval
  reference. Only the cursor step and the delay of each scheduled tick are
  modelled. The playback chain reads the frame list it captured when play
  started, so `Editor.Tick` takes that list as a parameter.
- `Editor.ShowTick`: the captured list is a value; the model does not track
  object sharing. In the code it holds the frame objects of the render in
  which play was pressed, so only in-place edits to those objects (a click,
  a wait change, a clear, a decode) reach it. After a clone the editor holds
  copies of the earlier frames, and after a delete-all a new frame, so
  edits to those do not reach it (`Editor.CloneThenWaitEditMissesChain`).
  An edit that does reach it changes the delay the next tick schedules, not
  the delay of the tick already pending (`Editor.WaitEditDuringPlayback`).
  A caller passes the captured list with exactly the edits that reached it.
- `Editor.ChangeFrameLength`: the wait is an integer. Parsing the text input
  with `Number` is left out, and so are the fractional values and `NaN`
  (which fails the `>= 0` test and is ignored) that it can produce.
- `Editor.AddLetter`: the font table is a map parameter, and the letter is
  taken after lower-casing. The `in` operator's acceptance of inherited
  object keys such as `constructor` is not modelled.
- Browser image I/O is left out: `FileReader`, `Image`, `drawImage`,
  `clearRect` and `getImageData`. The canvas is the abstract function
  `pixelAt`, and alpha is carried but ignored, as in the code.
- The `400 / ratio` initial sizing of a loaded image is left out, because it
  is floating point.
- `Export.Render`: the `JSON.stringify` text is a parameter. Only its
  bracket-to-brace substitution and the surrounding declaration are modelled.
  The table itself is `Export.Table`.
- `Export.Table`: `wait / 1000` is an exact rational. The number formatting
  of the text is not modelled, and neither is the conversion of fractional
  values or values above 255 into the sketch's `unsigned char` array.
- `console.log` calls are left out. They have no effect on state.
- The `delay` state is left out. It is a display value for the wait input,
  and it has no effect on the frames.

## Findings

| source | as written | input that shows it | evidently intended | confidence | as-written member | corrected member |
|---|---|---|---|---|---|---|
| src/App.tsx:208-209, 222, 303 | the playback chain keeps stepping over the frame list captured when play was pressed; a delete during playback shortens the current list, and the next tick can select an index the current list lacks, which the render then dereferences | add a frame, press play, let one tick pass (frame 0 selected), delete the selected frame; the next tick selects frame 1 of a one-frame list | playback always selects a frame of the current list | high that the index is out of range; not executed | Editor.ShowTick, Editor.DeleteDuringPlaybackSelectsPastEnd | Editor.LiveTick, Editor.DeleteDuringLivePlaybackStaysValid |
