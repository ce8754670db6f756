# Fingertip drawing and voice clear, modelled in Dafny

The sketch lets a user draw on a canvas with an index fingertip tracked by a
hand-pose model, and clear the canvas by saying "clear". Two small pieces of
logic sit under the browser glue, and this project models both of them:

* **The drawing state machine** (`drawing.dfy`, module `Drawing`). This is the
  prediction handler `resultHandler` together with `clearCanvas`. The state is
  the remembered fingertip `previousPoint` and the 2D context. The context is
  modelled as the sequence of stroked segments plus the context's current
  stroke style and line width. Each segment records its start point, end
  point, colour and width. The class `Sketch` holds that state. Its methods
  `ResultHandler` and `ClearCanvas` update it in place. Each is proved equal to
  the pure transition `Step` or `Cleared` applied to its old state. `Run` folds
  `Step` over a sequence of prediction events. The lemmas prove the
  frame-sequence invariant against `PairSegments`, an independent definition.
  It draws one segment for every pair of adjacent events that both contain a
  hand.
* **The voice-command matcher** (`transcript.dfy`, module `Transcript`, and
  `speech.dfy`, module `Speech`). The transcript test trims the transcript,
  lower-cases it and compares it with `"clear"`. It is the pure predicate
  `IsClearCommand`. Both directions of its meaning are proved: the word
  "clear" in any letter case with only white space around it. The
  result-event loop is the method `Speech.OnResult`, and its body for one
  result is `Speech.HandleResult`. It calls
  `Sketch.ClearCanvas` once for every final result from `resultIndex` on whose
  best transcript matches. It is proved against `ClearCount`, which the
  lemmas relate to `TriggersClear` and to the set of matching indices.

Inputs that come from the platform are parameters here. These are the hands
detected in a frame, the colour-picker and stroke-width values, and the
speech-recognition event. Landmark coordinates are integers.

## Model

| member | source | states |
|---|---|---|
| `Drawing.Step` | sketch.js:39-69 | Every frame sets stroke style and width from the controls, even an empty one. An empty frame forgets the point and draws nothing. A frame with a hand remembers `results[0].landmarks[8]`. The earlier segments are kept. One segment is added exactly when a point was remembered and the frame has a hand. That segment runs from the old point to the new fingertip, in this frame's colour and width. |
| `Drawing.Sketch.ResultHandler` | sketch.js:39-69 | The in-place handler gives exactly `Step` of the old state. It also spells out each case: stroke settings always taken from the controls; empty frame resets the point; a hand with a remembered point appends one segment; a hand without one only seeds the point. |
| `Drawing.Sketch.ClearCanvas` | sketch.js:77-80 | Afterwards no segments remain and no point is remembered. The stroke settings are unchanged. The new state is `Cleared` of the old one. |
| `Drawing.Sketch.constructor` | sketch.js:3-4 | The sketch starts with no remembered point, a blank canvas and a fresh context's default stroke settings. |
| `Drawing.Run` | sketch.js:39-69 | Handling events one after another never removes or changes a segment already drawn. Only a clear removes segments. |
| `Drawing.RunAppend` | sketch.js:39-69 | Handling `a` and then `b` is handling `a + b`. |
| `Drawing.RunSnoc` | sketch.js:39-69 | Handling one more event after a run is one `Step` on the run's result. |
| `Drawing.RunLastEvent` | sketch.js:41-68 | After a non-empty run, the stroke settings are those read in the last event. The remembered point is that event's fingertip, or absent if it had no hand. |
| `Drawing.RunSegments` | sketch.js:51-68 | A run's segments are the old segments, then the segment from a previously remembered point to the first fingertip, then `PairSegments` of the events. |
| `Drawing.PairSegmentsCount` | sketch.js:51-68 | `PairSegments` has one segment per index `i` whose events `i-1` and `i` both contain a hand. |
| `Drawing.ContinuousPairsSnoc` | sketch.js:51-68 | One more event adds its index to the continuous pairs exactly when it and the event before both contain a hand. |
| `Drawing.SegmentsDrawnCount` | sketch.js:51-68 | Start from no remembered point, as at start-up or after a clear. The number of segments drawn then equals the number of adjacent event pairs that both contain a hand. |
| `Drawing.NoHandsDrawNothing` | sketch.js:51-54 | Events with no hands never draw. After at least one of them, no point is remembered. |
| `Drawing.UnbrokenRunDrawsEveryPair` | sketch.js:57-68 | When every event has a hand, `PairSegments` of `n` events has `n-1` segments. Segment `i` runs from fingertip `i` to fingertip `i+1` and uses the colour and width of event `i+1`. With `ClearThenRun`, this is what `n` such events draw after start-up or a clear. |
| `Drawing.UnbrokenRunSegmentCount` | sketch.js:57-68 | When every event of a run has a hand, the run adds `n-1` segments for `n` events if no point was remembered beforehand. It adds `n` if one was, since the first event then also draws from the remembered point. |
| `Drawing.GapResets` | sketch.js:51-54 | An event with no hand breaks continuity. What follows it is handled as if from a state with no remembered point and the same segments. |
| `Drawing.ExtraHandsIgnored` | sketch.js:57 | Hands after the first never matter. Take two runs whose events agree on emptiness, first fingertip and control values. Both end in the same state. |
| `Drawing.Cleared` | sketch.js:77-80 | The pure clear: the canvas is erased and no point is remembered, while the context's stroke settings stay. Its properties are stated by `ClearIdempotent`, `ClearThenRun`, `FirstHandAfterClear` and `Sketch.ClearCanvas`. |
| `Drawing.ClearIdempotent` | sketch.js:77-80 | Clearing twice is the same as clearing once. |
| `Drawing.ClearThenRun` | sketch.js:77-80 | After a clear, a run draws exactly `PairSegments` of its events. |
| `Drawing.FirstHandAfterClear` | sketch.js:77-80 | The first event after a clear draws nothing. If it has a hand, it only remembers that hand's fingertip. |
| `Transcript.TrimStart` | sketch.js:101 | The leading half of `trim()`: drops trimmable characters from the front. Its meaning is stated by `TrimStartShape` and `TrimStartPadded`. |
| `Transcript.TrimEnd` | sketch.js:101 | The trailing half of `trim()`: drops trimmable characters from the back. Its meaning is stated by `TrimEndShape` and `TrimEndPadded`. |
| `Transcript.Trim` | sketch.js:101 | `trim()`: drops trimmable characters from both ends. Its meaning is stated by `TrimShape`, `TrimPadded` and `TrimIdempotent`. |
| `Transcript.TrimStartShape` | sketch.js:101 | Leading trim removes a prefix made only of trimmable characters. What is left does not start with one. |
| `Transcript.TrimEndShape` | sketch.js:101 | Trailing trim removes a suffix made only of trimmable characters. What is left does not end with one. |
| `Transcript.TrimShape` | sketch.js:101 | `Trim` keeps a contiguous piece of its input. That piece neither starts nor ends with a trimmable character. Only trimmable characters are cut off. |
| `Transcript.TrimStartPadded` | sketch.js:101 | Leading trim of trimmable padding followed by a word that does not start with a trimmable character gives back that word. |
| `Transcript.TrimEndPadded` | sketch.js:101 | Trailing trim of a word that does not end with a trimmable character, followed by trimmable padding, gives back that word. |
| `Transcript.TrimPadded` | sketch.js:101 | `Trim` of a word padded on both sides with trimmable characters gives back the word. |
| `Transcript.TrimIdempotent` | sketch.js:101 | Trimming twice is the same as trimming once. |
| `Transcript.ToLower` | sketch.js:101 | `toLowerCase()` on ASCII letters. Its meaning is stated by `ToLowerShape` and `LowerIffCaseVariant`. |
| `Transcript.ToLowerShape` | sketch.js:101 | Lower-casing keeps the length and maps each character on its own. ASCII capitals become their small letters, and no ASCII capital is left. Every other character is kept. |
| `Transcript.LowerIffCaseVariant` | sketch.js:101 | Lower-casing gives a lower-case word exactly when the input spells that word with each letter in either case. |
| `Transcript.IsClearCommand` | sketch.js:101-103 | The test `transcript.trim().toLowerCase() === "clear"`. Both directions of its meaning are stated by `ClearCommandPadded` and `ClearCommandShape`. |
| `Transcript.ClearCommandPadded` | sketch.js:101-103 | "clear" in any mix of letter cases, with only trimmable characters around it, is the command. |
| `Transcript.ClearCommandShape` | sketch.js:101-103 | Conversely, every transcript that is the command is "clear" in some mix of letter cases with only trimmable characters around it. |
| `Transcript.CaseIgnored` | sketch.js:101-103 | "Clear" is the command. |
| `Transcript.SpaceIgnored` | sketch.js:101-103 | " CLEAR\n", with a space before and a line feed after, is the command. |
| `Transcript.OtherLengthNeverFires` | sketch.js:103 | A transcript whose trimmed form is not five characters long is never the command. |
| `Transcript.ContainingCommandDoesNotFire` | sketch.js:103 | "please clear now" and "clear it" are not the command: only an exact match counts. |
| `Speech.CountBetween` | sketch.js:99-106 | The number of results in an index range that satisfy a test is at most the range's length. It is zero exactly when no result in the range passes. |
| `Speech.CountBetweenIsCardinality` | sketch.js:99-106 | That number is the size of the set of indices in the range whose result passes the test. |
| `Speech.CountBetweenSameRange` | sketch.js:99-106 | The count depends only on the results inside the range. |
| `Speech.Fires` | sketch.js:100-103 | A result makes the callback clear when it is final and its first alternative's transcript passes `IsClearCommand`. |
| `Speech.ClearCount` | sketch.js:99-106 | How many times one event clears: the results from `resultIndex` to the end that fire. Its meaning is stated by `ClearCountIsMatchingResults`, `ClearCountPositiveIffTriggers`, `InterimResultsNeverClear` and `EarlierResultsIgnored`. |
| `Speech.TriggersClear` | sketch.js:99-106 | Whether an event clears at all: some result from `resultIndex` on fires. `ClearCountPositiveIffTriggers` ties it to `ClearCount`. |
| `Speech.ClearCountIsMatchingResults` | sketch.js:99-106 | One event clears once per index from `resultIndex` on whose result is final and whose best transcript is the command. |
| `Speech.ClearCountPositiveIffTriggers` | sketch.js:99-106 | An event clears at all exactly when some result it scans is final with a matching best transcript. |
| `Speech.InterimResultsNeverClear` | sketch.js:100 | An event whose scanned results are all interim never clears, whatever the transcripts say. |
| `Speech.EarlierResultsIgnored` | sketch.js:99 | Replacing the results before `resultIndex` does not change how many times an event clears. |
| `Speech.HandleResult` | sketch.js:100-105 | Handling one result clears the sketch exactly when the result fires, that is, it is final and its best transcript is the command. Otherwise the sketch is unchanged. |
| `Speech.OnResult` | sketch.js:98-108 | The callback scans the results from `resultIndex` on and calls `ClearCanvas` exactly `ClearCount(event)` times. Afterwards the sketch is the cleared old state if it cleared at least once, and unchanged otherwise. With `ClearCountPositiveIffTriggers`, that happens exactly when `TriggersClear(event)`. |

## Left out

- Webcam acquisition and video playback (sketch.js:15-28) are browser I/O.
- Loading the hand-pose model, registering the prediction callback and the
  ready callback (sketch.js:31-36, 72-74) are an external library. The
  detected hands are an input of `ResultHandler`.
- Reading the colour picker and stroke-width controls and writing
  `strokeWidthDisplay` (sketch.js:41-44) are DOM access. The two values are
  parameters, and the display text is not modelled.
- The canvas's parsing of the assigned values is not modelled. A canvas
  ignores a colour it cannot parse or a non-positive width. The model stores
  the given colour string and the width as a natural number.
- Pixels are not modelled: `beginPath`/`moveTo`/`lineTo`/`stroke` become one
  recorded segment. `clearRect(0, 0, 640, 480)` becomes erasing all segments,
  so the canvas is taken to be exactly 640 by 480. The rectangle is kept as
  the constants `CanvasWidth` and `CanvasHeight`, without geometry.
- `Drawing.FrameWellFormed`: the first hand must have a landmark at index 8.
  The detector always reports 21 landmarks per hand. A shorter list would
  make the source read `undefined`, a state it does not handle.
- `Speech.EventReadable`: every final result the loop visits must have at
  least one alternative, since the source reads `results[i][0]` unguarded.
- Landmark coordinates are integers rather than floating point. Only the first
  two coordinates reach a segment, as with `moveTo`/`lineTo`.
- `Transcript.ToLower`: only ASCII letters are lower-cased. Full Unicode case
  mapping is not modelled, and it can change a string's length. No non-ASCII
  letter lower-cases to a letter of "clear". A non-ASCII capital that should
  become some other letter is kept as it is here.
- `Transcript.Trim` removes the ECMAScript WhiteSpace and LineTerminator
  characters as listed in `IsTrimmable`. Only the Unicode space separators as
  of this writing are included. JavaScript's UTF-16 strings are modelled as
  sequences of Unicode scalar values.
- The speech-recognition lifecycle is not modelled: the feature check, the
  `continuous`/`interimResults` settings, error logging and the restart on
  end (sketch.js:85-96, 111-121). These are platform events plus an
  unbounded restart loop. Only the first alternative of a result is read,
  as in the source.
- The start-up ordering (sketch.js:125-134) is not modelled. Neither is any
  interleaving of the prediction and speech callbacks: each handler runs to
  completion on the shared `Sketch`.
