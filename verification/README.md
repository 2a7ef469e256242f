# Drag-and-drop image compressor: the page's state machine in Dafny

The page lets a user drop or pick one image. It hands the image to an
external compression library, shows the original and compressed sizes, and
offers a download and a reset. Under the DOM wiring of `js/main.js` there is
a small sequential state machine. This project models it as one immutable
page record, with a pure transition function for each event:

- **`Session`** (`session.dfy`) holds the page state. That is the globals
  `currentFile` and `compressedBlob`, the two size labels, the quality
  slider and its percentage label, and whether the controls, previews and
  action buttons are displayed. It also holds the handlers:
  - `HandleFiles` for selection, with acceptance decided by `Choose` and
    `IsImageType`;
  - `CompressImage` for compression;
  - `SliderInput`, `DownloadCompressed` and `Reset`;
  - `Consistent`, the invariant every handler keeps.
- **`FileSize`** (`file_size.dfy`) models `formatFileSize` with integers.
  The unit index is the largest `i` with `1024^i <= bytes`. The value
  `bytes / 1024^i` is rounded to hundredths, with half-way cases going up,
  and printed without trailing zeros. `ParseLabel` reads a label back, so the
  contracts can say what a label *means*.
- **`Debounce`** (`debounce.dfy`) models the trailing-edge debounce on an
  abstract integer clock. The timer has at most one pending deadline, and
  each call replaces it with `now + 300`. An independent reference,
  `Survivors`, gives the firing times of a sequence of calls in closed form.
- **`App`** (`app.dfy`) routes the events to their handlers, the way the
  listeners at the end of the script do. The events are a drop or picker
  change, slider input, the clock reaching a time, download and reset. The
  slider's timer sits next to the session state.
- **`Text`**, **`Optional`** and **`Seqs`** (`text.dfy`) hold helpers.
  These are the decimal text of a number and its inverse, the substring
  search behind `type.match('image.*')`, `Option` for `null`, and two facts
  about sequence concatenation.

The compression library is a black box. Every event that may call it
carries an `Outcome`: either a compressed blob, of which only the size is
observed, or a failure. Compression is atomic: the call and its completion
form one step. Alerts are recorded as tagged effects.

Some consequences the proofs make explicit:
- Reset does not cancel a pending debounced compression. When that
  compression fires afterwards it is a no-op, because `currentFile` is
  `null` by then (`FiringAfterResetIsNoOp`). The exception is a file picked
  after the reset but before the old deadline: that file is compressed on
  the pick and a second time when the deadline fires
  (`PickAfterResetCompressesTwice`).
- Say a second image is loaded and its compression fails. The first image's
  artifact is kept, and a download then saves it under the second file's
  name (`StaleArtifactAfterFailedLoad`).
- 1048571 to 1048575 bytes are shown as "1024 KB", not "1 MB". Rounding to
  two decimals can reach 1024 without moving to the next unit.
- From 1024^4 bytes up the unit index falls outside the four-entry unit
  table. The label then ends in "undefined".

## Model

| member | source | states |
|---|---|---|
| Session.HandleFiles | js/main.js:70-83 | an empty list changes nothing and raises nothing; a rejected file changes nothing and raises exactly the one alert; an accepted first file becomes current with its formatted size and the library is called first with it at the current slider quality; selection never fails with a type error |
| Session.IsImageType | js/main.js:74 | a media type passes exactly when "image" occurs anywhere in it (the pattern is unanchored and case-sensitive) |
| Session.Choose | js/main.js:70-77 | an empty list is ignored; otherwise only the first file counts, and it is accepted iff its type contains "image" and rejected iff it does not |
| Session.LaterFilesIgnored | js/main.js:73 | files after the first never change the verdict |
| Session.RejectionChangesNothing | js/main.js:71-77 | an empty or rejected selection leaves the whole state unchanged; a rejection raises exactly one alert, an empty list none |
| Session.AcceptedFile | js/main.js:79-96 | an accepted file becomes current, its formatted size is shown, all three regions are displayed, the library is called exactly once with the current slider quality, and the artifact changes only if that call succeeds |
| Session.ShowFile | js/main.js:86-96 | showing a file sets the current file, its size label and the three regions and changes nothing else |
| Session.CompressionOptions | js/main.js:103-112 | the output is capped at 10 MB and 1920 pixels on the longer side, a web worker is used, the resolution is kept, the quality passed is the slider value divided by 100, the initial quality equals it, and the output type is the file's own type |
| Session.CompressImage | js/main.js:99-136 | no current file: no call and no change; otherwise one library call with the current file and slider quality; success replaces exactly the artifact and its size label; failure alerts and changes nothing |
| Session.CompressPreserves | js/main.js:99-136 | compression keeps the page invariant whatever the library returns |
| Session.HandleFilesPreserves | js/main.js:70-96 | file selection keeps the page invariant |
| Session.PercentLabel | js/main.js:195 | the slider label is the value's decimal text followed by a percent sign |
| Session.PercentLabelInjective | js/main.js:195 | the slider label determines the slider value |
| Session.SliderInput | js/main.js:194-195 | an input sets the slider value and its label to that value and changes nothing else |
| Session.DownloadCompressed | js/main.js:149-158 | no download iff there is no artifact; otherwise the saved blob is the artifact and the name is "compressed_" followed by the current file's name; an artifact without a current file fails |
| Session.Consistent | js/main.js:150-154 | the page invariant (an artifact needs a current file, a current file is shown with its size, labels match their values) guarantees that a download click never reads the name of a missing file |
| Session.DownloadFailsIffOrphaned | js/main.js:149-154 | a download click fails exactly when there is an artifact but no current file |
| Session.CompressCalls | js/main.js:99-120 | compression calls the library exactly once, with the current file and slider quality, when a file is current, and not at all otherwise |
| Session.StaleArtifactAfterFailedLoad | js/main.js:79-154 | after loading a new image whose compression fails, download offers the previous artifact under the new file's name |
| Session.Reset | js/main.js:161-174 | reset clears the file and artifact, sets both sizes to "0 KB", puts the slider at 80 with label "80%", and hides all regions |
| Session.ResetIdempotent | js/main.js:161-174 | resetting twice equals resetting once |
| Session.ResetConsistent | js/main.js:161-174 | the reset state satisfies the page invariant; its label "80%" is the label of position 80 |
| FileSize.UnitIndex | js/main.js:144 | the unit index i satisfies 1024^i <= bytes < 1024^(i+1) |
| FileSize.UnitIndexIsLargest | js/main.js:144 | the unit index is the largest i with 1024^i <= bytes, and the only i bracketing bytes between consecutive powers |
| FileSize.UnitIndexInTable | js/main.js:143-145 | the index lies in the four-entry unit table iff bytes < 1024^4 |
| FileSize.UnscaledInRange | js/main.js:144-145 | the unscaled value bytes / 1024^i lies in [1, 1024) |
| FileSize.Hundredths | js/main.js:145 | the shown value is the multiple of 1/100 nearest to bytes / 1024^i, the larger one on a tie |
| FileSize.DecimalTextRoundTrip | js/main.js:145 | the printed number reads back as exactly the rounded hundredths |
| FileSize.DecimalTextShortest | js/main.js:145 | the printed number has a decimal point iff the hundredths are not whole, at most two digits after it, never a trailing zero after it, and no leading zero before it, as `parseFloat` of `toFixed(2)` prints |
| FileSize.FormatFileSize | js/main.js:140-146 | zero reads back as 0 Bytes; any other size reads back as its hundredths rounded at the unit of the largest power of 1024 not above it, followed by that unit's name |
| FileSize.FormatFileSizeMeaning | js/main.js:140-146 | a non-zero label reads back as a number n/100 and a unit; the unit is the one for the largest power of 1024 not above bytes; n/100 is within half a hundredth of the scaled value; and 1 <= n/100 <= 1024 |
| FileSize.FormatZero | js/main.js:141 | zero is shown as "0 Bytes" |
| FileSize.FormatSmall | js/main.js:140-146 | below 1024 the label is the exact byte count followed by " Bytes" |
| FileSize.FormatOneKilobyte | js/main.js:140-146 | 1024 bytes are shown as "1 KB" |
| FileSize.FormatOneAndAHalfKilobytes | js/main.js:140-146 | 1536 bytes are shown as "1.5 KB" |
| FileSize.FormatFiveMillionBytes | js/main.js:140-146 | 5000000 bytes are shown as "4.77 MB" |
| FileSize.FormatJustBelowMegabyte | js/main.js:140-146 | 1048575 bytes are shown as "1024 KB" |
| Debounce.Call | js/main.js:184-185 | a call drops any pending deadline and sets one exactly 300 after the call |
| Debounce.Advance | js/main.js:180-183 | the callback runs iff its deadline has been reached, and then nothing is pending |
| Debounce.Run | js/main.js:179-186 | after a non-empty sequence of calls the only pending deadline is the last call plus 300, the callback runs at most as many times as there are calls, and from an idle timer the runs during the calls are fewer than the calls, since the last call's run is still pending |
| Debounce.Firings | js/main.js:177-187 | the callback runs for some call iff there is one, never more often than there are calls, and its last run is 300 after the last call |
| Debounce.Survivors | js/main.js:177-187 | the reference firing times: non-empty iff there are calls, at most one per call, the last one 300 after the last call |
| Debounce.RunMatchesSurvivors | js/main.js:177-187 | a timer just set by the first call fires exactly at the reference times for all the calls |
| Debounce.BurstSurvivors | js/main.js:177-187 | by the reference, calls closer together than 300 fire once, 300 after the last |
| Debounce.SpacedSurvivors | js/main.js:177-187 | by the reference, calls at least 300 apart each fire, 300 after the call |
| Debounce.FiringsMatchSurvivors | js/main.js:177-187 | for every sequence of call times the timer runs the callback exactly when the reference says: at call + 300 for each call with no later call before then |
| Debounce.BurstFiresOnce | js/main.js:177-187 | calls whose gaps are all under 300 run the callback exactly once, at the last call plus 300 |
| Debounce.SpacedFiresEach | js/main.js:177-187 | calls at least 300 apart each run the callback once, 300 after the call |
| App.Dispatch | js/main.js:190-200 | a slider input re-arms the debounce and calls nothing; a clock tick before the deadline changes nothing; a due tick clears the timer; other events leave the timer as it was |
| App.RunEvents | js/main.js:35-200 | no events change nothing; events without slider input or clock ticks, reset included, leave the debounce timer as it was |
| App.RunAppend | js/main.js:35-200 | running two event sequences in turn is running their concatenation, effects concatenated |
| App.TimelyAppend | js/main.js:177-200 | a concatenation of events respects the pending deadline iff each part does, the second from where the first leaves off |
| App.DispatchKeepsArtifactNeedsFile | js/main.js:70-200 | from any state where an artifact has a current file, every event keeps it so |
| App.RunKeepsArtifactNeedsFile | js/main.js:17-200 | every sequence of events keeps an artifact tied to a current file, starting from any such state, the page-load state with both `null` included |
| App.DispatchNeverCrashes | js/main.js:149-154 | while every artifact has a current file, no single event makes a download click fail |
| App.DispatchPreserves | js/main.js:70-200 | every event keeps the page invariant |
| App.RunPreserves | js/main.js:70-200 | every sequence of events keeps the page invariant |
| App.RunNeverCrashes | js/main.js:17-200 | from the page-load state, or any other where every artifact has a current file, no sequence of events makes a download click fail |
| App.BurstIsTimely | js/main.js:184-196 | a burst of slider inputs whose first comes before any pending deadline never overruns a deadline |
| App.BurstOfSlides | js/main.js:194-196 | a burst of slider inputs calls nothing and leaves the slider, its label and the deadline at the last input's values |
| App.SlideBurstCompressesOnce | js/main.js:190-197 | a burst of slider inputs followed by the clock passing the last input plus 300 calls the library exactly once, with the last value, and only if a file is loaded |
| App.TickBeforeDeadlineIsQuiet | js/main.js:180-185 | before the deadline the clock changes nothing |
| App.FiringUsesCurrentSlider | js/main.js:99-112 | the debounced compression uses the slider value at firing time |
| App.FiringAfterResetIsNoOp | js/main.js:161-192 | a debounced compression firing straight after a reset, with no file picked in between, calls nothing and changes nothing |
| App.PickThenFire | js/main.js:70-192 | picking an image while a deadline is due and then reaching the deadline calls the library twice, both times with that image at the slider value |
| App.PickAfterResetCompressesTwice | js/main.js:70-192 | reset, then a pick of an image before the old deadline, then the deadline: the new image is compressed twice, each time at the default quality 80 |

## Left out

- The browser: DOM elements, `URL.createObjectURL`, `URL.revokeObjectURL` and the preview images' `src`. These are resource handles and rendering. Reset and download create or drop object URLs without revoking them, so the model claims nothing about releasing resources.
- Preview revocation order: `compressImage` revokes the old compressed preview URL before calling the library. After a failed compression the preview therefore shows a revoked URL. Previews are not modelled, so the model does not capture this.
- `fileInput.value = ''` in reset. This is a DOM detail with no effect on the modelled state.
- The compression library itself: the model passes its options and takes its result as an event parameter.
- The console log of the compression rate. It is float formatting and logging only.
- Drag feedback: `preventDefaults`, `highlight` and `unhighlight` are pure UI feedback.
- Alert texts: alerts are recorded as tagged effects, not as messages.
- Interleaving of compressions in flight: each compression is one atomic step. If the call and its completion were split, a reset between them could leave an artifact with no current file, and a download would then fail. The model leaves that race out.
- The page markup is not part of this model. It fixes the slider range (taken as 0 to 100 here) and the labels shown before the first event. The full invariant `Consistent` is proved for every state reached from a reset and is preserved by every event. Its label parts depend on the markup. The part a download needs, `ArtifactNeedsFile`, holds at page load and is kept from any state.
- FileSize.UnitIndex: the index is computed exactly with integers. The source computes it as `Math.floor(Math.log(bytes) / Math.log(1024))` in floating point, and that ratio may misround at exact powers of 1024.
- FileSize.FormatFileSize: sizes are taken as exact integers. Above 2^53 bytes a JavaScript number no longer holds the size exactly, and this is not modelled.
- Debounce.Run: the call times are meant to be in clock order, as `setTimeout` sees them, but nothing requires it. For calls out of order the result is still defined, though no browser produces it; `Firings([1000, 0])` is `[300]`.
- Session.CompressionOptions: `parseInt(qualitySlider.value) / 100` is a double in the source. The model keeps the quality as the exact real `q / 100`, so for example 0.29 is exact here although the double 0.29 times 100 is 28.999999999999996. The library is a black box, so nothing else depends on this.
- Debounce.Advance: when a slider input and a deadline fall on the same instant, the deadline is taken to fire first. The event loop leaves that order open.
