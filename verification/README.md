# Audio converter — a Dafny model

This project models the core of a browser audio converter: a React component (`AudioConverter`) and a theme helper (`theme-utils`).

The component takes a batch of audio files and converts each to MP3 or WAV in a pool of Web Workers. It runs at most `maxWorkers` conversions at a time. Finished files are renamed with the new extension and offered for download.

The model covers:

- **Scheduler** (`Scheduler`, `SchedulerRuns`): a sequential state machine.
  - `Start` splits a batch between the worker slots and a FIFO queue.
  - A worker's `complete` message (`Complete`) or a decoding failure (`Fail`) retires a file. It then either ends the batch or hands the queue's head to the worker that just freed.
  - A `progress` message (`RecordProgress`) updates a file's percentage.
  - The bookkeeping invariant is proved preserved by every step. It states:
    - every file is in exactly one of queued, in flight or processed;
    - the counts add up;
    - no more files are in flight than there are workers;
    - no worker holds two files.
  - Runs that deliver a terminal event for every file are proved to end the batch, with the live processed count.
- **Aggregates** (`Aggregates`):
  - the mean progress of the in-flight files;
  - the remaining-time estimate and its Spanish text;
  - the default worker count derived from the core count.
- **WAV encoding** (`Wav`): the canonical 44-byte RIFF/WAVE header of a mono 16-bit PCM stream, little-endian field encoders with their decoders, and a parser that the encoder round-trips through.
- **Block loop** (`Blocks`): the worker's 1152-sample chunking of the sample stream and its progress reports every ten blocks.
- **Output names** (`FileNames`, `Decimal`): stripping a trailing `.ext` (the pattern `\.[^/.]+$`), appending the target format, and the `audio_<index>` fallback for unnamed files.
- **Theme** (`Theme`):
  - dark/light resolution from the stored preference and the system setting;
  - `setTheme`, `toggleTheme` and `initializeTheme`;
  - the conditional class helper;
  - the cross-tab `storage` event filter.

The browser is abstracted as follows:

- A dispatch to a worker is a `Slot(index, worker)` in the transition's result.
- A worker's reply is an `Event` given to `Apply`.
- The store behind `localStorage` is an `Option<string>`.
- The system colour-scheme preference is a boolean parameter.
- The clock's elapsed seconds and `navigator.hardwareConcurrency` are parameters.
- Audio samples reach the WAV encoder already quantised to 16-bit integers.

### Behaviour of the code worth knowing

- **Pool size.** The number of workers created for a batch is `maxWorkers`, not `min(maxWorkers, n)`. Only the first `min(maxWorkers, n)` files are dispatched at once.
- **Empty batch.** Starting with no files does nothing at all. It does not report completion.
- **No error counter.** The code keeps no separate count of failed files. A failure is counted in the same processed count as a success. It shows a per-file error message, or "completed with errors" when it was the last file.
- **Aggregate percentage.** It is updated only on a successful completion. Its value is `(processed + 1) / n * 100` capped at 100. Because `processed` counts failures too, the percentage includes failed files.
- **Stored theme values.** A stored empty string resolves to light, because only the exact value "dark" means dark. `initializeTheme` still rewrites an empty value, because it tests the stored value for truthiness.

## Model

| member | source | states |
|---|---|---|
| Scheduler.Start | src/components/AudioConverter.tsx:329-363 | an empty batch changes nothing; otherwise, with k = min(maxWorkers, n), files 0..k-1 go in flight with file j on worker j, they are exactly what is dispatched, in-flight indices followed by the queue are 0..n-1 in order, and counters, progress map and outputs are reset while converting is on |
| Scheduler.Dequeue | src/components/AudioConverter.tsx:249-268 | an empty queue changes nothing and dispatches nothing; otherwise exactly the head leaves the queue, joins the in-flight list and is dispatched to the worker passed in, and no other field changes |
| Scheduler.RemoveIndex | src/components/AudioConverter.tsx:233-235 | a slot stays in the in-flight list exactly when its file index differs from the retired one |
| Scheduler.RemoveIndexAppend | src/components/AudioConverter.tsx:233-235 | the filter works entry by entry and keeps the survivors in their order: filtering a concatenation is the concatenation of the filtered parts |
| Scheduler.RemoveIndexSingle | src/components/AudioConverter.tsx:235 | a single in-flight entry is kept exactly when it holds a different file |
| Scheduler.RemoveAbsent | src/components/AudioConverter.tsx:233-235 | filtering out an index that is not in flight leaves the list unchanged |
| Scheduler.RemoveKeepsDistinct | src/components/AudioConverter.tsx:314-316 | removing a file keeps in-flight indices and workers pairwise distinct |
| Scheduler.RemoveKeepsDistinctIndices | src/components/AudioConverter.tsx:233-235 | filtering keeps in-flight file indices pairwise distinct |
| Scheduler.RemoveKeepsDistinctWorkers | src/components/AudioConverter.tsx:233-235 | filtering keeps in-flight workers pairwise distinct |
| Scheduler.RemoveOne | src/components/AudioConverter.tsx:233-235 | with distinct indices, retiring an in-flight file shortens the list by exactly one |
| Scheduler.WorkerFreed | src/components/AudioConverter.tsx:233-243 | after a file on worker w is retired, no remaining in-flight file uses w, so the worker can take the next file |
| Scheduler.CompletedShare | src/components/AudioConverter.tsx:227-230 | the aggregate after a success lies in 0..100, equals the processed share of the batch when it does not exceed the batch, and is capped at 100 otherwise (including a zero-size batch) |
| Scheduler.ShareGrows | src/components/AudioConverter.tsx:228 | the processed share never decreases when one more file is processed |
| Scheduler.ShareInSourceOrder | src/components/AudioConverter.tsx:228 | over exact reals, dividing first and then multiplying by 100, as the source orders it, gives the processed share |
| Scheduler.ShareAtMostAll | src/components/AudioConverter.tsx:229 | the share is non-negative, and at most 100 exactly when no more files are processed than the batch holds |
| Scheduler.Complete | src/components/AudioConverter.tsx:202-245 | a success adds one output named by the rename rule, bumps the processed count, sets the aggregate to the capped share, removes the file from the in-flight list, and ends the batch with the done message exactly when this was the last file, otherwise hands the queue's head to the same worker |
| Scheduler.Fail | src/components/AudioConverter.tsx:306-326 | a decoding failure bumps the processed count, removes the file, always pulls the queue's head onto the same worker, keeps the aggregate and outputs, and ends the batch with the errors message exactly when this was the last file |
| Scheduler.RecordProgress | src/components/AudioConverter.tsx:196-201 | a progress report sets that file's percentage to fraction times 100 and leaves every other file's entry and every other field unchanged |
| Scheduler.Apply | src/components/AudioConverter.tsx:193-205 | a progress report dispatches nothing and leaves the count, queue, in-flight list and converting flag alone while recording the file; a terminal event adds exactly one to the count, dispatches at most one file and removes the file from the in-flight list |
| Scheduler.InitialInv | src/components/AudioConverter.tsx:4-21 | the state before any batch satisfies the bookkeeping invariant |
| Scheduler.InitialPlacement | src/components/AudioConverter.tsx:345-361 | the first min(workers, n) files on their own workers with the rest queued is a valid placement |
| Scheduler.StartInv | src/components/AudioConverter.tsx:345-361 | starting a non-empty batch establishes the invariant, and an empty one keeps it |
| Scheduler.Retired | src/components/AudioConverter.tsx:233-235 | retiring an in-flight file keeps the remaining files below the dispatch frontier, on valid workers, distinct and clear of the freed worker |
| Scheduler.PullKeepsPlacement | src/components/AudioConverter.tsx:249-267 | handing the queue's head to the freed worker restores the count equation, the ordered queue and a full pool |
| Scheduler.DrainKeepsPlacement | src/components/AudioConverter.tsx:249-251 | with nothing queued, retiring a file keeps the invariant without a dispatch |
| Scheduler.RetireLast | src/components/AudioConverter.tsx:238-240 | when the count reaches the batch size, the queue is empty and the retired file was the last one in flight |
| Scheduler.RetireThenDequeue | src/components/AudioConverter.tsx:314-319 | retiring a file and then dequeuing onto its worker keeps the invariant |
| Scheduler.CompletePlacement | src/components/AudioConverter.tsx:224-244 | a success for an in-flight file keeps every file in exactly one place, the queue ordered and each worker with at most one file |
| Scheduler.CompleteLastPlacement | src/components/AudioConverter.tsx:238-240 | the last success leaves nothing queued or in flight |
| Scheduler.CompleteNextPlacement | src/components/AudioConverter.tsx:241-244 | a success before the last keeps the placement while the freed worker takes the queue's head |
| Scheduler.CompleteFlags | src/components/AudioConverter.tsx:227-240 | after a success the batch is converting exactly while files remain and the aggregate lies in 0..100 and at most the processed share |
| Scheduler.CompleteInv | src/components/AudioConverter.tsx:224-244 | a success for an in-flight file preserves the whole invariant |
| Scheduler.FailPlacement | src/components/AudioConverter.tsx:310-319 | a failure for an in-flight file keeps the placement while the freed worker takes the queue's head |
| Scheduler.FailFlags | src/components/AudioConverter.tsx:310-325 | after a failure the batch is converting exactly while files remain, and the untouched aggregate stays at most the processed share |
| Scheduler.FailInv | src/components/AudioConverter.tsx:306-325 | a failure for an in-flight file preserves the whole invariant |
| Scheduler.ApplyInv | src/components/AudioConverter.tsx:193-245 | every valid event preserves the invariant |
| SchedulerRuns.PlacementSets | src/components/AudioConverter.tsx:345-361 | under the invariant the queued and in-flight sets are disjoint subsets of the batch with as many members as their lists |
| SchedulerRuns.EveryFileOnce | src/components/AudioConverter.tsx:345-361 | every file of the batch is in exactly one of queued, in flight and processed, and nothing outside the batch is queued or in flight |
| SchedulerRuns.ProcessedCount | src/components/AudioConverter.tsx:224 | the processed counter equals the number of files neither queued nor in flight |
| SchedulerRuns.DequeueIsFifo | src/components/AudioConverter.tsx:254-255 | the dispatched file is the smallest queued position, so files start in their original order |
| SchedulerRuns.NoStall | src/components/AudioConverter.tsx:238-244 | while a batch is converting on at least one worker, some file is in flight, so a further event can arrive |
| SchedulerRuns.SmallBatchAllAtOnce | src/components/AudioConverter.tsx:348-349 | a batch no larger than the pool is dispatched entirely at start with an empty queue |
| SchedulerRuns.AggregateIgnoresPartialProgress | src/components/AudioConverter.tsx:227-230 | until a file has finished, the aggregate percentage stays 0 whatever the per-file reports |
| SchedulerRuns.RunInv | src/components/AudioConverter.tsx:193-245 | a valid run of events keeps the invariant and adds one to the processed count per terminal event |
| SchedulerRuns.RunFinishes | src/components/AudioConverter.tsx:237-240 | a valid run has at most as many terminal events as files remain, and once every file has had one nothing is queued or in flight and the batch has stopped converting, failures included |
| SchedulerRuns.CompleteAsWritten | src/components/AudioConverter.tsx:224-244 | the handler reading a captured count still bumps the live count, and does not end the batch while the captured count is more than one file short |
| SchedulerRuns.CompleteReadsLiveCount | src/components/AudioConverter.tsx:228-238 | the modelled completion is the handler as written with the captured count replaced by the live one |
| SchedulerRuns.StaleCountNeverFinishes | src/components/AudioConverter.tsx:238-240 | with two files on two workers and the count captured as 0, both completions leave every file processed but the batch still converting, while the live-count handler ends it with the done message |
| SchedulerRuns.FailAsWritten | src/components/AudioConverter.tsx:306-325 | the catch path reading a captured count still bumps the live count and retires the file, and does not end the batch while the captured count is more than one file short |
| SchedulerRuns.FailReadsLiveCount | src/components/AudioConverter.tsx:310-322 | the modelled failure is the catch path as written with the captured count replaced by the live one |
| SchedulerRuns.StaleCountFailuresNeverFinish | src/components/AudioConverter.tsx:321-324 | with two files on two workers and the count captured as 0, two failures leave every file processed but the batch still converting, while the live-count path ends it with the errors message |
| Aggregates.Reported | src/components/AudioConverter.tsx:384-389 | one value per in-flight file that has a progress entry, in in-flight order: the k-th value is the percentage of the k-th reporting position, so equal percentages of different files are all kept; the values are exactly the reported percentages, and there are none exactly when no in-flight file has reported |
| Aggregates.ReportingFrom | src/components/AudioConverter.tsx:384-385 | the positions from a starting point on whose file has a progress entry, each exactly once and in increasing order |
| Aggregates.AllReportingFrom | src/components/AudioConverter.tsx:384-385 | when every file from a starting point on has reported, every one of those positions is listed |
| Aggregates.AllReported | src/components/AudioConverter.tsx:384-391 | when every in-flight file has reported, the average is taken over exactly one value per file, in order, equal values included |
| Aggregates.Mean | src/components/AudioConverter.tsx:391 | the mean times the number of values is their sum |
| Aggregates.ArgMin | src/components/AudioConverter.tsx:391 | picks the position of a smallest reported value |
| Aggregates.ArgMax | src/components/AudioConverter.tsx:391 | picks the position of a largest reported value |
| Aggregates.SumBounds | src/components/AudioConverter.tsx:381-389 | a sum of values between lo and hi lies between count times lo and count times hi |
| Aggregates.MeanWithin | src/components/AudioConverter.tsx:391 | the mean of values between lo and hi lies between lo and hi |
| Aggregates.AverageProgress | src/components/AudioConverter.tsx:378-392 | the average is 0 when nothing in flight has reported (an empty in-flight list included); otherwise it is the mean of the reported values, that is, times the number of reporting files it gives the sum of their percentages, and it lies between the smallest and largest of them |
| Aggregates.AverageWithin | src/components/AudioConverter.tsx:378-392 | when every recorded percentage lies in a range that contains 0, so does the average |
| Aggregates.RoundHalfUp | src/components/AudioConverter.tsx:400 | the result is the integer nearest to a/b, halves rounding up |
| Aggregates.RemainingSeconds | src/components/AudioConverter.tsx:398-400 | the estimate is the integer nearest to elapsed / processed × (files − processed), halves rounding up |
| Aggregates.EstimateRemaining | src/components/AudioConverter.tsx:395-410 | the estimate is "calculating" exactly when not converting, nothing is processed or no time has elapsed; otherwise under 60 seconds is shown as seconds and 60 or more as whole minutes and the remaining 0..59 seconds that add back up to the rounded estimate |
| Aggregates.EstimateIsNearestSecond | src/components/AudioConverter.tsx:398-400 | the estimate is the whole number of seconds nearest to elapsed / processed × remaining files, never negative, and 0 when every file is processed |
| Aggregates.EstimateText | src/components/AudioConverter.tsx:396-409 | "Calculando..." exactly for the calculating estimate; the seconds text ends in " segundos" and the minutes text in " seg" (but not " segundos"); every text reads back as the estimate it shows |
| Aggregates.EstimateTextExactly | src/components/AudioConverter.tsx:396-409 | a text reads back as an estimate exactly when it is the text shown for that estimate, so each estimate has one text, with unpadded numbers |
| Aggregates.SecondsTextReads | src/components/AudioConverter.tsx:404 | "<n> segundos" reads back as n seconds, negative n included |
| Aggregates.MinutesTextReads | src/components/AudioConverter.tsx:408 | "<m> min <s> seg" reads back as m minutes and s seconds |
| Aggregates.MinutesBodyParts | src/components/AudioConverter.tsx:408 | the minutes text splits at its first non-digit into the minutes' digits, " min " and the seconds' digits |
| Decimal.ParseInt | src/components/AudioConverter.tsx:404 | accepts an optional minus sign and digits without leading zeros, never "-0", and every accepted text is exactly the rendering of the integer it reads as |
| Decimal.ParseIntToString | src/components/AudioConverter.tsx:404 | the signed decimal text of an integer reads back as that integer |
| Decimal.NatToStringOfParse | src/components/AudioConverter.tsx:404-408 | digits without a leading zero (or the single digit 0) are exactly the rendering of the number they read as |
| Aggregates.DefaultWorkers | src/components/AudioConverter.tsx:30-35 | the default is at least 2; above 2 it is at most three quarters of the cores, and it is never a full quarter step below them, so it is max(2, floor(0.75 × cores)) with a missing count read as 4; on machines with at least two cores it never exceeds the core count |
| Aggregates.Cores | src/components/AudioConverter.tsx:30 | a missing or zero core count reads as 4; any other count is kept |
| Aggregates.DefaultWorkersUnique | src/components/AudioConverter.tsx:35 | exactly one count meets the default's contract, so the contract determines the default |
| Aggregates.DefaultWorkersMonotone | src/components/AudioConverter.tsx:35 | more cores never give fewer default workers |
| Aggregates.DefaultWorkersOnSlider | src/components/AudioConverter.tsx:519-520 | the default is at least the slider minimum 1, and is at most the slider maximum min(16, cores × 12) exactly when the machine reports at most 22 cores |
| Wav.DecodeLe16 | src/components/AudioConverter.tsx:132 | two bytes decode to a value below 2^16 |
| Wav.Le16 | src/components/AudioConverter.tsx:132 | a 16-bit little-endian write is two bytes decoding to the value modulo 2^16 |
| Wav.Le16OfDecode | src/components/AudioConverter.tsx:132 | re-encoding a decoded 16-bit field gives back the same two bytes |
| Wav.DecodeLe32 | src/components/AudioConverter.tsx:128 | four bytes decode to a value below 2^32 |
| Wav.Le32 | src/components/AudioConverter.tsx:128 | a 32-bit little-endian write is four bytes decoding to the value modulo 2^32 |
| Wav.Le32OfDecode | src/components/AudioConverter.tsx:128 | re-encoding a decoded 32-bit field gives back the same four bytes |
| Wav.DecodeInt16 | src/components/AudioConverter.tsx:156 | a signed sample read from two bytes is the one whose little-endian write gives those bytes |
| Wav.DecodeInt16OfLe16 | src/components/AudioConverter.tsx:156 | every signed 16-bit sample decodes back from its little-endian write |
| Wav.Le16Wraps | src/components/AudioConverter.tsx:156 | a 16-bit write stores x and x - 2^16 identically, which is how negative samples become two's complement |
| Wav.Ascii | src/components/AudioConverter.tsx:147-151 | one byte per character, the character code taken modulo 256 as a byte store does |
| Wav.PcmBytes | src/components/AudioConverter.tsx:153-158 | sample k occupies bytes 2k and 2k+1, written little-endian |
| Wav.RiffHeaderFields | src/components/AudioConverter.tsx:127-129 | the RIFF chunk holds "RIFF", the size 36 + 2n and "WAVE" at their offsets |
| Wav.FmtChunkFields | src/components/AudioConverter.tsx:130-137 | the format chunk holds "fmt ", size 16, format tag 1, one channel, the sample rate, the byte rate, block align 2 and 16 bits |
| Wav.DataHeaderFields | src/components/AudioConverter.tsx:138-139 | the data chunk header holds "data" and the size 2n |
| Wav.HeaderRiffFields | src/components/AudioConverter.tsx:127-129 | the 44-byte header opens with "RIFF", the size 36 + 2n and "WAVE" |
| Wav.HeaderFmtFields | src/components/AudioConverter.tsx:130-137 | bytes 12-35 of the header hold the fmt chunk's tag and fields in the order the encoder writes them |
| Wav.HeaderDataFields | src/components/AudioConverter.tsx:138-139 | bytes 36-43 of the header hold "data" and the size 2n |
| Wav.HeaderFieldValues | src/components/AudioConverter.tsx:127-139 | read back through the field accessors, the header holds every tag at its offset and every integer field modulo its width |
| Wav.PrefixFields | src/components/AudioConverter.tsx:142 | writing the samples after the header leaves every header field as it was |
| Wav.SampleAt | src/components/AudioConverter.tsx:153-158 | sample k decodes back from bytes 44 + 2k and 45 + 2k of the file |
| Wav.SamplesAfter | src/components/AudioConverter.tsx:142 | every sample decodes back from its position behind the header |
| Wav.EncodeWav | src/components/AudioConverter.tsx:122-145 | the buffer has 44 + 2n bytes with RIFF, WAVE, fmt and data tags at 0, 8, 12 and 36, RIFF size 36 + 2n, fmt size 16, format 1, mono, the sample rate, byte rate = rate × block align 2, 16 bits and data size 2n (32-bit fields modulo 2^32), and every sample decodes back from its position |
| Wav.ParseHeader | src/components/AudioConverter.tsx:122-145 | an accepted header is followed by exactly the announced number of samples |
| Wav.ParseEncodeWav | src/components/AudioConverter.tsx:122-145 | when the sizes fit in 32 bits, parsing the encoded buffer recovers the sample count and rate |
| Wav.SizeFields | src/components/AudioConverter.tsx:128-139 | when the sizes fit, the RIFF size field is the buffer length minus 8 and the data size field the buffer length minus 44 |
| Blocks.FractionStrictlyIncreasing | src/components/AudioConverter.tsx:85 | later block offsets report strictly larger fractions |
| Blocks.FractionBelowOne | src/components/AudioConverter.tsx:85 | a block offset inside the stream reports a fraction in [0, 1) |
| Blocks.ReportBoundary | src/components/AudioConverter.tsx:82 | the offset of block c is a multiple of 11520 exactly when c is a multiple of 10 |
| Blocks.ReportCountStep | src/components/AudioConverter.tsx:82 | one more block adds a report exactly when its number is a multiple of 10 |
| Blocks.BlockCountExact | src/components/AudioConverter.tsx:74 | the loop's block count is the stream length divided by 1152, rounded up |
| Blocks.ReportStep | src/components/AudioConverter.tsx:82-88 | a block at a report boundary adds one report, posted at its offset, and any other block adds none |
| Blocks.FlattenBlocks | src/components/AudioConverter.tsx:74-75 | the first m blocks joined are the samples up to offset 1152·m, or all of them |
| Blocks.BlockSizes | src/components/AudioConverter.tsx:75 | every block is non-empty and at most 1152 long, and all but the last are full |
| Blocks.ReportsInOrder | src/components/AudioConverter.tsx:82-88 | reports at block offsets inside the stream are fractions in [0, 1), strictly increasing |
| Blocks.EncodeBlocks | src/components/AudioConverter.tsx:73-90 | chunk k is exactly samples k·1152 up to k·1152 + 1152 (clamped), and the chunks concatenate back to the samples; there are ceil(len/1152) of them, all of 1152 samples except a shorter non-empty last one; one report per ten blocks, the k-th being the offset of block 10k over the length, in [0, 1) and strictly increasing |
| FileNames.ExtensionUnique | src/components/AudioConverter.tsx:211 | a name has at most one position where the trailing-extension pattern matches |
| FileNames.ScanForDot | src/components/AudioConverter.tsx:211 | the backwards scan finds the extension's dot or shows that no match starts at or before the scan position |
| FileNames.FindExtension | src/components/AudioConverter.tsx:211 | the search succeeds exactly when the name ends in a dot followed by one or more characters other than '.' and '/', and then returns that dot's position |
| FileNames.StripExtension | src/components/AudioConverter.tsx:211 | the result is a prefix of the name; it is the whole name exactly when the pattern does not match, and otherwise what precedes the matched dot |
| FileNames.StripWithoutExtension | src/components/AudioConverter.tsx:211 | a name without dots is kept as it is |
| FileNames.OutputName | src/components/AudioConverter.tsx:209-213 | when the original name (audio_<index> if the name is empty) has no match of the extension pattern, the new name is the whole original name, a dot and the format's extension; when the pattern matches at a dot, the new name is what precedes that dot, a dot and the extension |
| FileNames.OriginalName | src/components/AudioConverter.tsx:209 | a non-empty name is kept; an empty one becomes "audio_" followed by digits that read back as the index; the result is never empty |
| FileNames.StripAtMatch | src/components/AudioConverter.tsx:211 | where the pattern matches at a dot, stripping keeps exactly what precedes that dot |
| FileNames.OutputNameRoundTrip | src/components/AudioConverter.tsx:209-213 | the new name's extension is found right after the base, and stripping it gives back the base |
| FileNames.FallbackName | src/components/AudioConverter.tsx:209 | an unnamed file becomes audio_<index>.<format> |
| FileNames.FallbackNamesInjective | src/components/AudioConverter.tsx:209 | distinct indices of unnamed files give distinct output names |
| Decimal.NatToString | src/components/AudioConverter.tsx:209 | the decimal form of a count is non-empty, all digits and without leading zeros, starts with '0' exactly for 0, and has one digit exactly below 10 |
| Decimal.ParseNatToString | src/components/AudioConverter.tsx:209 | reading the decimal form back gives the number |
| Decimal.NatToStringInjective | src/components/AudioConverter.tsx:209 | different numbers have different decimal forms |
| Decimal.IntToString | src/components/AudioConverter.tsx:404 | an integer's text starts with '-' exactly when it is negative; the digits are without leading zeros, are never "-0", and read back as its magnitude |
| Theme.CurrentTheme | src/utils/theme-utils.js:8-15 | dark only with a window; with a stored value, dark exactly when it is "dark"; with nothing stored, dark exactly when the system prefers dark |
| Theme.NoWindowIsLight | src/utils/theme-utils.js:9 | without a window the theme is light, whatever is stored or preferred |
| Theme.StoredPreferenceWins | src/utils/theme-utils.js:8-15 | with a stored value, the theme is dark exactly when that value is "dark", whatever the system prefers |
| Theme.SystemPreferenceFallback | src/utils/theme-utils.js:8-15 | with nothing stored, the theme follows the system preference |
| Theme.SetTheme | src/utils/theme-utils.js:39-46 | with a window, the stored value becomes non-empty and the theme resolves to the requested mode whatever the system prefers; without a window nothing changes |
| Theme.ToggleTheme | src/utils/theme-utils.js:57-60 | with a window the resolved theme flips; without one nothing changes |
| Theme.ToggleTwice | src/utils/theme-utils.js:57-60 | two toggles give back the original resolved theme |
| Theme.InitializeTheme | src/utils/theme-utils.js:93-105 | the resolved theme never changes; with a window a non-empty preference is stored afterwards; an already non-empty stored value is left alone |
| Theme.InitializeIdempotent | src/utils/theme-utils.js:93-105 | initializing twice is the same as initializing once |
| Theme.InitializedIgnoresSystem | src/utils/theme-utils.js:101-104 | after initialization the theme no longer depends on the system preference |
| Theme.ThemeClasses | src/utils/theme-utils.js:178-183 | the dark classes are returned exactly when the theme is dark and they are non-empty, the light classes otherwise |
| Theme.ToggleSwapsClasses | src/utils/theme-utils.js:178-183 | with a window and non-empty dark classes, toggling the theme swaps the classes a component gets |
| Theme.OnStorage | src/utils/theme-utils.js:70-74 | the callback fires exactly for the preference key, with true exactly when the new value is "dark" |
| Theme.StorageEventFollowsSetTheme | src/utils/theme-utils.js:70-74 | a preference written by another tab's setTheme is reported here as that tab's mode, which is also the theme this tab now resolves |
| Theme.StorageEventOnRemoval | src/utils/theme-utils.js:70-74 | a removed preference is reported as light even when the page would then resolve dark from the system preference |

## Left out

- Worker creation, termination and messaging are not modelled (`initializeWorkers`, Blob and object URLs, `postMessage`, `importScripts`). They are browser plumbing. A dispatch is the `Slot` a transition returns, and a reply is an `Event`.
- MP3 encoding is not modelled (lamejs's `encodeBuffer`/`flush`). It is a foreign library. `Blocks.EncodeBlocks` models only the chunking and progress reports that surround it.
- `floatTo16BitPCM` and the worker's float clamping and scaling are not modelled. They are floating-point numerics. The WAV encoder takes already-quantised 16-bit samples.
- `file.arrayBuffer`, `decodeAudioData` and `getChannelData` are not modelled. They are asynchronous I/O. Their outcome is either a dispatch (success) or a `Failed` event.
- Scheduler: events are applied one at a time, to the live state. React's batching of state updates, updater functions and the render closures are not modelled. The exception is the captured processed count, shown under Findings.
- SchedulerRuns.RunFinishes: a worker that never answers is not modelled. If `importScripts` of lamejs (line 55) or `encodeBuffer` fails inside the worker, the worker posts nothing and no `onerror` handler is set (lines 186-189). That file then stays in flight and the batch never ends. The lemma covers only runs that deliver a terminal event for every file.
- Scheduler: the `setInterval` timer and `Date.now` are not modelled. They are clock I/O. The elapsed seconds are a parameter of `Aggregates.EstimateRemaining`.
- `calculateConversionRate` is not modelled. It only formats a floating-point ratio with `toFixed(2)`.
- File selection (`handleFileChange`, drag and drop, `removeFile`) is not modelled. It only replaces the file list, which the model receives as the batch size.
- Rendering, download links and the audio player are not modelled. They are UI only.
- Aggregates.EstimateRemaining: JavaScript computes `elapsed / processed * remaining` in floating point before `Math.round`. The model rounds the exact rational value, halves up, so floating-point rounding error at exact halves is not modelled.
- Aggregates.AverageProgress: percentages are exact reals rather than IEEE doubles.
- Blocks.Fraction: the reported fraction `i / samples.length` is an exact real rather than an IEEE double.
- Scheduler.RecordProgress: percentages are exact reals rather than IEEE doubles.
- Scheduler.CompletedShare: the aggregate is an exact real rather than an IEEE double. In doubles `(6 + 1) / 100 * 100` is 7.000000000000001, slightly above the exact share, so the bound `totalProgress <= Share` and `Scheduler.ShareInSourceOrder` hold over exact reals only.
- Aggregates.DefaultWorkersOnSlider: how the range input displays an out-of-range value is not modelled. It is browser behaviour. The lemma only states when the default lies within the slider's bounds.
- Wav.EncodeWav: `sampleRate` is a natural number. A fractional or negative rate, which the uint32 conversion would also truncate or wrap, is not modelled.
- `applyTheme`'s DOM class and style writes are not modelled. They are UI only. The `theme-change` custom event is not modelled either, because its callback receives exactly the mode passed to `setTheme`.
- `useTheme` and the listener registration and removal in `onThemeChange` are not modelled. They are framework and event plumbing. Only the `storage` handler's key filter is modelled (`Theme.OnStorage`).
- The `themeClasses` constant table is not modelled. It holds data, not behaviour.
- `src/components/common/Footer.tsx` is not modelled. It is static markup.
- `astro.config.mjs` is not modelled. It is build configuration.

## Findings

| source | as written | input that shows it | evidently intended | confidence | as-written member | corrected member |
|---|---|---|---|---|---|---|
| src/components/AudioConverter.tsx:224-244 | `worker.onmessage` is bound once per batch, to the handler of the render in which the batch was started (line 188). That handler reads `filesProcessed` as it was then, 0 for a first batch, both for the aggregate (line 228) and for the end test (line 238). The `catch` of `convertFile` reads the same captured count in its end test (line 322). | two files, two workers, both converted: the count reaches 2, but the end test computes 0 + 1 >= 2 and the batch stays converting with the aggregate stuck at 50 % | the batch ends when the live count reaches the number of files, and the aggregate follows the live count | high, not executed | SchedulerRuns.CompleteAsWritten, SchedulerRuns.StaleCountNeverFinishes, SchedulerRuns.FailAsWritten, SchedulerRuns.StaleCountFailuresNeverFinish | Scheduler.Complete, Scheduler.Fail, SchedulerRuns.CompleteReadsLiveCount, SchedulerRuns.FailReadsLiveCount, SchedulerRuns.RunFinishes |
