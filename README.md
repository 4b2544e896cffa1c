# Speech-segment merging of the caption tool, in Dafny

The caption tool cuts the silent parts out of a video before it adds subtitles. A
silence detector reports the non-silent chunks of the soundtrack in milliseconds.
`detect_speech_segments` pads each chunk with some context before it and some pause
after it, converts it to seconds, and merges the padded ranges in one left-to-right pass
with a running `(current_start, current_end)` accumulator. `process_video` then fits the
merged ranges to the video: each end is clamped to the video's duration, and ranges that
start at or after the end, or are left empty, are dropped.

This project models those two loops and proves what they guarantee.

- `intervals.dfy` (module `Intervals`): chunks in whole milliseconds (`Chunk`) and
  ranges in seconds (`Span`). Seconds are exact rationals equal to ms / 1000. The file
  also holds the predicates the properties are stated with: ascending, separated,
  disjoint, covered.
- `speech_segments.dfy` (module `SpeechSegments`): padding (`Pad`), one loop iteration
  (`Step`), the loop as a left fold over prefixes (`Run`, `Merge`), and
  `DetectSpeechSegments`. That method runs the padding loop and the merge loop as
  written and is proved equal to `Merge`.
- `merge_properties.dfy` (module `MergeProperties`): count bounds, coverage, first and
  last endpoints, separation, and the exact split rule. It also gives the number of
  merged ranges in closed form, and proves that more padding never gives more ranges.
- `video_bounds.dfy` (module `VideoBounds`): the bounding loop (`BoundRanges`) against
  its specification (`Bounded`). It proves the bounds, the order-preserving sublist
  property, that separation survives, and an end-to-end statement for the whole path
  from detector chunks to the ranges the video is cut to.
- `presets.dfy` (module `Presets`): the four GUI presets and concrete runs of the merger
  under each. These cover the negative, zero and positive thresholds.

The detector's guarantee is a precondition of the lemmas, not of the code: every chunk
has `0 <= start < end`, and the chunks are sorted and do not overlap (`ValidChunks`).
All parameters are non-negative (`ValidParams`). The method itself accepts any input.

The threshold `min_silence_len - pause_ms - context_ms` is modelled as written, with
its sign. A zero or negative threshold does not make merging more permissive. Every
positive padded gap exceeds it, so the bridging branch at main.py:90-91 never runs, and
only padded ranges that overlap or touch are merged
(`NonPositiveThresholdSplitsEveryGap`, `NonPositivePresetsSplitEveryGap`). That branch
does run when the threshold is positive: for a raw gap wider than the total padding
and no wider than the silence length (`ShortGapBridged`).

## Model

| member | source | states |
|---|---|---|
| `SpeechSegments.Pad` | main.py:73-78 | A padded range starts at or after 0, contains the raw chunk, and is non-degenerate when the chunk is. |
| `SpeechSegments.Padded` | main.py:72-78 | One padded range per chunk, in order; none starts before 0, and each contains its chunk. |
| `SpeechSegments.Threshold` | main.py:87 | The residual silence is positive exactly when `min_silence_len > context_ms + pause_ms`, and never exceeds `min_silence_len`. |
| `SpeechSegments.Splits` | main.py:84-87 | A range closes the accumulator exactly when its gap in ms exceeds both 0 (no overlap, main.py:84) and the threshold (main.py:87). |
| `SpeechSegments.Extend` | main.py:84-91 | Absorbing a range without a split keeps `current_start`. The overlap branch (max of the ends) and the bridged-gap branch (the new end) give the same end for a proper range. |
| `SpeechSegments.Step` | main.py:84-91 | Without a split nothing is emitted and `current_start` stays. `current_end` never decreases. |
| `SpeechSegments.Run` | main.py:80-91 | The loop state after reading the padded ranges in order, seeded from the first; fewer ranges have been emitted than read. |
| `SpeechSegments.Flush` | main.py:92 | The final accumulator is always emitted, last, after everything emitted in the loop. |
| `SpeechSegments.Merge` | main.py:80-92 | No input gives no ranges; otherwise at least one and at most one per padded range. |
| `SpeechSegments.DetectSpeechSegments` | main.py:72-92 | The padding loop and the merge loop compute `Merge` of the padded chunks. The result is empty exactly when there are no chunks. |
| `MergeProperties.RunFirst` | main.py:82-92 | The first merged range starts at the first padded start, for any input. |
| `MergeProperties.RunCurrent` | main.py:82-91 | On ascending padded ranges, `current_end` equals the end of the last range read, and `current_start` is no later than its start. |
| `MergeProperties.RunWellFormed` | main.py:82-92 | Proper padded ranges give proper merged ranges (`start < end`). |
| `MergeProperties.RunSeparated` | main.py:84-89 | For any input, each merged range starts after the previous one ends, and the gap in ms exceeds `min_silence_len - pause_ms - context_ms`. |
| `MergeProperties.RunCovers` | main.py:82-92 | On ascending padded ranges, every padded range lies inside some merged range. |
| `MergeProperties.MergeGuarantees` | main.py:80-92 | On ascending padded ranges the output is proper, disjoint and separated, and covers every padded range. It starts at the first padded start and ends at the last padded end. |
| `MergeProperties.PaddedAscending` | main.py:72-78 | Padding the detector's sorted, non-overlapping chunks gives ranges with non-decreasing starts and ends. |
| `MergeProperties.SplitDecision` | main.py:74-87 | Chunk i opens a new range exactly when `start_i - end_{i-1} > max(min_silence_len, context_ms + pause_ms)`. The accumulator then ends at chunk i-1's padded end. A start clamped to zero never opens a range. |
| `MergeProperties.EmittedCount` | main.py:84-89 | After the first k of the detector's chunks, the loop has closed one range per raw gap among them exceeding `max(min_silence_len, context_ms + pause_ms)`. |
| `MergeProperties.MergedCount` | main.py:80-92 | The number of merged ranges is 1 plus the number of raw gaps exceeding `max(min_silence_len, context_ms + pause_ms)`. |
| `MergeProperties.GapsAntitone` | main.py:87 | A larger bound counts no more gaps. |
| `MergeProperties.MorePaddingNeverMoreRanges` | main.py:72-92 | More context or more pause, with the same silence length, never gives more merged ranges. |
| `MergeProperties.NoSpeechLost` | main.py:72-92 | Every raw chunk, in seconds, lies inside some merged range. |
| `MergeProperties.NonPositiveThresholdSplitsEveryGap` | main.py:87-89 | With a threshold of at most 0, a range splits exactly when it does not overlap or touch the accumulator. |
| `MergeProperties.ShortGapBridged` | main.py:84-91 | When the raw gap before chunk i is wider than `context_ms + pause_ms` and at most `min_silence_len`, the padded ranges do not overlap yet no range opens: the threshold is positive, and the accumulator keeps its start and takes chunk i's padded end. |
| `VideoBounds.Bounded` | main.py:218-225 | Every kept range starts before the duration, is proper, and ends no later than the duration. There are no more kept ranges than inputs. |
| `VideoBounds.Clamp` | main.py:220-222 | Clamping keeps the start, and the end becomes `min(end, duration)`. |
| `VideoBounds.Keeps` | main.py:220-224 | A range is kept exactly when it starts before the video ends and is proper. |
| `VideoBounds.BoundRanges` | main.py:218-225 | The bounding loop computes `Bounded`. |
| `VideoBounds.BoundedSublist` | main.py:218-225 | The output is exactly the kept ranges, at strictly increasing positions. Each keeps its start and has end `min(end, duration)`. |
| `VideoBounds.BoundedSeparated` | main.py:218-225 | Bounding proper, separated ranges leaves proper ranges that are still separated by more than the threshold. |
| `VideoBounds.BoundedStartsFrom` | main.py:218-225 | Bounding never moves a start. |
| `VideoBounds.BoundedCovers` | main.py:218-225 | A range covered before bounding that starts before the video ends stays covered once clamped to the video. |
| `VideoBounds.BoundingExample` | main.py:218-225 | For a 7.5 s video, a range crossing the end is cut to 7.5 s, and a range starting after it is dropped. |
| `VideoBounds.KeepRangesGuarantees` | main.py:210-225 | From detector chunks to cut list: ranges are proper, within `[0, duration]`, disjoint and separated, and cover every padded chunk (clamped) that starts before the end. |
| `Presets.PresetThresholds` | gui.py:157-176 | The thresholds of Default, Aggressive, Conservative and Smooth are -100, 0, 500 and -200. |
| `Presets.NonPositivePresetsSplitEveryGap` | gui.py:157-176 | Under Default, Aggressive and Smooth, every gap between padded ranges opens a new range. |
| `Presets.SingleChunkExample` | main.py:72-92 | Chunk (1000, 2000) ms under Default gives the single range (0.7, 2.5) s. |
| `Presets.ZeroClampExample` | main.py:74 | Chunk (100, 500) ms with 300 ms context pads to start 0, not -0.2 s. |
| `Presets.DefaultOverlapExample` | main.py:80-92 | Chunks (0, 1000) and (1200, 2000) under Default overlap after padding and merge into (0, 2.5). |
| `Presets.AggressiveZeroThresholdExample` | main.py:84-89 | With threshold 0, touching padded ranges merge, and a 1 ms padded gap splits. |
| `Presets.ConservativeBridgeExample` | main.py:87-91 | With threshold 500, a 500 ms padded gap is bridged, and a 501 ms gap splits. |
| `Presets.SmoothNegativeThresholdExample` | main.py:87-89 | With threshold -200, a 1 ms padded gap splits. |

## Left out

- Audio loading and `detect_nonsilent` (main.py:64-70): a foreign library. Their output is an input sequence, and its guarantee is the `ValidChunks` precondition of the lemmas.
- The silence level in dB (`silence_thresh`, and the dB value in each GUI preset): it only reaches the detector, so `Params` does not carry it.
- Floating point: `/1000` at main.py:78 and `* 1000` at main.py:87 are exact rational arithmetic here. IEEE rounding of those conversions is not modelled.
- `video.duration` is taken as an exact real parameter. Reading the video and writing audio (main.py:195-207) are I/O.
- Whisper transcription and the GPU/CPU fallback (main.py:97-140): model loading and foreign calls.
- Subtitle clips, subclip and concatenation, audio re-encoding and video writing (main.py:142-172, 231-280), and the ImageMagick lookup (main.py:15-51): rendering and I/O.
- ffmpeg parameter choice, temp-directory cleanup, the command line and timing (main.py:282-425): platform glue.
- Output-name derivation with `os.path.splitext` (main.py:191-193, gui.py:138-140): library path semantics.
- All of gui.py except the preset constants: widgets, the worker thread, process streaming and cancellation are GUI, concurrency and process control.
- Progress and warning messages (main.py:94, 221, 227-228): output only.
