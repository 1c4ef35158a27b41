# Square-wave timers and video-recorder decisions, in Dafny

This project models two pieces of the Station-Test-Patterns repository, which
draws a blinking, scrolling test-pattern video.

- **The square-wave timer registry** (`utils/timers.py`). `Square_Wave_Timer`
  maps a period to a `_Single_Square_Wave_Timer`, a two-level oscillator. The
  oscillator holds half its period, the deadline of its next flip, its level,
  and one-shot rising and falling edge flags. Each `update` flips the level at
  most once, and only when the time strictly passes the deadline. The
  deadline then moves half a period on from its previous value. The registry
  creates an oscillator the first time its period is queried, seeded at the
  last time it was told. Each `update` goes to every existing oscillator.
  Modules `Timers` and `TimersDemo` (`timers.dfy`, `timers_demo.dfy`).
- **The decision logic of `Video_Recorder`** (`utils/video_recorder.py`):
  - the constructor's timelapse checks and fields;
  - the codec-length check and encoding choice of `_figure_out_encoding`;
  - the enabled and timelapse gating in `write`;
  - in `find_valid_recording_parameters`, the extension reordering and the
    codec-major search for a working codec/extension pair.

  Modules `RecordingParameters` and `VideoRecorder`
  (`recording_parameters.dfy`, `video_recorder.dfy`). `Wrappers`
  (`wrappers.dfy`) holds `Option` and `Result`.

Times, periods and the timelapse counter are Dafny `real`s: exact arithmetic
stands in for Python floats. The test recording that decides whether a
codec/extension pair works is a parameter `probe: (string, string) -> bool`.
The OpenCV writer is reduced to a flag saying whether it has been created.

Three behaviours of the timer code shape the model:

- The code accepts any period. A period of zero or less is a precondition
  here.
- A query for a new period made before the registry's first `update` raises
  a `TypeError`, because `None + float` is evaluated at
  `utils/timers.py:91-93`. The model makes "the period already exists or the
  registry has a time" a precondition.
- Missed toggles are caught up, one per update. The deadline advances from
  its old value, so an update long after the deadline flips once and leaves
  the next deadline still in the past (`OvershootCatchesUpOnePerUpdate`).

## Model

| member | source | states |
|---|---|---|
| Timers.Step | utils/timers.py:62-78 | The level flips exactly when the time strictly exceeds the deadline, so equality does not flip. Rising holds exactly for a low-to-high change and falling exactly for high-to-low, so at most one edge is set and none without a flip. The deadline moves half a period from its old value only on a flip. |
| Timers.Create | utils/timers.py:54-60 | An oscillator created at time T has half-period period/2 and deadline T + period/2. It is low with no edge: the update made during construction never flips it. |
| Timers.Flips | utils/timers.py:71-76 | Over any sequence of updates, the level flips at most once per update. |
| Timers.RunOnSchedule | utils/timers.py:89-93 | After any updates, an oscillator that had flipped k times since `start` has flipped k + Flips times. Its deadline is the next half-period boundary of the grid that starts at `start`, never re-anchored to an update time. Its level is the parity of its flips. |
| Timers.CreatedOnSchedule | utils/timers.py:44-46 | An oscillator created by the registry at time T stays on the half-period grid that starts at T, whatever the later update times. |
| Timers.RunInStep | utils/timers.py:71-76 | If updates never go back in time and come at least every half-period, an oscillator whose last time lay in the half-period ending at its deadline keeps that property. It never falls behind. |
| Timers.FollowsIdealWave | utils/timers.py:62-78 | An oscillator created at `start` and updated at least every half-period follows the ideal square wave. After k flips the latest time lies in the k-th half-period after `start`, and the level is high exactly when k is odd. |
| Timers.OvershootCatchesUpOnePerUpdate | utils/timers.py:89-93 | Period 10, created at 0, updated at 12: one flip to high, next deadline 10 rather than 17. A second update at 12 flips it back low with deadline 15. |
| Timers.Read | utils/timers.py:80-87 | `is_high`, `is_rising` and `is_falling` of one oscillator return its level, rising flag and falling flag. |
| Timers.ReadAfterStep | utils/timers.py:62-87 | Right after an update, rising is reported exactly when a low oscillator passed its deadline and falling exactly when a high one did. The level is the old one, inverted exactly when the deadline was passed. A rising oscillator therefore reads high and a falling one low. |
| Timers.NewRegistry | utils/timers.py:22-24 | A new registry has no time and no oscillator, and it satisfies the registry invariant. |
| Timers.Update | utils/timers.py:26-30 | Records the time and updates every existing oscillator with it. It never adds or removes an entry. |
| Timers.CreateMissing | utils/timers.py:44-47 | Adds an oscillator for the period, created at the registry's time, only if the period has none. Every other entry and the time are left unchanged. |
| Timers.Ask | utils/timers.py:32-42 | Every query creates the oscillator if it is missing, then reads the asked level or edge from it. A query for an unseen period answers false for high, rising and falling alike. |
| Timers.AskIdempotent | utils/timers.py:32-47 | Once a query has created the entry, later queries for that period of any kind leave the registry unchanged. A repeated query returns the same answer. |
| Timers.AskValid | utils/timers.py:44-46 | Queries keep the registry invariant: every oscillator has half its key as half-period, and nothing exists before the first update. |
| Timers.ReplayIsRun | utils/timers.py:26-47 | Under any allowed mix of updates and queries, an oscillator already in the registry ends exactly as a lone oscillator given the same update times. Creating, querying or updating other periods never changes its level, edges or deadline. |
| TimersDemo.Demo | utils/timers.py:105-117 | The period-10 demo over t = 0..16: rising only at 6 and 16, falling only at 11, high for 6..10 and at 16, low otherwise. |
| RecordingParameters.StripDots | utils/video_recorder.py:247 | Removes every dot and keeps the count of every other character. A string without dots is returned unchanged. A single dot becomes empty, and any other single character is kept. |
| RecordingParameters.StripDotsAppend | utils/video_recorder.py:247 | Stripping a concatenation strips each part and joins the results. With the single-character case, this fixes the result: the characters that are not dots, in their original order. |
| RecordingParameters.RemoveFirst | utils/video_recorder.py:248-249 | Removing an element present in the list deletes exactly its first occurrence. Everything before it and everything after it is kept in order, so the list is one element shorter and one copy of the element is gone. |
| RecordingParameters.RemoveFirstSplices | utils/video_recorder.py:248-249 | Some position holds the element and no earlier position does, and the result is the list with exactly that position skipped. |
| RecordingParameters.RemoveFirstOfUnique | utils/video_recorder.py:248-249 | On a list that holds the element once, removing its first occurrence equals filtering it out, order kept. |
| RecordingParameters.ExtensionOrder | utils/video_recorder.py:244-250 | With no preference (absent or empty), the default list is used. With one, the dot-stripped preference comes first. The list grows by one only when that extension is not a default one. |
| RecordingParameters.ExtensionOrderPrefersFirst | utils/video_recorder.py:245-250 | A non-empty preferred extension, dots stripped, comes first and appears exactly once. The rest is the default list without it, in the default order. With no preference (absent or empty), the default list is used unchanged. |
| RecordingParameters.DotOnlyPreference | utils/video_recorder.py:245-250 | The preference test looks at the raw string, before dots are stripped. A preference made only of dots, such as ".", therefore puts the empty extension first, ahead of mp4, mkv and avi. |
| RecordingParameters.ExtensionOrderCoversDefaults | utils/video_recorder.py:242-250 | Each default extension is tried exactly once, whatever the preference. |
| RecordingParameters.PairsIndex | utils/video_recorder.py:266 | The candidate pairs are codec-major: codec i with extension j sits at position Offset(i, n) + j, where n is the number of extensions and `OffsetIsProduct` shows Offset(i, n) = i * n. |
| RecordingParameters.FirstWorking | utils/video_recorder.py:270-293 | The first pair the probe accepts: it works and every pair before it fails. No answer means no pair works. |
| RecordingParameters.ProbeInOrder | utils/video_recorder.py:270-293 | The probing loop stops at the first pair that works, having seen every earlier pair fail. It reports nothing only when all pairs fail. |
| RecordingParameters.Chosen | utils/video_recorder.py:266-298 | A pair is found exactly when some candidate pair works, and the pair found works. When none is found, codec and extension are both unset. |
| RecordingParameters.FindValidParameters | utils/video_recorder.py:238-298 | `ok` holds exactly when both a codec and an extension were found, and exactly when some candidate pair works. The returned pair works and is the first working pair in the order tried. |
| RecordingParameters.CodecMajorFirst | utils/video_recorder.py:241-293 | The search settles on codec i with extension j exactly when that pair works and every pair tried before it failed: all extensions of earlier codecs, and earlier extensions of codec i. |
| VideoRecorder.FigureOutEncoding | utils/video_recorder.py:166-201 | A disabled recorder is left alone. An explicit codec succeeds exactly when it has 4 characters, else `InvalidCodec`; the extension is the save path's without dots. With no codec, success holds exactly when some candidate pair works, and the first working pair is stored. Otherwise the error is `BadEncoding`. Nothing else changes. |
| VideoRecorder.New | utils/video_recorder.py:23-49 | A timelapse factor below 0.99999 fails with `TimelapseBelowOne`, and only then. An allowed factor gives exactly the result of choosing the encoding for the freshly set-up recorder. A disabled recorder with an allowed factor is always built. An enabled one with an explicit codec is built exactly when the codec has 4 characters. An enabled one without a codec is built exactly when some candidate pair works, and otherwise fails with `BadEncoding`. Timelapse is on exactly when factor - 1 > 0.01. The increment times max(1, factor) is 1, the counter starts at 1, and no writer has been created. |
| VideoRecorder.Write | utils/video_recorder.py:120-162 | A disabled recorder returns false and changes nothing. Without timelapse, every write returns true. With timelapse, the counter gains the increment and gives up 1 exactly when a frame is kept, and that happens exactly when the counter reaches 1. The counter then stays in [0, 1). A kept frame creates the writer if it does not exist yet. Nothing else changes. |
| VideoRecorder.FirstFrameKept | utils/video_recorder.py:138-147 | The first frame written to any enabled recorder that was built successfully is kept. |
| VideoRecorder.EveryFrameKept | utils/video_recorder.py:149-162 | Without timelapse, an enabled recorder keeps all n of n frames. |
| VideoRecorder.DisabledKeepsNothing | utils/video_recorder.py:134-136 | A disabled recorder keeps none of any number of frames and is left as it was. |
| VideoRecorder.TimelapseConserves | utils/video_recorder.py:139-147 | With timelapse on, the frames kept plus the final counter equal the starting counter plus n increments. The counter stays in [0, 1) after any write. |
| VideoRecorder.TimelapseFrameCount | utils/video_recorder.py:38-41 | Of n >= 1 frames written to a fresh timelapse recorder, exactly floor(1 + n * increment) are kept, which is floor(1 + n / factor). |

## Left out

- Path handling in `Video_Recorder`: `os.path.abspath`, `dirname`, `basename`, `splitext`, `join`, and rebuilding the save path. `FigureOutEncoding` and `New` take the save path's extension as an input instead.
- The OpenCV writer: `cv2.VideoWriter` creation and writes in `_create_video_writer` and `write`, and `os.makedirs`. They are I/O and are reduced to the `writerCreated` flag. Whether a created writer reports itself open (`isOpened`) is not modelled.
- The probe inside `find_valid_recording_parameters`: the temporary directory, the dummy frame from `np.random`, writing five frames, and the file-existence and 500-byte size checks. This is I/O and randomness, modelled by the `probe` parameter.
- `release`, with its file-size warning, and `is_open`, `get_save_path` and `get_codec`. They are I/O, or getters with no decision logic.
- IEEE float rounding, for example when `1/3` accumulates in the timelapse counter, and float equality of period keys. Exact `real` arithmetic is used throughout.
- Non-positive periods: the code does not check them. `Create`, `CreateMissing` and `Ask` require `period > 0`.
- Queries before the registry's first `update` for a period that has no oscillator yet: the code fails with a `TypeError`. `CreateMissing` and `Ask` require the time to be set.
- The second demo in `utils/timers.py` (2 s and 4 s timers, lines 119-129): its claim that the timers are independent is covered for all inputs by `ReplayIsRun`.
- `utils/frame_makers.py` and `create_cycle_mosaic_1.py`: frame drawing, noise, CLI parsing and the display loop. They only consume the timer and the recorder.
