# Hardcoded subtitle extractor: a verified model of its core

The extractor samples a video every 500 ms. It runs OCR on each sampled frame and
keeps the frames whose recognised text is non-empty. It then groups consecutive
entries with similar text into timed subtitles and writes them as a SubRip (`.srt`)
file. This project models that pipeline in Dafny and proves properties about it:

- `selection.dfy` (module `Selection`): an order-preserving filter-and-map. The OCR
  detection filter and the frame loop's entry collection both use it. Lemmas say
  which positions it keeps and in what order.
- `cues.dfy` (module `Cues`): the two record types of the pipeline. An `Entry` is
  a timestamp plus text. A `Sub` is a start, an end and text.
- `ocr.dfy` (module `Ocr`): the post-processing of `ocr_frame_easyocr`. It keeps
  detections with confidence strictly above 0.4, strips each text with Python's
  `str.strip` (the characters for which `str.isspace` holds), and joins the
  pieces with single spaces. `Strip` skips leading whitespace and then cuts
  trailing whitespace, both by position.
  `OcrFrameText` is the loop; `Join(Kept(...))` is its specification.
- `srt_writer.dfy` (module `SrtWriter`): `srt_time` works on an integer
  millisecond count. It splits the count into clock fields by div/mod and renders
  them as `HH:MM:SS,mmm`; a parser for that layout gives a round trip. `write_srt`
  is the loop `WriteSrt`, which accumulates into a string. It is proved equal to
  the recursive renderer `Render`.
- `grouping.dfy` (module `Grouping`): the grouping pass of `extract_subtitles`.
  - `GroupEntries` is the loop over `current_text`, `start_time` and `last_time`.
    `Scan` gives the loop's state after each prefix of the entries: the
    subtitles already closed and the one still open. `Group` closes the open
    one and is the loop's specification.
  - `Partition` is an independent, declarative account of a grouping: a cutting
    of the entries into consecutive runs.
    - Every later member of a run scores above 80 against the run's first text.
    - Every new run's first entry scores at most 80 against the previous run's
      first text.
    - Each subtitle spans its run, padded by 500 ms.
  - `Group` satisfies `Partition` (`GroupIsPartition`), and it is the only
    grouping that does (`PartitionUnique`).
- `extractor.dfy` (module `Extractor`): the frame loop with cancellation
  (`CollectEntries`) and the whole run (`ExtractSubtitles`).

Times are integer milliseconds throughout. The sampler's timestamps are
`frame_time_ms / 1000.0` with `frame_time_ms` a multiple of 500
(src/video_utils.py:13-21). The 0.5 s pad is therefore exactly 500 ms, and no
floating point is needed.

Several things outside the program become inputs:

- `fuzz.ratio` is a function parameter into the scores 0..100.
- The OCR engine is a function from an image to its detections.
- The cancel flag is an input `cancelFrom`: the 0-based frame position at whose
  boundary the flag is first seen set.
- The recognizer calls and the progress-bar values are returned as traces.

Facts about the code that the model keeps:

- The merge threshold is 80, and scores are computed on the raw texts. The code
  has no overlay blacklist, duplicate suppression or text normaliser.
- Two or more surviving detections that strip to nothing join to a blank string
  such as `" "`. That string is truthy, so the frame loop keeps it as an entry
  (`Ocr.FrameTextEmptyIff` states exactly when the frame text is empty).

## Model

| member | source | states |
|---|---|---|
| Ocr.Strip | src/ocr.py:23 | the stripped text is empty or starts and ends with a non-whitespace character |
| Ocr.StripMargins | src/ocr.py:23 | the stripped text is a contiguous slice of the input, and everything cut off before and after that slice is whitespace |
| Ocr.StripIdempotent | src/ocr.py:23 | stripping an already stripped text changes nothing |
| Ocr.JoinSeparators | src/ocr.py:25 | joining k ≥ 1 pieces adds exactly k - 1 characters, all of them spaces, to the pieces' own characters |
| Ocr.JoinEmptyIff | src/ocr.py:25 | the join is empty exactly when there are no pieces, or a single empty piece |
| Ocr.Kept | src/ocr.py:20-23 | no contract of its own: the `lines` list of the detection loop; `KeptExactly` and `LowConfidenceIgnored` specify it |
| Ocr.Join | src/ocr.py:25 | no contract of its own: `" ".join(lines)`; `JoinSeparators` and `JoinEmptyIff` specify it |
| Ocr.OcrFrameText | src/ocr.py:20-25 | the filter/strip/append loop followed by the join returns `Join(Kept(results))` |
| Ocr.KeptExactly | src/ocr.py:21-23 | the kept pieces are, in detection order, the stripped texts of exactly the detections with `prob > 0.4` |
| Ocr.LowConfidenceIgnored | src/ocr.py:21-23 | removing any detection with `prob <= 0.4` leaves the frame text unchanged |
| Ocr.FrameTextEmptyIff | src/ocr.py:20-25 | the frame text is `""` exactly when no detection survives, or the single survivor strips to `""` |
| SrtWriter.ShowNat | src/srt_writer.py:10 | the decimal rendering of a number is non-empty, all digits, with no leading zero |
| SrtWriter.ParseShowNat | src/srt_writer.py:10 | reading a rendered number back gives the number |
| SrtWriter.ShowNatWidth | src/srt_writer.py:10 | numbers below 10, 100 and 1000 take at most 1, 2 and 3 digits |
| SrtWriter.ZeroPad | src/srt_writer.py:10 | `{n:0w}` is all digits, of length max(w, digits of n) |
| SrtWriter.ParseZeroPad | src/srt_writer.py:10 | reading a zero-padded number back gives the number |
| SrtWriter.Fields | src/srt_writer.py:6-9 | the clock fields recombine to the count (`Total`: `h*3600000 + m*60000 + s*1000 + ms == total_ms`), with `m, s < 60` and `ms < 1000` |
| SrtWriter.SrtTime | src/srt_writer.py:3-10 | no contract of its own: the clock fields of `Fields` rendered as `{h:02}:{m:02}:{s:02},{ms:03}`; `SrtTimeLayout`, `SrtTimeLength` and `SrtTimeRoundTrip` specify it |
| SrtWriter.SrtTimeLayout | src/srt_writer.py:10 | the time is at least 2 hour digits, `:`, 2 minute digits, `:`, 2 second digits, `,`, 3 millisecond digits, each field showing its clock value |
| SrtWriter.SrtTimeLength | src/srt_writer.py:10 | below 100 hours the time string has length 12 |
| SrtWriter.SrtTimeRoundTrip | src/srt_writer.py:6-10 | parsing the four fields of `srt_time(t)` and recombining them gives back `t` |
| SrtWriter.Block | src/srt_writer.py:17-20 | no contract of its own: the three writes for subtitle i (index line, time line, text and blank line); `BlockAt` locates each block in the output |
| SrtWriter.Render | src/srt_writer.py:16-20 | no contract of its own: the blocks of all subtitles numbered from 1 in order; `WriteSrt`, `RenderPrefix`, `BlockAt` and `RenderLength` specify it |
| SrtWriter.WriteSrt | src/srt_writer.py:16-20 | the block-writing loop produces exactly `Render(subs)` |
| SrtWriter.RenderPrefix | src/srt_writer.py:17-20 | rendering a prefix of the subtitles gives a prefix of the full rendering |
| SrtWriter.BlockAt | src/srt_writer.py:17-20 | for each i, the rendering holds block i + 1, `"{i+1}\n" + start + " --> " + end + "\n" + text + "\n\n"`, right after the rendering of the first i subtitles |
| SrtWriter.RenderLength | src/srt_writer.py:16-20 | the rendering is as long as its blocks together, and it is empty exactly when there are no subtitles |
| Grouping.Scan | src/gui.py:96-109 | the loop's state after a non-empty prefix of the entries (closed subtitles and the open one); fewer closed subtitles than entries seen. `GroupEntries` keeps its variables equal to it |
| Grouping.Group | src/gui.py:96-110 | there are no subtitles exactly when there are no entries, and never more subtitles than entries |
| Grouping.GroupEnds | src/gui.py:97-110 | for non-empty entries, the first subtitle starts at the first entry's time and the last one ends 500 ms after the last entry's time |
| Grouping.GroupEntries | src/gui.py:96-110 | the loop over `current_text`, `start_time`, `last_time` and its final append compute `Group(entries)`; after each turn its variables hold the `Scan` state of the entries seen so far |
| Grouping.GroupIsPartition | src/gui.py:101-110 | the subtitles cut the entries into consecutive runs, one subtitle per run. Each subtitle spans its first member's time to its last member's time plus 500 ms and carries its first member's text. Members score above 80 against that text; each new run's first entry scores at most 80 against the previous run's text |
| Grouping.PartitionUnique | src/gui.py:101-110 | any cutting into runs that obeys those merge and break rules is the one the pass computes, so the subtitle count is one plus the number of breaks |
| Grouping.GroupFromEntries | src/gui.py:98-108 | every subtitle starts at the timestamp of some entry and carries that entry's text |
| Grouping.GroupTiming | src/gui.py:100-110 | with non-decreasing timestamps: each subtitle ends after it starts; starts never go backwards; a subtitle ends at most 500 ms after the next one starts |
| Grouping.MergeThenBreak | src/gui.py:101-110 | two similar entries then a dissimilar one give one subtitle padded past its second member, then one for the third |
| Extractor.FrameText | src/gui.py:83 | no contract of its own: the recognizer's detections post-processed by `Ocr.Join(Ocr.Kept(...))`, as `OcrFrameText` computes |
| Extractor.Entries | src/gui.py:83-85 | no contract of its own: the entries of the frames with non-empty text; `EntriesExactly` and `EntriesNonEmpty` specify it |
| Extractor.CollectEntries | src/gui.py:78-90 | with cancellation first seen before frame `cancelFrom`, the loop processes `min(cancelFrom, len(frames))` frames. It calls OCR on exactly those, in order, sets progress to 1, 2, … once per processed frame, and returns the entries of exactly those frames |
| Extractor.ExtractSubtitles | src/gui.py:78-110 | the subtitles are the grouping of the processed frames' entries; there are at most as many as processed frames; the recognizer is called on frames 0, 1, … and progress is set to 1, 2, … once per processed frame. For frames sampled every 500 ms, every subtitle ends after it starts and the starts strictly increase |
| Extractor.CancelIsTruncation | src/gui.py:79-89 | a run cancelled before frame k yields the same subtitles, recognizer calls and progress values as an uncancelled run on the first k frames: the grouping of those frames' entries, calls on frames 0 .. k - 1, progress 1 .. k |
| Extractor.EntriesExactly | src/gui.py:79-86 | the entries are, in frame order, exactly the `(timestamp, text)` pairs of the frames whose OCR text is non-empty |
| Extractor.EntriesNonEmpty | src/gui.py:84-85 | every entry carries non-empty text |
| Extractor.SampledEntriesIncrease | src/gui.py:79-85 | for frames taken at 0, 500, 1000, … ms, entry timestamps strictly increase |
| Extractor.StartsIncrease | src/gui.py:101-110 | with strictly increasing entry timestamps, subtitle starts strictly increase |

## Left out

- The Qt user interface is not modelled. This covers widgets, layout, file
  dialogs, `log_area` messages, enabling the cancel button,
  `QApplication.processEvents`, `run_app` and `select_video`.
- The "no video selected" early return of `extract_subtitles` is not modelled.
  It only writes a log line.
- The save dialog and the choice not to save (src/gui.py:112-120) are not
  modelled. `WriteSrt` is what is written when a path is chosen.
- The cancel flag is set by a button event during `processEvents`, which is UI
  concurrency. It is modelled only as the frame position where the flag is first
  seen set.
- `rapidfuzz.fuzz.ratio` is a foreign library. It is a parameter bounded to
  0..100, and its edit-distance internals are not specified.
- The EasyOCR reader, torch device selection and `reader.readtext` are foreign ML
  calls. The detection list is a parameter.
- The region-of-interest crop of `ocr_frame_easyocr` is float arithmetic on an
  opaque image and is not modelled.
- The bounding box of each detection is not modelled, because it is never used.
- Ocr.Confident: `prob` is an exact real, and 0.4 is exactly two fifths rather
  than the nearest binary double. A detection scored at exactly that double could
  be classified differently.
- `extract_frames` is not modelled: OpenCV capture, seek, read and release, and
  its `FileNotFoundError`. Frames are an input. `Extractor.Sampled` records its
  one relevant fact: frame k is taken at k × 500 ms.
- SrtWriter.SrtTime: the `timedelta`/float to milliseconds conversion in
  `srt_time` is floating point, so the model starts from a non-negative integer
  millisecond count. Negative times never arise from the sampler.
- SrtWriter.WriteSrt: opening the file and writing to it are I/O, so the model
  returns the text that would be written.
- Grouping.Ratio: `fuzz.ratio` returns a float in 0..100; the score is modelled
  as an integer in 0..100. Only the test `> 80` reads it, so every merge and
  break pattern remains possible.
- A failure inside the recognizer (`reader.readtext` raising) is not modelled:
  nothing at src/gui.py:83 catches it, so the run would end without subtitles.
  The model's recognizer is a total function.
