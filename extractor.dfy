/** The extraction run of `SubtitleExtractorApp.extract_subtitles` (src/gui.py,
    lines 64-110) without its widgets: walk the sampled frames in order, stop at
    the first frame boundary where the cancel flag is seen, keep the frames whose
    recognised text is non-empty, then group the kept entries into subtitles.

    The frame list, the recognizer and `fuzz.ratio` are parameters.  The cancel
    flag, which a button press sets while the loop yields to the event queue, is
    the input `cancelFrom`: the 0-based position of the first frame at whose
    boundary the flag reads true (positions at or past the end mean "never").
    The values written to the progress bar and the frames the recognizer is
    called on are returned as traces. */
module Extractor {
  import opened Cues
  import opened Selection
  import Ocr
  import Grouping

  /** `extract_frames(..., interval_ms=500)`: the sampling period. */
  const IntervalMs: nat := 500

  /** A sampled frame: its offset in milliseconds and its (opaque) image. */
  datatype Frame<Img> = Frame(timeMs: nat, image: Img)

  /** Frame k of `extract_frames` is taken at k times the interval. */
  ghost predicate Sampled<Img>(frames: seq<Frame<Img>>)
  {
    forall k :: 0 <= k < |frames| ==> frames[k].timeMs == k * IntervalMs
  }

  /** `ocr_frame_easyocr(frame)`: the recognizer's detections, post-processed. */
  function FrameText<Img>(detect: Img -> seq<Ocr.Detection>, img: Img): string
  {
    Ocr.Join(Ocr.Kept(detect(img)))
  }

  /** The frame loop's test (line 84): the frame's recognised text is non-empty. */
  function HasText<Img>(detect: Img -> seq<Ocr.Detection>): Frame<Img> -> bool
  {
    (fr: Frame<Img>) => FrameText(detect, fr.image) != ""
  }

  /** The entry the frame loop appends for a frame (line 85). */
  function ToEntry<Img>(detect: Img -> seq<Ocr.Detection>): Frame<Img> -> Entry
  {
    (fr: Frame<Img>) => Entry(fr.timeMs, FrameText(detect, fr.image))
  }

  /** The `entries` list of the frame loop when it runs over all of `frames`. */
  function Entries<Img>(frames: seq<Frame<Img>>, detect: Img -> seq<Ocr.Detection>): seq<Entry>
  {
    Select(frames, HasText(detect), ToEntry(detect))
  }

  /** The n consecutive numbers lo, lo + 1, ..., lo + n - 1. */
  function Range(lo: nat, n: nat): (r: seq<nat>)
    ensures |r| == n && forall i :: 0 <= i < n ==> r[i] == lo + i
    decreases n
  {
    if n == 0 then [] else Range(lo, n - 1) + [lo + n - 1]
  }

  function Min(a: nat, b: nat): nat
  {
    if a < b then a else b
  }

  /** The frame loop (lines 78-90).  It consumes the first Min(cancelFrom, |frames|)
      frames, calls the recognizer on exactly those, in order, sets the progress
      bar to 1, 2, ..., one value per consumed frame, and collects their entries. */
  method CollectEntries<Img>(frames: seq<Frame<Img>>, detect: Img -> seq<Ocr.Detection>, cancelFrom: nat)
    returns (entries: seq<Entry>, processed: nat, ocrCalls: seq<nat>, progress: seq<nat>)
    ensures processed == Min(cancelFrom, |frames|)
    ensures entries == Entries(frames[..processed], detect)
    ensures ocrCalls == Range(0, processed)
    ensures progress == Range(1, processed)
  {
    entries, ocrCalls, progress := [], [], [];
    var k := 0;
    while k < |frames|
      invariant k <= |frames| && k <= cancelFrom
      invariant entries == Entries(frames[..k], detect)
      invariant ocrCalls == Range(0, k)
      invariant progress == Range(1, k)
    {
      if cancelFrom <= k {
        break;
      }
      var text := Ocr.OcrFrameText(detect(frames[k].image));
      ocrCalls := ocrCalls + [k];
      SelectStep(frames, k, HasText(detect), ToEntry(detect));
      if text != "" {
        entries := entries + [Entry(frames[k].timeMs, text)];
      }
      progress := progress + [k + 1];
      k := k + 1;
    }
    processed := k;
  }

  /** The whole run: the frame loop, then the grouping pass (lines 78-110). */
  method ExtractSubtitles<Img>(frames: seq<Frame<Img>>, detect: Img -> seq<Ocr.Detection>,
                               ratio: Grouping.Ratio, cancelFrom: nat)
    returns (subs: seq<Sub>, processed: nat, ocrCalls: seq<nat>, progress: seq<nat>)
    ensures processed == Min(cancelFrom, |frames|)
    ensures subs == Grouping.Group(Entries(frames[..processed], detect), ratio)
    ensures |subs| <= processed
    ensures ocrCalls == Range(0, processed)
    ensures progress == Range(1, processed)
    ensures Sampled(frames) ==>
      (forall j :: 0 <= j < |subs| ==> subs[j].startMs < subs[j].endMs) &&
      (forall a, b :: 0 <= a < b < |subs| ==> subs[a].startMs < subs[b].startMs)
  {
    var entries;
    entries, processed, ocrCalls, progress := CollectEntries(frames, detect, cancelFrom);
    subs := Grouping.GroupEntries(entries, ratio);
    if Sampled(frames) {
      SampledEntriesIncrease(frames[..processed], detect);
      Grouping.GroupTiming(entries, ratio);
      StartsIncrease(entries, ratio);
    }
  }

  /** Cancelling before frame k gives the same subtitles, recognizer calls and
      progress values as an uncancelled run over the first k frames: the
      subtitles of the first k frames' entries, calls on frames 0 .. k - 1 and
      progress 1 .. k. */
  method CancelIsTruncation<Img>(frames: seq<Frame<Img>>, detect: Img -> seq<Ocr.Detection>,
                                 ratio: Grouping.Ratio, k: nat)
    returns (cancelled: seq<Sub>, truncated: seq<Sub>,
             cancelledCalls: seq<nat>, truncatedCalls: seq<nat>,
             cancelledProgress: seq<nat>, truncatedProgress: seq<nat>)
    requires k <= |frames|
    ensures cancelled == truncated == Grouping.Group(Entries(frames[..k], detect), ratio)
    ensures cancelledCalls == truncatedCalls == Range(0, k)
    ensures cancelledProgress == truncatedProgress == Range(1, k)
  {
    var p1, p2;
    cancelled, p1, cancelledCalls, cancelledProgress := ExtractSubtitles(frames, detect, ratio, k);
    truncated, p2, truncatedCalls, truncatedProgress := ExtractSubtitles(frames[..k], detect, ratio, |frames| + 1);
    assert frames[..k][..k] == frames[..k];
  }

  // ---------------------------------------------------------------- entries

  /** The entries are, in frame order, exactly the `(timestamp, text)` pairs of
      the frames whose recognised text is non-empty. */
  lemma EntriesExactly<Img>(frames: seq<Frame<Img>>, detect: Img -> seq<Ocr.Detection>)
    ensures var idx := Picked(frames, HasText(detect));
      |Entries(frames, detect)| == |idx| && Increasing(idx) &&
      (forall k :: 0 <= k < |idx| ==>
        Entries(frames, detect)[k] == Entry(frames[idx[k]].timeMs, FrameText(detect, frames[idx[k]].image))) &&
      (forall i :: 0 <= i < |frames| ==> (i in idx <==> FrameText(detect, frames[i].image) != ""))
  {
    SelectByPosition(frames, HasText(detect), ToEntry(detect));
  }

  /** Every entry carries non-empty text. */
  lemma EntriesNonEmpty<Img>(frames: seq<Frame<Img>>, detect: Img -> seq<Ocr.Detection>)
    ensures forall k :: 0 <= k < |Entries(frames, detect)| ==> Entries(frames, detect)[k].text != ""
  {
    EntriesExactly(frames, detect);
  }

  /** Entries of sampled frames have strictly increasing timestamps. */
  lemma SampledEntriesIncrease<Img>(frames: seq<Frame<Img>>, detect: Img -> seq<Ocr.Detection>)
    requires Sampled(frames)
    ensures var es := Entries(frames, detect);
      forall a, b :: 0 <= a < b < |es| ==> es[a].timeMs < es[b].timeMs
  {
    EntriesExactly(frames, detect);
    var es := Entries(frames, detect);
    var idx := Picked(frames, HasText(detect));
    forall a, b | 0 <= a < b < |es|
      ensures es[a].timeMs < es[b].timeMs
    {
      assert idx[a] < idx[b];
      assert es[a].timeMs == idx[a] * IntervalMs && es[b].timeMs == idx[b] * IntervalMs;
    }
  }

  /** With strictly increasing entry timestamps the subtitle starts strictly increase. */
  lemma StartsIncrease(es: seq<Entry>, ratio: Grouping.Ratio)
    requires forall a, b :: 0 <= a < b < |es| ==> es[a].timeMs < es[b].timeMs
    ensures var g := Grouping.Group(es, ratio);
      forall a, b :: 0 <= a < b < |g| ==> g[a].startMs < g[b].startMs
  {
    var g, o := Grouping.Group(es, ratio), Grouping.Opens(es, ratio);
    Grouping.GroupIsPartition(es, ratio);
    forall a, b | 0 <= a < b < |g|
      ensures g[a].startMs < g[b].startMs
    {
      assert g[a] == Grouping.RunSub(es, o, a) && g[b] == Grouping.RunSub(es, o, b);
      assert o[a] < o[b];
    }
  }
}
