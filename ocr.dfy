/** Post-processing of one frame's recognizer output (`ocr_frame_easyocr`):
    keep the confident detections, strip each text, join them with spaces.
    The recognizer itself is not modelled; its detections are the input. */
module Ocr {
  import opened Selection

  /** One recognizer result.  The bounding box is never read, so it is dropped. */
  datatype Detection = Detection(text: string, prob: real)

  /** A detection contributes only when its confidence is strictly above this. */
  const MinConfidence: real := 0.4

  /** The characters Python's `str.strip()` removes (those for which `isspace` holds). */
  const Whitespace: set<char> :=
    {' ', '\t', '\n', '\U{0B}', '\U{0C}', '\r', '\U{1C}', '\U{1D}', '\U{1E}', '\U{1F}',
     '\U{85}', '\U{A0}', '\U{1680}',
     '\U{2000}', '\U{2001}', '\U{2002}', '\U{2003}', '\U{2004}', '\U{2005}',
     '\U{2006}', '\U{2007}', '\U{2008}', '\U{2009}', '\U{200A}',
     '\U{2028}', '\U{2029}', '\U{202F}', '\U{205F}', '\U{3000}'}

  predicate IsSpace(c: char)
  {
    c in Whitespace
  }

  /** The first position at or after `i` that does not hold white space. */
  function SkipSpaces(s: string, i: nat): (j: nat)
    requires i <= |s|
    ensures i <= j <= |s|
    ensures j == |s| || !IsSpace(s[j])
    decreases |s| - i
  {
    if i < |s| && IsSpace(s[i]) then SkipSpaces(s, i + 1) else i
  }

  /** The end, at or after `lo`, of `s[lo..hi]` without its trailing white space. */
  function TrimEnd(s: string, lo: nat, hi: nat): (j: nat)
    requires lo <= hi <= |s|
    ensures lo <= j <= hi
    ensures j == lo || !IsSpace(s[j - 1])
    decreases hi - lo
  {
    if lo < hi && IsSpace(s[hi - 1]) then TrimEnd(s, lo, hi - 1) else hi
  }

  /** What SkipSpaces passes over is white space. */
  lemma {:induction false} SkipSpacesAll(s: string, i: nat)
    requires i <= |s|
    ensures forall k :: i <= k < SkipSpaces(s, i) ==> IsSpace(s[k])
    decreases |s| - i
  {
    if i < |s| && IsSpace(s[i]) {
      SkipSpacesAll(s, i + 1);
    }
  }

  /** What TrimEnd cuts off is white space. */
  lemma {:induction false} TrimEndAll(s: string, lo: nat, hi: nat)
    requires lo <= hi <= |s|
    ensures forall k :: TrimEnd(s, lo, hi) <= k < hi ==> IsSpace(s[k])
    decreases hi - lo
  {
    if lo < hi && IsSpace(s[hi - 1]) {
      TrimEndAll(s, lo, hi - 1);
    }
  }

  /** `text.strip()`: leading white space skipped, then trailing white space cut.
      The result is empty or begins and ends with a non-space character. */
  function Strip(s: string): (r: string)
    ensures r == [] || (!IsSpace(r[0]) && !IsSpace(r[|r| - 1]))
  {
    var i := SkipSpaces(s, 0);
    s[i..TrimEnd(s, i, |s|)]
  }

  /** The stripped text is a slice of `s`, and everything `Strip` removes, at
      either end, is white space. */
  lemma StripMargins(s: string)
    ensures var r, i := Strip(s), SkipSpaces(s, 0);
      i + |r| <= |s| && r == s[i..i + |r|] &&
      (forall k :: 0 <= k < i ==> IsSpace(s[k])) &&
      (forall k :: i + |r| <= k < |s| ==> IsSpace(s[k]))
  {
    var i := SkipSpaces(s, 0);
    SkipSpacesAll(s, 0);
    TrimEndAll(s, i, |s|);
  }

  /** Stripping twice is stripping once. */
  lemma StripIdempotent(s: string)
    ensures Strip(Strip(s)) == Strip(s)
  {
    var r := Strip(s);
    assert SkipSpaces(r, 0) == 0;
    assert TrimEnd(r, 0, |r|) == |r|;
  }

  /** `" ".join(pieces)`. */
  function Join(pieces: seq<string>): string
    decreases |pieces|
  {
    if |pieces| == 0 then ""
    else if |pieces| == 1 then pieces[0]
    else Join(pieces[..|pieces| - 1]) + " " + pieces[|pieces| - 1]
  }

  /** Total number of characters in `pieces`. */
  function TotalLength(pieces: seq<string>): nat
    decreases |pieces|
  {
    if pieces == [] then 0 else TotalLength(pieces[..|pieces| - 1]) + |pieces[|pieces| - 1]|
  }

  /** Number of occurrences of the separator ' ' in `s`. */
  function Spaces(s: string): nat
    decreases |s|
  {
    if s == [] then 0 else Spaces(s[..|s| - 1]) + (if s[|s| - 1] == ' ' then 1 else 0)
  }

  lemma {:induction false} SpacesAppend(a: string, b: string)
    ensures Spaces(a + b) == Spaces(a) + Spaces(b)
    decreases |b|
  {
    if b == [] {
      assert a + b == a;
    } else {
      assert (a + b)[..|a + b| - 1] == a + b[..|b| - 1];
      SpacesAppend(a, b[..|b| - 1]);
    }
  }

  /** Number of occurrences of ' ' in all of `pieces`. */
  function TotalSpaces(pieces: seq<string>): nat
    decreases |pieces|
  {
    if pieces == [] then 0 else TotalSpaces(pieces[..|pieces| - 1]) + Spaces(pieces[|pieces| - 1])
  }

  /** Joining k pieces inserts exactly k - 1 separators: the length and the
      number of spaces of the result exceed those of the pieces by k - 1. */
  lemma {:induction false} JoinSeparators(pieces: seq<string>)
    requires |pieces| > 0
    ensures |Join(pieces)| == TotalLength(pieces) + |pieces| - 1
    ensures Spaces(Join(pieces)) == TotalSpaces(pieces) + |pieces| - 1
    decreases |pieces|
  {
    if |pieces| == 1 {
      assert pieces[..0] == [];
    } else {
      var init := pieces[..|pieces| - 1];
      JoinSeparators(init);
      SpacesAppend(Join(init), " ");
      SpacesAppend(Join(init) + " ", pieces[|pieces| - 1]);
      assert Spaces(" ") == 1 by {
        assert " "[..0] == "";
      }
    }
  }

  /** The join is empty exactly when there are no pieces, or a single empty one. */
  lemma JoinEmptyIff(pieces: seq<string>)
    ensures Join(pieces) == "" <==> |pieces| == 0 || (|pieces| == 1 && pieces[0] == "")
  {
    if |pieces| > 1 {
      JoinSeparators(pieces);
    }
  }

  /** The detection filter of the loop: confidence strictly above the threshold. */
  predicate Confident(d: Detection)
  {
    d.prob > MinConfidence
  }

  /** What a surviving detection contributes: its stripped text. */
  function StrippedText(d: Detection): string
  {
    Strip(d.text)
  }

  /** The `lines` list built by the loop over the detections. */
  function Kept(dets: seq<Detection>): seq<string>
  {
    Select(dets, Confident, StrippedText)
  }

  /** Filter, strip and join one frame's detections (src/ocr.py, lines 20-25). */
  method OcrFrameText(results: seq<Detection>) returns (text: string)
    ensures text == Join(Kept(results))
  {
    var lines: seq<string> := [];
    for i := 0 to |results|
      invariant lines == Kept(results[..i])
    {
      var d := results[i];
      assert results[..i + 1][..i] == results[..i];
      if d.prob > MinConfidence {
        lines := lines + [Strip(d.text)];
      }
    }
    assert results[..|results|] == results;
    text := Join(lines);
  }

  /** The kept pieces are, in detection order, the stripped texts of exactly the
      detections whose confidence exceeds 0.4. */
  lemma KeptExactly(dets: seq<Detection>)
    ensures var idx := Picked(dets, Confident);
      |Kept(dets)| == |idx| && Increasing(idx) &&
      (forall k :: 0 <= k < |idx| ==> Kept(dets)[k] == Strip(dets[idx[k]].text)) &&
      (forall i :: 0 <= i < |dets| ==> (i in idx <==> dets[i].prob > MinConfidence))
  {
    SelectByPosition(dets, Confident, StrippedText);
  }

  /** Removing a detection whose confidence is at most 0.4 leaves the frame text unchanged. */
  lemma LowConfidenceIgnored(dets: seq<Detection>, i: nat)
    requires i < |dets| && dets[i].prob <= MinConfidence
    ensures Join(Kept(dets[..i] + dets[i + 1..])) == Join(Kept(dets))
  {
    DropRejected(dets, i, Confident, StrippedText);
  }

  /** The frame text is empty exactly when nothing survives the filter, or the
      single survivor strips to nothing; two blank survivors already join to " ". */
  lemma FrameTextEmptyIff(dets: seq<Detection>)
    ensures Join(Kept(dets)) == "" <==>
      |Kept(dets)| == 0 || (|Kept(dets)| == 1 && Kept(dets)[0] == "")
  {
    JoinEmptyIff(Kept(dets));
  }
}
