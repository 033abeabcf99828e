/** The SubRip writer (src/srt_writer.py): `srt_time` turns a millisecond count
    into `HH:MM:SS,mmm`, and `write_srt` renders one numbered block per subtitle.
    Times enter as whole milliseconds; the float-to-millisecond conversion and the
    file handle are outside the model, so rendering produces a string. */
module SrtWriter {
  import opened SeqFacts
  import opened Cues

  datatype Option<T> = None | Some(value: T)

  const MsPerHour: nat := 3600000
  const MsPerMinute: nat := 60000
  const MsPerSecond: nat := 1000

  // ---------------------------------------------------------------- decimal digits

  predicate IsDigit(c: char)
  {
    '0' <= c <= '9'
  }

  predicate AllDigits(s: string)
  {
    forall k :: 0 <= k < |s| ==> IsDigit(s[k])
  }

  function DigitChar(d: nat): (c: char)
    requires d < 10
    ensures IsDigit(c)
  {
    (('0' as int) + d) as char
  }

  function DigitValue(c: char): (d: nat)
    requires IsDigit(c)
    ensures d < 10 && DigitChar(d) == c
  {
    (c as int) - ('0' as int)
  }

  /** `str(n)`: the decimal digits of `n`, most significant first, no leading zero. */
  function ShowNat(n: nat): (r: string)
    ensures 1 <= |r| && AllDigits(r)
    ensures |r| > 1 ==> r[0] != '0'
    decreases n
  {
    if n < 10 then [DigitChar(n)] else ShowNat(n / 10) + [DigitChar(n % 10)]
  }

  /** The number a string of decimal digits denotes (leading zeros allowed). */
  function ParseNat(s: string): nat
    requires AllDigits(s)
    decreases |s|
  {
    if s == [] then 0 else ParseNat(s[..|s| - 1]) * 10 + DigitValue(s[|s| - 1])
  }

  lemma {:induction false} ParseShowNat(n: nat)
    ensures ParseNat(ShowNat(n)) == n
    decreases n
  {
    if n >= 10 {
      var r := ShowNat(n);
      assert r[..|r| - 1] == ShowNat(n / 10);
      ParseShowNat(n / 10);
    }
  }

  lemma ShowNatWidth(n: nat)
    ensures n < 10 ==> |ShowNat(n)| == 1
    ensures n < 100 ==> |ShowNat(n)| <= 2
    ensures n < 1000 ==> |ShowNat(n)| <= 3
  {
    if n >= 10 {
      assert |ShowNat(n)| == |ShowNat(n / 10)| + 1;
      if n < 1000 {
        assert |ShowNat(n / 10)| <= 2 by {
          if n / 10 >= 10 {
            assert |ShowNat(n / 10)| == |ShowNat(n / 100)| + 1;
          }
        }
      }
    }
  }

  function Zeros(k: nat): (r: string)
    ensures |r| == k && AllDigits(r)
    decreases k
  {
    if k == 0 then "" else Zeros(k - 1) + "0"
  }

  lemma {:induction false} ParseZeros(k: nat)
    ensures ParseNat(Zeros(k)) == 0
    decreases k
  {
    if k > 0 {
      assert Zeros(k)[..k - 1] == Zeros(k - 1);
      ParseZeros(k - 1);
    }
  }

  /** Leading zeros do not change the value of a digit string. */
  lemma {:induction false} ParseLeadingZeros(k: nat, s: string)
    requires AllDigits(s)
    ensures AllDigits(Zeros(k) + s) && ParseNat(Zeros(k) + s) == ParseNat(s)
    decreases |s|
  {
    if s == [] {
      assert Zeros(k) + s == Zeros(k);
      ParseZeros(k);
    } else {
      var z := Zeros(k) + s;
      assert z[..|z| - 1] == Zeros(k) + s[..|s| - 1];
      ParseLeadingZeros(k, s[..|s| - 1]);
    }
  }

  /** Python's `f"{n:0w}"` for a non-negative `n`: `str(n)` left-padded with zeros to width `w`. */
  function ZeroPad(n: nat, w: nat): (r: string)
    ensures AllDigits(r)
    ensures |r| == if |ShowNat(n)| < w then w else |ShowNat(n)|
  {
    var digits := ShowNat(n);
    if |digits| < w then Zeros(w - |digits|) + digits else digits
  }

  lemma ParseZeroPad(n: nat, w: nat)
    ensures ParseNat(ZeroPad(n, w)) == n
  {
    var digits := ShowNat(n);
    ParseShowNat(n);
    if |digits| < w {
      ParseLeadingZeros(w - |digits|, digits);
    }
  }

  // ---------------------------------------------------------------- srt_time

  /** The four fields of a time stamp. */
  datatype Clock = Clock(h: nat, m: nat, s: nat, ms: nat)

  /** The millisecond count a clock reading stands for. */
  function Total(c: Clock): nat
  {
    c.h * MsPerHour + c.m * MsPerMinute + c.s * MsPerSecond + c.ms
  }

  /** Lines 6-9: the div/mod decomposition of a millisecond count.  The fields
      recombine to the count and the minor fields stay in their ranges. */
  function Fields(totalMs: nat): (c: Clock)
    ensures Total(c) == totalMs
    ensures c.m < 60 && c.s < 60 && c.ms < 1000
  {
    var rest := totalMs % MsPerHour;
    assert totalMs % MsPerMinute == rest % MsPerMinute;
    Clock(totalMs / MsPerHour, rest / MsPerMinute, (totalMs % MsPerMinute) / MsPerSecond, totalMs % MsPerSecond)
  }

  /** `srt_time`: `HH:MM:SS,mmm` with the hours padded to at least two digits. */
  function SrtTime(totalMs: nat): string
  {
    var c := Fields(totalMs);
    ZeroPad(c.h, 2) + ":" + ZeroPad(c.m, 2) + ":" + ZeroPad(c.s, 2) + "," + ZeroPad(c.ms, 3)
  }

  /** Reads a time stamp back: everything before the last ten characters is the
      hour field, then `:MM:SS,mmm`. */
  function ParseSrtTime(t: string): (r: Option<nat>)
    ensures r.Some? ==> |t| >= 12 && t[|t| - 10] == ':' && t[|t| - 7] == ':' && t[|t| - 4] == ','
  {
    var n := |t|;
    if n >= 12 && t[n - 10] == ':' && t[n - 7] == ':' && t[n - 4] == ','
       && AllDigits(t[..n - 10]) && AllDigits(t[n - 9..n - 7])
       && AllDigits(t[n - 6..n - 4]) && AllDigits(t[n - 3..])
    then
      Some(Total(Clock(ParseNat(t[..n - 10]), ParseNat(t[n - 9..n - 7]),
                       ParseNat(t[n - 6..n - 4]), ParseNat(t[n - 3..]))))
    else None
  }

  /** The shape of the output: two-digit minutes and seconds, three-digit
      milliseconds, at least two hour digits, and every field showing the value
      of the corresponding clock field. */
  lemma SrtTimeLayout(totalMs: nat)
    ensures var t, c := SrtTime(totalMs), Fields(totalMs);
      |t| >= 12 &&
      t[|t| - 10] == ':' && t[|t| - 7] == ':' && t[|t| - 4] == ',' &&
      t[..|t| - 10] == ZeroPad(c.h, 2) && |t[..|t| - 10]| >= 2 &&
      t[|t| - 9..|t| - 7] == ZeroPad(c.m, 2) &&
      t[|t| - 6..|t| - 4] == ZeroPad(c.s, 2) &&
      t[|t| - 3..] == ZeroPad(c.ms, 3)
  {
    var c := Fields(totalMs);
    ShowNatWidth(c.m);
    ShowNatWidth(c.s);
    ShowNatWidth(c.ms);
    FieldsLayout(ZeroPad(c.h, 2), ":", ZeroPad(c.m, 2), ":", ZeroPad(c.s, 2), ",", ZeroPad(c.ms, 3));
  }

  /** Where the parts of `hh + a + mm + b + ss + c + mmm` sit, counted from the end. */
  lemma FieldsLayout<T>(hh: seq<T>, a: seq<T>, mm: seq<T>, b: seq<T>, ss: seq<T>, c: seq<T>, mmm: seq<T>)
    requires |a| == 1 && |b| == 1 && |c| == 1 && |mm| == 2 && |ss| == 2 && |mmm| == 3
    ensures var t := hh + a + mm + b + ss + c + mmm; var n := |t|;
      n == |hh| + 10 &&
      t[n - 10] == a[0] && t[n - 7] == b[0] && t[n - 4] == c[0] &&
      t[..n - 10] == hh && t[n - 9..n - 7] == mm && t[n - 6..n - 4] == ss && t[n - 3..] == mmm
  {
    var t := hh + a + mm + b + ss + c + mmm;
    var n := |t|;
    assert t[..n - 10] == hh;
    assert t[n - 9..n - 7] == mm;
    assert t[n - 6..n - 4] == ss;
    assert t[n - 3..] == mmm;
  }

  /** The rendering is exactly twelve characters while the hour count stays below 100. */
  lemma SrtTimeLength(totalMs: nat)
    requires totalMs < 100 * MsPerHour
    ensures |SrtTime(totalMs)| == 12
  {
    var c := Fields(totalMs);
    ShowNatWidth(c.h);
    ShowNatWidth(c.m);
    ShowNatWidth(c.s);
    ShowNatWidth(c.ms);
  }

  /** Round trip: parsing the four digit fields and recombining them recovers the count. */
  lemma SrtTimeRoundTrip(totalMs: nat)
    ensures ParseSrtTime(SrtTime(totalMs)) == Some(totalMs)
  {
    SrtTimeLayout(totalMs);
    ParseLayout(SrtTime(totalMs), Fields(totalMs));
  }

  /** The parser reads back any clock laid out as `srt_time` lays it out. */
  lemma ParseLayout(t: string, c: Clock)
    requires |t| >= 12 && t[|t| - 10] == ':' && t[|t| - 7] == ':' && t[|t| - 4] == ','
    requires t[..|t| - 10] == ZeroPad(c.h, 2) && t[|t| - 9..|t| - 7] == ZeroPad(c.m, 2)
    requires t[|t| - 6..|t| - 4] == ZeroPad(c.s, 2) && t[|t| - 3..] == ZeroPad(c.ms, 3)
    ensures ParseSrtTime(t) == Some(Total(c))
  {
    ParseZeroPad(c.h, 2);
    ParseZeroPad(c.m, 2);
    ParseZeroPad(c.s, 2);
    ParseZeroPad(c.ms, 3);
  }

  // ---------------------------------------------------------------- write_srt

  /** One block of the file: index line, time line, text line, blank line. */
  function Block(index: nat, sub: Sub): string
  {
    ShowNat(index) + "\n" + SrtTime(sub.startMs) + " --> " + SrtTime(sub.endMs) + "\n" + sub.text + "\n\n"
  }

  /** The whole file: the blocks of `subs`, numbered from 1, in order. */
  function Render(subs: seq<Sub>): string
    decreases |subs|
  {
    if subs == [] then "" else Render(subs[..|subs| - 1]) + Block(|subs|, subs[|subs| - 1])
  }

  /** `write_srt` with the file replaced by the accumulated output (lines 16-20). */
  method WriteSrt(subs: seq<Sub>) returns (out: string)
    ensures out == Render(subs)
  {
    out := "";
    for i := 0 to |subs|
      invariant out == Render(subs[..i])
    {
      RenderSnoc(subs, i);
      out := out + Block(i + 1, subs[i]);
    }
    TakeAll(subs);
  }

  /** Rendering a prefix of the list gives a prefix of the rendering. */
  lemma {:induction false} RenderPrefix(subs: seq<Sub>, k: nat)
    requires k <= |subs|
    ensures Render(subs[..k]) <= Render(subs)
    decreases |subs| - k
  {
    if k < |subs| {
      RenderPrefix(subs, k + 1);
      RenderSnoc(subs, k);
      PrefixTrans(Render(subs[..k]), Block(k + 1, subs[k]), Render(subs));
    } else {
      TakeAll(subs);
    }
  }

  /** Block i of the output (counting from 0) carries index i + 1 and the times
      and text of subs[i]; it starts where the rendering of the first i subs ends. */
  lemma BlockAt(subs: seq<Sub>, i: nat)
    requires i < |subs|
    ensures var lo, hi := |Render(subs[..i])|, |Render(subs[..i + 1])|;
      lo <= hi <= |Render(subs)| && Render(subs)[lo..hi] == Block(i + 1, subs[i])
  {
    RenderPrefix(subs, i + 1);
    RenderSnoc(subs, i);
    InfixOfPrefix(Render(subs[..i]), Block(i + 1, subs[i]), Render(subs[..i + 1]), Render(subs));
  }

  /** One more subtitle adds its block at the end. */
  lemma RenderSnoc(subs: seq<Sub>, i: nat)
    requires i < |subs|
    ensures Render(subs[..i + 1]) == Render(subs[..i]) + Block(i + 1, subs[i])
  {
    TakeTake(subs, i + 1, i);
  }

  /** The rendering is the blocks 1..n laid end to end: its length is the sum of
      the block lengths, so an empty list renders to the empty string and every
      subtitle adds exactly one block. */
  lemma {:induction false} RenderLength(subs: seq<Sub>)
    ensures |Render(subs)| == BlocksLength(subs)
    ensures subs == [] <==> Render(subs) == ""
    decreases |subs|
  {
    if subs != [] {
      RenderLength(subs[..|subs| - 1]);
    }
  }

  function BlocksLength(subs: seq<Sub>): nat
    decreases |subs|
  {
    if subs == [] then 0 else BlocksLength(subs[..|subs| - 1]) + |Block(|subs|, subs[|subs| - 1])|
  }
}
