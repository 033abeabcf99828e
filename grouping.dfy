/** The grouping pass of `extract_subtitles` (src/gui.py, lines 95-110): walk the
    collected entries, merge an entry into the open subtitle while its text is
    similar enough to the text that OPENED the subtitle, otherwise close the open
    subtitle half a second after its last member and open a new one. */
module Grouping {
  import opened SeqFacts
  import opened Cues

  /** A similarity score as returned by `fuzz.ratio`. */
  type Score = x: int | 0 <= x <= 100

  /** `fuzz.ratio(current_text, text)`: left uninterpreted. */
  type Ratio = (string, string) -> Score

  /** An entry joins the open subtitle when its score is strictly above this. */
  const MergeThreshold: int := 80

  /** A closed subtitle ends this long after its last member (0.5 s). */
  const PadMs: nat := 500

  // ---------------------------------------------------------------- the pass

  /** The state of the loop after a non-empty prefix of the entries: the
      subtitles already closed and the one still open. */
  datatype Pass = Pass(closed: seq<Sub>, open: Sub)

  /** The loop state after the non-empty entries `es`: the first entry opens a
      subtitle; each later one either stretches the open subtitle (score above
      80 against its text) or closes it and opens its own. */
  function Scan(es: seq<Entry>, ratio: Ratio): (p: Pass)
    requires es != []
    ensures |p.closed| < |es|
    decreases |es|
  {
    if |es| == 1 then Pass([], Sub(es[0].timeMs, es[0].timeMs + PadMs, es[0].text))
    else
      var prev := Scan(es[..|es| - 1], ratio);
      var e := es[|es| - 1];
      if ratio(prev.open.text, e.text) > MergeThreshold then
        Pass(prev.closed, Sub(prev.open.startMs, e.timeMs + PadMs, prev.open.text))
      else
        Pass(prev.closed + [prev.open], Sub(e.timeMs, e.timeMs + PadMs, e.text))
  }

  /** The subtitle list after the entries `es` have been seen, with the still
      open subtitle closed: the loop's `subs` plus the final append. */
  function Group(es: seq<Entry>, ratio: Ratio): (r: seq<Sub>)
    ensures es == [] <==> r == []
    ensures |r| <= |es|
  {
    if es == [] then [] else Scan(es, ratio).closed + [Scan(es, ratio).open]
  }

  /** The grouping loop itself, with `current_text`, `start_time` and `last_time`
      as in the source. */
  method GroupEntries(entries: seq<Entry>, ratio: Ratio) returns (subs: seq<Sub>)
    ensures subs == Group(entries, ratio)
  {
    subs := [];
    if |entries| > 0 {
      var currentText := entries[0].text;
      var startTime: nat := entries[0].timeMs;
      var lastTime: nat := entries[0].timeMs;
      ScanFirst(entries, ratio);
      for i := 1 to |entries|
        invariant Pass(subs, Sub(startTime, lastTime + PadMs, currentText)) == Scan(entries[..i], ratio)
      {
        var t, text := entries[i].timeMs, entries[i].text;
        var similarity := ratio(currentText, text);
        if similarity > MergeThreshold {
          ScanStepMerge(entries, i, ratio);
          lastTime := t;
        } else {
          ScanStepBreak(entries, i, ratio);
          subs := subs + [Sub(startTime, lastTime + PadMs, currentText)];
          currentText := text;
          startTime := t;
          lastTime := t;
        }
      }
      TakeAll(entries);
      subs := subs + [Sub(startTime, lastTime + PadMs, currentText)];
    }
  }

  /** Before the loop: the state after the first entry. */
  lemma ScanFirst(entries: seq<Entry>, ratio: Ratio)
    requires |entries| >= 1
    ensures Scan(entries[..1], ratio) == Pass([], Sub(entries[0].timeMs, entries[0].timeMs + PadMs, entries[0].text))
  {
  }

  /** One turn of the loop is one step of Scan: a similar entry stretches the open subtitle... */
  lemma ScanStepMerge(entries: seq<Entry>, i: nat, ratio: Ratio)
    requires 1 <= i < |entries|
    requires ratio(Scan(entries[..i], ratio).open.text, entries[i].text) > MergeThreshold
    ensures var p, e := Scan(entries[..i], ratio), entries[i];
      Scan(entries[..i + 1], ratio) == Pass(p.closed, Sub(p.open.startMs, e.timeMs + PadMs, p.open.text))
  {
    var es := entries[..i + 1];
    TakeTake(entries, i + 1, i);
    assert es[..|es| - 1] == entries[..i] && es[|es| - 1] == entries[i];
  }

  /** ...and a dissimilar one closes it and opens a new one. */
  lemma ScanStepBreak(entries: seq<Entry>, i: nat, ratio: Ratio)
    requires 1 <= i < |entries|
    requires ratio(Scan(entries[..i], ratio).open.text, entries[i].text) <= MergeThreshold
    ensures var p, e := Scan(entries[..i], ratio), entries[i];
      Scan(entries[..i + 1], ratio) == Pass(p.closed + [p.open], Sub(e.timeMs, e.timeMs + PadMs, e.text))
  {
    var es := entries[..i + 1];
    TakeTake(entries, i + 1, i);
    assert es[..|es| - 1] == entries[..i] && es[|es| - 1] == entries[i];
  }

  // ---------------------------------------------------------------- what a grouping is

  /** Positions of the entries that open a subtitle: the first entry, then every
      entry scoring at most 80 against the text of the subtitle open before it. */
  ghost function Opens(es: seq<Entry>, ratio: Ratio): seq<nat>
    decreases |es|
  {
    if |es| == 0 then []
    else if |es| == 1 then [0]
    else
      var prev := Group(es[..|es| - 1], ratio);
      if ratio(prev[|prev| - 1].text, es[|es| - 1].text) > MergeThreshold then Opens(es[..|es| - 1], ratio)
      else Opens(es[..|es| - 1], ratio) + [|es| - 1]
  }

  /** `opens` cuts `n` entries into consecutive non-empty runs, the first at 0. */
  ghost predicate Cuts(opens: seq<nat>, n: nat)
  {
    (n == 0 <==> opens == []) &&
    (opens != [] ==> opens[0] == 0) &&
    (forall j :: 0 <= j < |opens| ==> opens[j] < n) &&
    (forall a, b :: 0 <= a < b < |opens| ==> opens[a] < opens[b])
  }

  /** One past the last entry of run j. */
  function RunEnd(opens: seq<nat>, j: nat, n: nat): nat
    requires j < |opens|
  {
    if j + 1 < |opens| then opens[j + 1] else n
  }

  /** The subtitle a run produces: from its first entry's time to its last
      entry's time plus the pad, with its first entry's text. */
  ghost function RunSub(es: seq<Entry>, opens: seq<nat>, j: nat): Sub
    requires Cuts(opens, |es|) && j < |opens|
  {
    Sub(es[opens[j]].timeMs, es[RunEnd(opens, j, |es|) - 1].timeMs + PadMs, es[opens[j]].text)
  }

  /** Every later member of a run scores above 80 against the run's first text. */
  ghost predicate MembersMerge(es: seq<Entry>, ratio: Ratio, opens: seq<nat>)
    requires Cuts(opens, |es|)
  {
    forall j, i :: 0 <= j < |opens| && opens[j] < i < RunEnd(opens, j, |es|) ==>
      ratio(es[opens[j]].text, es[i].text) > MergeThreshold
  }

  /** Every run but the first starts with an entry scoring at most 80 against
      the previous run's first text. */
  ghost predicate OpenersBreak(es: seq<Entry>, ratio: Ratio, opens: seq<nat>)
    requires Cuts(opens, |es|)
  {
    forall a, b :: 0 <= a && b == a + 1 && b < |opens| ==>
      ratio(es[opens[a]].text, es[opens[b]].text) <= MergeThreshold
  }

  /** `subs` is the grouping of `es` along the cuts `opens`. */
  ghost predicate Partition(es: seq<Entry>, ratio: Ratio, opens: seq<nat>, subs: seq<Sub>)
  {
    Cuts(opens, |es|) && |subs| == |opens| &&
    (forall j :: 0 <= j < |opens| ==> subs[j] == RunSub(es, opens, j)) &&
    MembersMerge(es, ratio, opens) && OpenersBreak(es, ratio, opens)
  }

  /** Cutting a prefix: cuts of n - 1 entries are cuts of n entries. */
  lemma CutsExtend(opens: seq<nat>, n: nat)
    requires n >= 2 && Cuts(opens, n - 1)
    ensures Cuts(opens, n)
  {
  }

  /** A run that ends before the last entry yields the same subtitle whether or
      not the last entry is present. */
  lemma RunSubPrefix(es: seq<Entry>, o: seq<nat>, j: nat)
    requires |es| >= 2 && Cuts(o, |es| - 1) && j + 1 < |o|
    ensures Cuts(o, |es|)
    ensures RunSub(es[..|es| - 1], o, j) == RunSub(es, o, j)
  {
    var end := o[j + 1];
    assert es[..|es| - 1][o[j]] == es[o[j]] && es[..|es| - 1][end - 1] == es[end - 1];
  }

  /** Opening a new run at the last entry leaves the earlier runs' subtitles alone. */
  lemma RunSubNewOpen(es: seq<Entry>, o: seq<nat>, j: nat)
    requires |es| >= 2 && Cuts(o, |es| - 1) && j < |o|
    ensures Cuts(o + [|es| - 1], |es|)
    ensures RunSub(es[..|es| - 1], o, j) == RunSub(es, o + [|es| - 1], j)
  {
    var n, o2 := |es|, o + [|es| - 1];
    var end := RunEnd(o, j, n - 1);
    assert RunEnd(o2, j, n) == end;
    assert es[..n - 1][o[j]] == es[o[j]] && es[..n - 1][end - 1] == es[end - 1];
  }

  /** Extending the entries by one that merges into the last run. */
  lemma MergeStep(es: seq<Entry>, ratio: Ratio, o: seq<nat>, g: seq<Sub>)
    requires |es| >= 2 && Partition(es[..|es| - 1], ratio, o, g)
    requires ratio(g[|g| - 1].text, es[|es| - 1].text) > MergeThreshold
    ensures Partition(es, ratio, o, g[..|g| - 1] + [Sub(g[|g| - 1].startMs, es[|es| - 1].timeMs + PadMs, g[|g| - 1].text)])
  {
    var n, k := |es|, |g|;
    CutsExtend(o, n);
    MergeSubs(es, o, g);
    assert g[k - 1] == RunSub(es[..n - 1], o, k - 1);
    MergeMembers(es, ratio, o);
    MergeOpeners(es, ratio, o);
  }

  lemma MergeSubs(es: seq<Entry>, o: seq<nat>, g: seq<Sub>)
    requires |es| >= 2 && Cuts(o, |es| - 1) && |g| == |o|
    requires forall j :: 0 <= j < |o| ==> g[j] == RunSub(es[..|es| - 1], o, j)
    ensures Cuts(o, |es|)
    ensures var g2 := g[..|g| - 1] + [Sub(g[|g| - 1].startMs, es[|es| - 1].timeMs + PadMs, g[|g| - 1].text)];
      forall j :: 0 <= j < |o| ==> g2[j] == RunSub(es, o, j)
  {
    var n, es', k := |es|, es[..|es| - 1], |g|;
    var g2 := g[..k - 1] + [Sub(g[k - 1].startMs, es[n - 1].timeMs + PadMs, g[k - 1].text)];
    CutsExtend(o, n);
    assert es'[o[k - 1]] == es[o[k - 1]];
    assert g[k - 1] == RunSub(es', o, k - 1);
    forall j | 0 <= j < |o|
      ensures g2[j] == RunSub(es, o, j)
    {
      if j < k - 1 {
        RunSubPrefix(es, o, j);
        assert g2[j] == g[j];
      } else {
        assert RunEnd(o, j, n) == n;
      }
    }
  }

  lemma MergeMembers(es: seq<Entry>, ratio: Ratio, o: seq<nat>)
    requires |es| >= 2 && Cuts(o, |es| - 1) && MembersMerge(es[..|es| - 1], ratio, o)
    requires ratio(es[o[|o| - 1]].text, es[|es| - 1].text) > MergeThreshold
    ensures Cuts(o, |es|) && MembersMerge(es, ratio, o)
  {
    var n, es' := |es|, es[..|es| - 1];
    CutsExtend(o, n);
    forall j, i | 0 <= j < |o| && o[j] < i < RunEnd(o, j, n)
      ensures ratio(es[o[j]].text, es[i].text) > MergeThreshold
    {
      assert es'[o[j]] == es[o[j]];
      if i < n - 1 {
        assert o[j] < i < RunEnd(o, j, n - 1);
        assert es'[i] == es[i];
      }
    }
  }

  lemma MergeOpeners(es: seq<Entry>, ratio: Ratio, o: seq<nat>)
    requires |es| >= 2 && Cuts(o, |es| - 1) && OpenersBreak(es[..|es| - 1], ratio, o)
    ensures Cuts(o, |es|) && OpenersBreak(es, ratio, o)
  {
    var n, es' := |es|, es[..|es| - 1];
    CutsExtend(o, n);
    forall a, b | 0 <= a && b == a + 1 && b < |o|
      ensures ratio(es[o[a]].text, es[o[b]].text) <= MergeThreshold
    {
      assert es'[o[a]] == es[o[a]] && es'[o[b]] == es[o[b]];
    }
  }

  /** Extending the entries by one that opens a new run. */
  lemma BreakStep(es: seq<Entry>, ratio: Ratio, o: seq<nat>, g: seq<Sub>)
    requires |es| >= 2 && Partition(es[..|es| - 1], ratio, o, g)
    requires ratio(g[|g| - 1].text, es[|es| - 1].text) <= MergeThreshold
    ensures Partition(es, ratio, o + [|es| - 1], g + [Sub(es[|es| - 1].timeMs, es[|es| - 1].timeMs + PadMs, es[|es| - 1].text)])
  {
    var n, k := |es|, |g|;
    BreakSubs(es, o, g);
    assert g[k - 1] == RunSub(es[..n - 1], o, k - 1);
    BreakMembers(es, ratio, o);
    BreakOpeners(es, ratio, o);
  }

  lemma BreakSubs(es: seq<Entry>, o: seq<nat>, g: seq<Sub>)
    requires |es| >= 2 && Cuts(o, |es| - 1) && |g| == |o|
    requires forall j :: 0 <= j < |o| ==> g[j] == RunSub(es[..|es| - 1], o, j)
    ensures Cuts(o + [|es| - 1], |es|)
    ensures var g2 := g + [Sub(es[|es| - 1].timeMs, es[|es| - 1].timeMs + PadMs, es[|es| - 1].text)];
      forall j :: 0 <= j < |o| + 1 ==> g2[j] == RunSub(es, o + [|es| - 1], j)
  {
    var n, k := |es|, |g|;
    var o2 := o + [n - 1];
    var g2 := g + [Sub(es[n - 1].timeMs, es[n - 1].timeMs + PadMs, es[n - 1].text)];
    RunSubNewOpen(es, o, 0);
    forall j | 0 <= j < |o2|
      ensures g2[j] == RunSub(es, o2, j)
    {
      if j < k {
        RunSubNewOpen(es, o, j);
        assert g2[j] == g[j];
      }
    }
  }

  lemma BreakMembers(es: seq<Entry>, ratio: Ratio, o: seq<nat>)
    requires |es| >= 2 && Cuts(o, |es| - 1) && MembersMerge(es[..|es| - 1], ratio, o)
    ensures Cuts(o + [|es| - 1], |es|) && MembersMerge(es, ratio, o + [|es| - 1])
  {
    var n, es', k := |es|, es[..|es| - 1], |o|;
    var o2 := o + [n - 1];
    RunSubNewOpen(es, o, 0);
    forall j, i | 0 <= j < |o2| && o2[j] < i < RunEnd(o2, j, n)
      ensures ratio(es[o2[j]].text, es[i].text) > MergeThreshold
    {
      assert j < k;
      assert o[j] < i < RunEnd(o, j, n - 1);
      assert es'[o[j]] == es[o[j]] && es'[i] == es[i];
    }
  }

  lemma BreakOpeners(es: seq<Entry>, ratio: Ratio, o: seq<nat>)
    requires |es| >= 2 && Cuts(o, |es| - 1) && OpenersBreak(es[..|es| - 1], ratio, o)
    requires ratio(es[o[|o| - 1]].text, es[|es| - 1].text) <= MergeThreshold
    ensures Cuts(o + [|es| - 1], |es|) && OpenersBreak(es, ratio, o + [|es| - 1])
  {
    var n, es', k := |es|, es[..|es| - 1], |o|;
    var o2 := o + [n - 1];
    RunSubNewOpen(es, o, 0);
    forall a, b | 0 <= a && b == a + 1 && b < |o2|
      ensures ratio(es[o2[a]].text, es[o2[b]].text) <= MergeThreshold
    {
      if b < k {
        assert es'[o[a]] == es[o[a]] && es'[o[b]] == es[o[b]];
      }
    }
  }

  /** The pass partitions the entries into consecutive runs: one subtitle per run,
      each from its first member's time to its last member's time plus 0.5 s,
      carrying the text of its first member; members merge, openers break. */
  lemma {:induction false} GroupIsPartition(es: seq<Entry>, ratio: Ratio)
    ensures Partition(es, ratio, Opens(es, ratio), Group(es, ratio))
    decreases |es|
  {
    var n := |es|;
    if n == 1 {
      assert Opens(es, ratio) == [0];
    } else if n > 1 {
      var es' := es[..n - 1];
      GroupIsPartition(es', ratio);
      var g := Group(es', ratio);
      if ratio(g[|g| - 1].text, es[n - 1].text) > MergeThreshold {
        GroupSnocMerge(es, ratio);
        MergeStep(es, ratio, Opens(es', ratio), g);
      } else {
        SplitLast(g);
        GroupSnocBreak(es, ratio, g[..|g| - 1], g[|g| - 1]);
        BreakStep(es, ratio, Opens(es', ratio), g);
      }
    }
  }

  /** Dropping the last entry when it opened a run of its own. */
  lemma ShrinkBreak(es: seq<Entry>, ratio: Ratio, o: seq<nat>, g: seq<Sub>)
    requires |es| >= 2 && Partition(es, ratio, o, g) && o[|o| - 1] == |es| - 1
    ensures |o| >= 2 && o == o[..|o| - 1] + [|es| - 1]
    ensures Partition(es[..|es| - 1], ratio, o[..|o| - 1], g[..|g| - 1])
  {
    ShrinkBreakSubs(es, o, g);
    ShrinkBreakRules(es, ratio, o);
  }

  lemma ShrinkBreakSubs(es: seq<Entry>, o: seq<nat>, g: seq<Sub>)
    requires |es| >= 2 && Cuts(o, |es|) && |g| == |o| && o[|o| - 1] == |es| - 1
    requires forall j :: 0 <= j < |o| ==> g[j] == RunSub(es, o, j)
    ensures |o| >= 2 && o == o[..|o| - 1] + [|es| - 1]
    ensures Cuts(o[..|o| - 1], |es| - 1)
    ensures var es', o', g' := es[..|es| - 1], o[..|o| - 1], g[..|g| - 1];
      forall j :: 0 <= j < |o'| ==> g'[j] == RunSub(es', o', j)
  {
    var n, k := |es|, |o|;
    var o', g' := o[..k - 1], g[..k - 1];
    assert o[k - 1] > 0 == o[0];
    SplitLast(o);
    assert Cuts(o', n - 1);
    forall j | 0 <= j < |o'|
      ensures g'[j] == RunSub(es[..n - 1], o', j)
    {
      RunSubNewOpen(es, o', j);
    }
  }

  lemma ShrinkBreakRules(es: seq<Entry>, ratio: Ratio, o: seq<nat>)
    requires |es| >= 2 && Cuts(o, |es|) && o[|o| - 1] == |es| - 1
    requires MembersMerge(es, ratio, o) && OpenersBreak(es, ratio, o)
    ensures |o| >= 2 && Cuts(o[..|o| - 1], |es| - 1)
    ensures MembersMerge(es[..|es| - 1], ratio, o[..|o| - 1])
    ensures OpenersBreak(es[..|es| - 1], ratio, o[..|o| - 1])
  {
    var n, es', k := |es|, es[..|es| - 1], |o|;
    var o' := o[..k - 1];
    assert o[k - 1] > 0 == o[0];
    assert Cuts(o', n - 1);
    forall j, i | 0 <= j < |o'| && o'[j] < i < RunEnd(o', j, n - 1)
      ensures ratio(es'[o'[j]].text, es'[i].text) > MergeThreshold
    {
      assert RunEnd(o, j, n) == RunEnd(o', j, n - 1);
      assert es'[o[j]] == es[o[j]] && es'[i] == es[i];
    }
    forall a, b | 0 <= a && b == a + 1 && b < |o'|
      ensures ratio(es'[o'[a]].text, es'[o'[b]].text) <= MergeThreshold
    {
      assert es'[o[a]] == es[o[a]] && es'[o[b]] == es[o[b]];
    }
  }

  /** Dropping the last entry when it had merged into the last run. */
  lemma ShrinkMerge(es: seq<Entry>, ratio: Ratio, o: seq<nat>, g: seq<Sub>)
    requires |es| >= 2 && Partition(es, ratio, o, g) && o[|o| - 1] < |es| - 1
    ensures Partition(es[..|es| - 1], ratio, o,
      g[..|g| - 1] + [Sub(g[|g| - 1].startMs, es[|es| - 2].timeMs + PadMs, g[|g| - 1].text)])
  {
    ShrinkMergeSubs(es, o, g);
    ShrinkMergeRules(es, ratio, o);
  }

  lemma ShrinkMergeSubs(es: seq<Entry>, o: seq<nat>, g: seq<Sub>)
    requires |es| >= 2 && Cuts(o, |es|) && |g| == |o| && o[|o| - 1] < |es| - 1
    requires forall j :: 0 <= j < |o| ==> g[j] == RunSub(es, o, j)
    ensures Cuts(o, |es| - 1)
    ensures var g' := g[..|g| - 1] + [Sub(g[|g| - 1].startMs, es[|es| - 2].timeMs + PadMs, g[|g| - 1].text)];
      forall j :: 0 <= j < |o| ==> g'[j] == RunSub(es[..|es| - 1], o, j)
  {
    var n, es', k := |es|, es[..|es| - 1], |o|;
    var g' := g[..k - 1] + [Sub(g[k - 1].startMs, es[n - 2].timeMs + PadMs, g[k - 1].text)];
    assert Cuts(o, n - 1);
    forall j | 0 <= j < |o|
      ensures g'[j] == RunSub(es', o, j)
    {
      if j < k - 1 {
        RunSubPrefix(es, o, j);
      } else {
        assert g[j] == RunSub(es, o, j);
        assert es'[o[j]] == es[o[j]] && es'[n - 2] == es[n - 2];
      }
    }
  }

  lemma ShrinkMergeRules(es: seq<Entry>, ratio: Ratio, o: seq<nat>)
    requires |es| >= 2 && Cuts(o, |es|) && o[|o| - 1] < |es| - 1
    requires MembersMerge(es, ratio, o) && OpenersBreak(es, ratio, o)
    ensures Cuts(o, |es| - 1)
    ensures MembersMerge(es[..|es| - 1], ratio, o) && OpenersBreak(es[..|es| - 1], ratio, o)
  {
    var n, es' := |es|, es[..|es| - 1];
    assert Cuts(o, n - 1);
    forall j, i | 0 <= j < |o| && o[j] < i < RunEnd(o, j, n - 1)
      ensures ratio(es'[o[j]].text, es'[i].text) > MergeThreshold
    {
      assert o[j] < i < RunEnd(o, j, n);
      assert es'[o[j]] == es[o[j]] && es'[i] == es[i];
    }
    forall a, b | 0 <= a && b == a + 1 && b < |o|
      ensures ratio(es'[o[a]].text, es'[o[b]].text) <= MergeThreshold
    {
      assert es'[o[a]] == es[o[a]] && es'[o[b]] == es[o[b]];
    }
  }

  /** One step of the pass, unfolded: a new run for a low score... */
  lemma GroupSnocBreak(es: seq<Entry>, ratio: Ratio, init: seq<Sub>, last: Sub)
    requires |es| >= 2 && Group(es[..|es| - 1], ratio) == init + [last]
    requires ratio(last.text, es[|es| - 1].text) <= MergeThreshold
    ensures Opens(es, ratio) == Opens(es[..|es| - 1], ratio) + [|es| - 1]
    ensures Group(es, ratio) == Group(es[..|es| - 1], ratio) + [Sub(es[|es| - 1].timeMs, es[|es| - 1].timeMs + PadMs, es[|es| - 1].text)]
  {
    var p := Scan(es[..|es| - 1], ratio);
    Snoc(p.closed, p.open);
    Snoc(init, last);
  }

  /** ...and a stretched last subtitle for a high one. */
  lemma GroupSnocMerge(es: seq<Entry>, ratio: Ratio)
    requires |es| >= 2
    requires var g := Group(es[..|es| - 1], ratio); ratio(g[|g| - 1].text, es[|es| - 1].text) > MergeThreshold
    ensures Opens(es, ratio) == Opens(es[..|es| - 1], ratio)
    ensures var g := Group(es[..|es| - 1], ratio);
      Group(es, ratio) == g[..|g| - 1] + [Sub(g[|g| - 1].startMs, es[|es| - 1].timeMs + PadMs, g[|g| - 1].text)]
  {
    var p := Scan(es[..|es| - 1], ratio);
    Snoc(p.closed, p.open);
  }

  lemma UniqueSingle(es: seq<Entry>, ratio: Ratio, o: seq<nat>, g: seq<Sub>)
    requires |es| == 1 && Partition(es, ratio, o, g)
    ensures o == Opens(es, ratio) && g == Group(es, ratio)
  {
    assert o[0] == 0 && o[|o| - 1] < 1;
    assert |o| == 1;
    assert o == [0];
    assert g == [RunSub(es, o, 0)];
  }

  lemma UniqueBreakCase(es: seq<Entry>, ratio: Ratio, o: seq<nat>, g: seq<Sub>)
    requires |es| >= 2 && |g| == |o| >= 2 && o[|o| - 1] == |es| - 1
    requires var e := es[|es| - 1]; g[|g| - 1] == Sub(e.timeMs, e.timeMs + PadMs, e.text)
    requires ratio(g[|g| - 2].text, es[|es| - 1].text) <= MergeThreshold
    requires o[..|o| - 1] == Opens(es[..|es| - 1], ratio) && g[..|g| - 1] == Group(es[..|es| - 1], ratio)
    ensures o == Opens(es, ratio) && g == Group(es, ratio)
  {
    PrefixSplit(g);
    GroupSnocBreak(es, ratio, g[..|g| - 2], g[|g| - 2]);
    BreakCaseOpens(es, ratio, o);
    BreakCaseGroup(es, ratio, g);
  }

  lemma BreakCaseOpens(es: seq<Entry>, ratio: Ratio, o: seq<nat>)
    requires |es| >= 2 && |o| >= 1 && o[|o| - 1] == |es| - 1 && o[..|o| - 1] == Opens(es[..|es| - 1], ratio)
    requires Opens(es, ratio) == Opens(es[..|es| - 1], ratio) + [|es| - 1]
    ensures o == Opens(es, ratio)
  {
    SnocMatch(o, Opens(es[..|es| - 1], ratio), |es| - 1, Opens(es, ratio));
  }

  lemma BreakCaseGroup(es: seq<Entry>, ratio: Ratio, g: seq<Sub>)
    requires |es| >= 2 && |g| >= 1 && g[..|g| - 1] == Group(es[..|es| - 1], ratio)
    requires var e := es[|es| - 1]; g[|g| - 1] == Sub(e.timeMs, e.timeMs + PadMs, e.text)
    requires var e := es[|es| - 1]; Group(es, ratio) == Group(es[..|es| - 1], ratio) + [Sub(e.timeMs, e.timeMs + PadMs, e.text)]
    ensures g == Group(es, ratio)
  {
    SnocMatch(g, Group(es[..|es| - 1], ratio), g[|g| - 1], Group(es, ratio));
  }

  lemma UniqueMergeCase(es: seq<Entry>, ratio: Ratio, o: seq<nat>, g: seq<Sub>)
    requires |es| >= 2 && |g| == |o| >= 1
    requires g[|g| - 1] == Sub(g[|g| - 1].startMs, es[|es| - 1].timeMs + PadMs, g[|g| - 1].text)
    requires ratio(g[|g| - 1].text, es[|es| - 1].text) > MergeThreshold
    requires o == Opens(es[..|es| - 1], ratio)
    requires g[..|g| - 1] + [Sub(g[|g| - 1].startMs, es[|es| - 2].timeMs + PadMs, g[|g| - 1].text)]
             == Group(es[..|es| - 1], ratio)
    ensures o == Opens(es, ratio) && g == Group(es, ratio)
  {
    SnocParts(g[..|g| - 1], Sub(g[|g| - 1].startMs, es[|es| - 2].timeMs + PadMs, g[|g| - 1].text),
      Group(es[..|es| - 1], ratio));
    GroupSnocMerge(es, ratio);
    SnocEq(g, g[..|g| - 1], Sub(g[|g| - 1].startMs, es[|es| - 1].timeMs + PadMs, g[|g| - 1].text));
  }

  /** The partition is unique: any cutting of the entries into runs that obeys
      the merge and break rules is the one the pass computes. */
  lemma {:induction false} PartitionUnique(es: seq<Entry>, ratio: Ratio, o: seq<nat>, g: seq<Sub>)
    requires Partition(es, ratio, o, g)
    ensures o == Opens(es, ratio) && g == Group(es, ratio)
    decreases |es|, 1
  {
    var n, k := |es|, |o|;
    if n == 1 {
      UniqueSingle(es, ratio, o, g);
    } else if n > 1 {
      if o[k - 1] == n - 1 {
        UniqueLastOpens(es, ratio, o, g);
      } else {
        UniqueLastMerges(es, ratio, o, g);
      }
    }
  }

  lemma {:induction false} UniqueLastOpens(es: seq<Entry>, ratio: Ratio, o: seq<nat>, g: seq<Sub>)
    requires |es| >= 2 && Partition(es, ratio, o, g) && o[|o| - 1] == |es| - 1
    ensures o == Opens(es, ratio) && g == Group(es, ratio)
    decreases |es|, 0
  {
    ShrinkBreak(es, ratio, o, g);
    PartitionUnique(es[..|es| - 1], ratio, o[..|o| - 1], g[..|g| - 1]);
    BreakLastFacts(es, ratio, o, g);
    UniqueBreakCase(es, ratio, o, g);
  }

  /** The last run of a partition that opens at the last entry is that entry alone,
      and it broke away from the run before it. */
  lemma BreakLastFacts(es: seq<Entry>, ratio: Ratio, o: seq<nat>, g: seq<Sub>)
    requires |es| >= 2 && Partition(es, ratio, o, g) && o[|o| - 1] == |es| - 1
    ensures |g| == |o| >= 2
    ensures var e := es[|es| - 1]; g[|g| - 1] == Sub(e.timeMs, e.timeMs + PadMs, e.text)
    ensures ratio(g[|g| - 2].text, es[|es| - 1].text) <= MergeThreshold
  {
    var n, k := |es|, |o|;
    assert o[k - 1] > 0 == o[0];
    assert g[k - 2] == RunSub(es, o, k - 2);
    assert g[k - 1] == RunSub(es, o, k - 1) && RunEnd(o, k - 1, n) == n;
    assert OpenersBreak(es, ratio, o);
  }

  lemma {:induction false} UniqueLastMerges(es: seq<Entry>, ratio: Ratio, o: seq<nat>, g: seq<Sub>)
    requires |es| >= 2 && Partition(es, ratio, o, g) && o[|o| - 1] < |es| - 1
    ensures o == Opens(es, ratio) && g == Group(es, ratio)
    decreases |es|, 0
  {
    ShrinkMerge(es, ratio, o, g);
    PartitionUnique(es[..|es| - 1], ratio, o,
      g[..|g| - 1] + [Sub(g[|g| - 1].startMs, es[|es| - 2].timeMs + PadMs, g[|g| - 1].text)]);
    MergeLastFacts(es, ratio, o, g);
    UniqueMergeCase(es, ratio, o, g);
  }

  /** The last run of a partition that opens before the last entry takes that
      entry in: it ends with it, and the entry scored above the threshold. */
  lemma MergeLastFacts(es: seq<Entry>, ratio: Ratio, o: seq<nat>, g: seq<Sub>)
    requires |es| >= 2 && Partition(es, ratio, o, g) && o[|o| - 1] < |es| - 1
    ensures |g| == |o| >= 1
    ensures g[|g| - 1] == Sub(g[|g| - 1].startMs, es[|es| - 1].timeMs + PadMs, g[|g| - 1].text)
    ensures ratio(g[|g| - 1].text, es[|es| - 1].text) > MergeThreshold
  {
    var n, k := |es|, |o|;
    assert g[k - 1] == RunSub(es, o, k - 1) && RunEnd(o, k - 1, n) == n;
    assert MembersMerge(es, ratio, o);
    assert o[k - 1] < n - 1 < RunEnd(o, k - 1, n);
  }

  // ---------------------------------------------------------------- consequences

  /** Entry timestamps never go backwards (frames are sampled in time order). */
  predicate NonDecreasing(es: seq<Entry>)
  {
    forall a, b :: 0 <= a <= b < |es| ==> es[a].timeMs <= es[b].timeMs
  }

  /** Every subtitle starts at the timestamp of one of the entries and carries
      that entry's text. */
  lemma GroupFromEntries(es: seq<Entry>, ratio: Ratio)
    ensures forall j :: 0 <= j < |Group(es, ratio)| ==>
      exists i :: 0 <= i < |es| && Group(es, ratio)[j].startMs == es[i].timeMs && Group(es, ratio)[j].text == es[i].text
  {
    var g, o := Group(es, ratio), Opens(es, ratio);
    GroupIsPartition(es, ratio);
    forall j | 0 <= j < |g|
      ensures exists i :: 0 <= i < |es| && g[j].startMs == es[i].timeMs && g[j].text == es[i].text
    {
      assert g[j] == RunSub(es, o, j);
      assert o[j] < |es|;
    }
  }

  /** The first subtitle starts at the first entry; the last one ends half a
      second after the last entry. */
  lemma GroupEnds(es: seq<Entry>, ratio: Ratio)
    requires es != []
    ensures var g := Group(es, ratio);
      g[0].startMs == es[0].timeMs && g[|g| - 1].endMs == es[|es| - 1].timeMs + PadMs
  {
    var g, o := Group(es, ratio), Opens(es, ratio);
    GroupIsPartition(es, ratio);
    assert g[0] == RunSub(es, o, 0);
    assert g[|g| - 1] == RunSub(es, o, |o| - 1);
  }

  lemma RunsEndAfterStart(es: seq<Entry>, o: seq<nat>, g: seq<Sub>)
    requires NonDecreasing(es) && Cuts(o, |es|) && |g| == |o|
    requires forall j :: 0 <= j < |o| ==> g[j] == RunSub(es, o, j)
    ensures forall j :: 0 <= j < |g| ==> g[j].startMs < g[j].endMs
  {
    forall j | 0 <= j < |g|
      ensures g[j].startMs < g[j].endMs
    {
      assert g[j] == RunSub(es, o, j);
      assert o[j] <= RunEnd(o, j, |es|) - 1;
    }
  }

  lemma RunsStartInOrder(es: seq<Entry>, o: seq<nat>, g: seq<Sub>)
    requires NonDecreasing(es) && Cuts(o, |es|) && |g| == |o|
    requires forall j :: 0 <= j < |o| ==> g[j] == RunSub(es, o, j)
    ensures forall a, b :: 0 <= a <= b < |g| ==> g[a].startMs <= g[b].startMs
  {
    forall a, b | 0 <= a <= b < |g|
      ensures g[a].startMs <= g[b].startMs
    {
      assert g[a] == RunSub(es, o, a) && g[b] == RunSub(es, o, b);
      assert o[a] <= o[b];
    }
  }

  lemma RunsOverlapAtMostPad(es: seq<Entry>, o: seq<nat>, g: seq<Sub>)
    requires NonDecreasing(es) && Cuts(o, |es|) && |g| == |o|
    requires forall j :: 0 <= j < |o| ==> g[j] == RunSub(es, o, j)
    ensures forall a, b :: 0 <= a && b == a + 1 && b < |g| ==> g[a].endMs <= g[b].startMs + PadMs
  {
    forall a, b | 0 <= a && b == a + 1 && b < |g|
      ensures g[a].endMs <= g[b].startMs + PadMs
    {
      assert g[a] == RunSub(es, o, a) && g[b] == RunSub(es, o, b);
      assert RunEnd(o, a, |es|) - 1 < o[b];
    }
  }

  /** With timestamps in order, every subtitle ends after it starts, the starts
      never go backwards, and a subtitle's end overlaps the next start by at
      most the pad. */
  lemma GroupTiming(es: seq<Entry>, ratio: Ratio)
    requires NonDecreasing(es)
    ensures var g := Group(es, ratio);
      (forall j :: 0 <= j < |g| ==> g[j].startMs < g[j].endMs) &&
      (forall a, b :: 0 <= a <= b < |g| ==> g[a].startMs <= g[b].startMs) &&
      (forall a, b :: 0 <= a && b == a + 1 && b < |g| ==> g[a].endMs <= g[b].startMs + PadMs)
  {
    var g, o := Group(es, ratio), Opens(es, ratio);
    GroupIsPartition(es, ratio);
    RunsEndAfterStart(es, o, g);
    RunsStartInOrder(es, o, g);
    RunsOverlapAtMostPad(es, o, g);
  }

  /** Two frames of the same line and then a different one give two subtitles,
      the first padded past its second member. */
  lemma MergeThenBreak(ratio: Ratio)
    requires ratio("Hello there", "Hello there") > MergeThreshold
    requires ratio("Hello there", "Goodbye now") <= MergeThreshold
    ensures Group([Entry(0, "Hello there"), Entry(500, "Hello there"), Entry(1000, "Goodbye now")], ratio)
            == [Sub(0, 1000, "Hello there"), Sub(1000, 1500, "Goodbye now")]
  {
    var es := [Entry(0, "Hello there"), Entry(500, "Hello there"), Entry(1000, "Goodbye now")];
    ScanFirst(es, ratio);
    ScanStepMerge(es, 1, ratio);
    assert Scan(es[..2], ratio) == Pass([], Sub(0, 1000, "Hello there"));
    ScanStepBreak(es, 2, ratio);
    TakeAll(es);
  }
}
