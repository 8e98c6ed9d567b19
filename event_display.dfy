/** The selection logic of the trigger-record event display: which files of
    a list belong to a run and subrun, which trigger records a file holds,
    the name its plots are saved under, and which trigger primitives each
    APA plot shows. Reading the file list, the spill table and the HDF5
    files, and drawing, are outside the model. */
module EventDisplay {
  import opened Collections
  import opened Decimal

  // ---------------------------------------------------------------------
  // Run and subrun from a file path: the pattern `run(\d{6})_(\d{4})`.
  // ---------------------------------------------------------------------

  /** Length of a match: "run", six digits, "_", four digits. */
  const MatchLength: nat := 14

  /** The pattern matches `s` at offset `i`: its two groups are six and
      four digits, so they read as a run below 10^6 and a subrun below
      10^4. */
  predicate MatchesAt(s: string, i: nat): (b: bool)
    ensures b ==>
      && i + MatchLength <= |s|
      && AllDigits(s[i + 3..i + 9]) && DigitsValue(s[i + 3..i + 9]) < 1000000
      && AllDigits(s[i + 10..i + 14]) && DigitsValue(s[i + 10..i + 14]) < 10000
  {
    if i + MatchLength <= |s| && AllDigits(s[i + 3..i + 9]) && AllDigits(s[i + 10..i + 14]) then
      DigitsBound(s[i + 3..i + 9]);
      DigitsBound(s[i + 10..i + 14]);
      assert Pow10(6) == 1000000 && Pow10(4) == 10000;
      s[i] == 'r' && s[i + 1] == 'u' && s[i + 2] == 'n' && s[i + 9] == '_'
    else
      false
  }

  /** `i` is where a regular-expression search finds the pattern: it
      matches there and at no earlier offset. */
  predicate IsLeftmostMatch(s: string, i: nat)
  {
    MatchesAt(s, i) && forall j: nat :: j < i ==> !MatchesAt(s, j)
  }

  /** The first offset at or after `from` where the pattern matches. */
  function FirstMatchFrom(s: string, from: nat): (r: Option<nat>)
    requires from <= |s|
    ensures r.Some? ==>
      from <= r.value && MatchesAt(s, r.value)
      && forall j: nat :: from <= j < r.value ==> !MatchesAt(s, j)
    ensures r.None? ==> forall j: nat :: from <= j ==> !MatchesAt(s, j)
    decreases |s| - from
  {
    if from + MatchLength > |s| then None
    else if MatchesAt(s, from) then Some(from)
    else FirstMatchFrom(s, from + 1)
  }

  /** `extract_run_subrun`: the run and subrun digit groups of the leftmost
      match, or None when the path holds no match. */
  function ExtractRunSubrun(path: string): (r: Option<(string, string)>)
    ensures r.Some? <==> exists i: nat :: MatchesAt(path, i)
    ensures r.Some? ==>
      exists i: nat :: IsLeftmostMatch(path, i)
        && r.value.0 == path[i + 3..i + 9]
        && r.value.1 == path[i + 10..i + 14]
    ensures r.Some? ==>
      |r.value.0| == 6 && AllDigits(r.value.0)
      && |r.value.1| == 4 && AllDigits(r.value.1)
  {
    match FirstMatchFrom(path, 0)
    case None => None
    case Some(i) =>
      assert IsLeftmostMatch(path, i);
      Some((path[i + 3..i + 9], path[i + 10..i + 14]))
  }

  /** The text of a path that names a run and subrun: a prefix, then
      "run" + six digits + "_" + four digits, then a suffix. */
  function NamedPath(prefix: string, run: string, subrun: string, suffix: string): string
  {
    prefix + "run" + run + "_" + subrun + suffix
  }

  /** A match cannot start in a prefix without a match of its own and run
      into the "run" that follows it: the 'r' would sit where the pattern
      wants 'u', 'n', a digit or '_'. */
  lemma NoMatchAcross(prefix: string, rest: string, j: nat)
    requires forall k: nat :: !MatchesAt(prefix, k)
    requires |rest| >= 1 && rest[0] == 'r'
    requires j < |prefix|
    ensures !MatchesAt(prefix + rest, j)
  {
    var s := prefix + rest;
    var p := |prefix|;
    if j + MatchLength <= p {
      assert s[j + 3..j + 9] == prefix[j + 3..j + 9];
      assert s[j + 10..j + 14] == prefix[j + 10..j + 14];
      assert !MatchesAt(prefix, j);
    } else {
      var o := p - j;
      assert s[p] == 'r';
      if 3 <= o < 9 && j + 9 <= |s| {
        assert s[j + 3..j + 9][o - 3] == s[p];
      } else if 10 <= o && j + 14 <= |s| {
        assert s[j + 10..j + 14][o - 10] == s[p];
      }
    }
  }

  /** The pattern matches where "run" + six digits + "_" + four digits
      starts, and its groups are those digits. */
  lemma MatchesAfterPrefix(prefix: string, run: string, subrun: string, suffix: string)
    requires |run| == 6 && AllDigits(run) && |subrun| == 4 && AllDigits(subrun)
    ensures var s, p := NamedPath(prefix, run, subrun, suffix), |prefix|;
      MatchesAt(s, p) && s[p + 3..p + 9] == run && s[p + 10..p + 14] == subrun
  {
    var s, p := NamedPath(prefix, run, subrun, suffix), |prefix|;
    assert s == prefix + "run" + run + "_" + subrun + suffix;
    assert |s| >= p + 14;
    assert s[p + 3..p + 9] == run by {
      assert forall i :: 0 <= i < 6 ==> s[p + 3 + i] == run[i];
    }
    assert s[p + 10..p + 14] == subrun by {
      assert forall i :: 0 <= i < 4 ==> s[p + 10 + i] == subrun[i];
    }
  }

  /** Extracting from a path built around "run<6 digits>_<4 digits>" gives
      back those two groups, provided nothing before them matches. */
  lemma ExtractNamedPath(prefix: string, run: string, subrun: string, suffix: string)
    requires forall k: nat :: !MatchesAt(prefix, k)
    requires |run| == 6 && AllDigits(run) && |subrun| == 4 && AllDigits(subrun)
    ensures ExtractRunSubrun(NamedPath(prefix, run, subrun, suffix)) == Some((run, subrun))
  {
    var s, p := NamedPath(prefix, run, subrun, suffix), |prefix|;
    var rest := "run" + run + "_" + subrun + suffix;
    assert s == prefix + rest;
    assert forall j: nat :: j < p ==> !MatchesAt(s, j) by {
      forall j: nat | j < p
        ensures !MatchesAt(s, j)
      {
        NoMatchAcross(prefix, rest, j);
      }
    }
    MatchesAfterPrefix(prefix, run, subrun, suffix);
    ExtractLeftmost(s, p);
  }

  /** Extraction at the leftmost match yields that match's groups. */
  lemma ExtractLeftmost(s: string, p: nat)
    requires IsLeftmostMatch(s, p)
    ensures ExtractRunSubrun(s) == Some((s[p + 3..p + 9], s[p + 10..p + 14]))
  {
    assert FirstMatchFrom(s, 0) == Some(p);
  }

  // ---------------------------------------------------------------------
  // Selecting the files of one run and subrun.
  // ---------------------------------------------------------------------

  /** A path is kept for `desiredRun`, `desiredSubrun` when it holds a
      match whose groups read as those numbers. A path without a match
      makes the conversion fail, and the failure only skips the path. */
  predicate Selected(path: string, desiredRun: int, desiredSubrun: int): (b: bool)
    ensures b ==> 0 <= desiredRun < 1000000 && 0 <= desiredSubrun < 10000
  {
    match ExtractRunSubrun(path)
    case None => false
    case Some(groups) =>
      DigitsBound(groups.0);
      DigitsBound(groups.1);
      assert Pow10(6) == 1000000 && Pow10(4) == 10000;
      ParseInt(groups.0) == Some(desiredRun) && ParseInt(groups.1) == Some(desiredSubrun)
  }

  function SelectedBy(desiredRun: int, desiredSubrun: int): string -> bool
  {
    path => Selected(path, desiredRun, desiredSubrun)
  }

  /** `select_file_paths`: the paths of `filelist` that belong to the run
      and subrun, in their original order; every selected path is from the
      list and matches, and every path that matches is selected. */
  method SelectFilePaths(filelist: seq<string>, desiredRun: int, desiredSubrun: int)
    returns (filtered: seq<string>)
    ensures filtered == Filter(filelist, SelectedBy(desiredRun, desiredSubrun))
    ensures forall path ::
      path in filtered <==> path in filelist && Selected(path, desiredRun, desiredSubrun)
  {
    var keep := SelectedBy(desiredRun, desiredSubrun);
    filtered := [];
    for i := 0 to |filelist|
      invariant filtered == Filter(filelist[..i], keep)
    {
      var path := filelist[i];
      assert filelist[..i + 1] == filelist[..i] + [path];
      FilterSnoc(filelist[..i], path, keep);
      var groups := ExtractRunSubrun(path);
      if groups.Some? {
        var run, subrun := ParseInt(groups.value.0), ParseInt(groups.value.1);
        if run.Some? && subrun.Some? && run.value == desiredRun && subrun.value == desiredSubrun {
          filtered := filtered + [path];
        }
      }
    }
    assert filelist[..|filelist|] == filelist;
    forall path
      ensures path in filtered <==> path in filelist && Selected(path, desiredRun, desiredSubrun)
    {
      FilterMembership(filelist, keep, path);
    }
  }

  /** A path that names run `run` and subrun `subrun` the way the data
      files do (six and four zero-padded digits) is selected for exactly
      that run and subrun. */
  lemma SelectedNamedPath(prefix: string, run: nat, subrun: nat, suffix: string,
                          desiredRun: int, desiredSubrun: int)
    requires forall k: nat :: !MatchesAt(prefix, k)
    requires run < 1000000 && subrun < 10000
    ensures Selected(NamedPath(prefix, FormatZeroPadded(run, 6), FormatZeroPadded(subrun, 4), suffix),
                     desiredRun, desiredSubrun)
      <==> desiredRun == run && desiredSubrun == subrun
  {
    var r, s := FormatZeroPadded(run, 6), FormatZeroPadded(subrun, 4);
    assert Pow10(6) == 1000000 && Pow10(4) == 10000;
    NatToStringShort(run, 6);
    NatToStringShort(subrun, 4);
    FormatZeroPaddedNat(run, 6);
    FormatZeroPaddedNat(subrun, 4);
    ExtractNamedPath(prefix, r, s, suffix);
  }

  // ---------------------------------------------------------------------
  // Trigger records of one dataflow file.
  // ---------------------------------------------------------------------

  predicate IsEvenRecord(id: int)
  {
    id % 2 == 0
  }

  predicate IsOddRecord(id: int)
  {
    id % 2 != 0
  }

  /** Files of the first dataflow application name it in their path. */
  predicate IsDataflow0(path: string): (b: bool)
    ensures b <==> exists i :: OccursAt(path, "dataflow0", i)
  {
    Contains(path, "dataflow0")
  }

  /** The trigger records looked up in a file: the even ones for a
      dataflow0 file, the odd ones for any other, in their original order.
      (Python's `%` by 2 agrees with Dafny's on negative ids.) */
  function DataflowRecords(path: string, records: seq<int>): (r: seq<int>)
    ensures |r| <= |records|
    ensures forall id :: id in r <==> id in records && (id % 2 == 0 <==> IsDataflow0(path))
  {
    var keep := if IsDataflow0(path) then IsEvenRecord else IsOddRecord;
    assert forall id :: id in Filter(records, keep) <==> id in records && keep(id) by {
      forall id ensures id in Filter(records, keep) <==> id in records && keep(id) {
        FilterMembership(records, keep, id);
      }
    }
    Filter(records, keep)
  }

  /** A dataflow0 file and a file of the other dataflow between them look up
      every trigger record exactly once. */
  lemma DataflowPartition(path0: string, path1: string, records: seq<int>)
    requires IsDataflow0(path0) && !IsDataflow0(path1)
    ensures multiset(DataflowRecords(path0, records)) + multiset(DataflowRecords(path1, records))
      == multiset(records)
  {
    FilterSplit(records, IsEvenRecord, IsOddRecord);
  }

  // ---------------------------------------------------------------------
  // The save name.
  // ---------------------------------------------------------------------

  /** `Run{run}-Subrun{subrun:04}-TriggerRecord{record}`. */
  function BaseSaveName(run: int, subrun: int, record: int): (r: string)
    ensures |r| > 3 + |IntToString(record)| && r[..3] == "Run"
    ensures r[|r| - |IntToString(record)|..] == IntToString(record)
  {
    var fields := "Run" + IntToString(run) + "-Subrun" + FormatZeroPadded(subrun, 4) + "-TriggerRecord";
    SplitAt(fields, IntToString(record));
    fields + IntToString(record)
  }

  /** The base name with "-zoom" after it: never the base name itself. */
  function ZoomSaveName(run: int, subrun: int, record: int): (r: string)
    ensures var base := BaseSaveName(run, subrun, record);
      |r| == |base| + 5 && r[..|base|] == base && r[|base|..] == "-zoom" && r != base
  {
    BaseSaveName(run, subrun, record) + "-zoom"
  }

  /** The name the search settles on, or `Diverges` when it never ends. */
  datatype SaveName = Named(name: string) | Diverges

  /** The save name after `n` passes of the search loop: every pass sets
      the zoom name, whatever the name was. */
  function SaveNameAfter(run: int, subrun: int, record: int, n: nat): string
  {
    if n == 0 then BaseSaveName(run, subrun, record) else ZoomSaveName(run, subrun, record)
  }

  /** `find_save_name`, with the file system's existence test as
      `pdfExists`. Overwriting, or a base name with no PDF yet, gives the base
      name; a base PDF without a zoom PDF gives the zoom name; when both
      PDFs exist the search loop never ends, which is reported as
      `Diverges`. */
  method FindSaveName(run: int, subrun: int, record: int, overwrite: bool, pdfExists: string -> bool)
    returns (r: SaveName)
    ensures var base, zoom := BaseSaveName(run, subrun, record), ZoomSaveName(run, subrun, record);
      && (overwrite || !pdfExists(base + ".pdf") ==> r == Named(base))
      && (!overwrite && pdfExists(base + ".pdf") && !pdfExists(zoom + ".pdf") ==> r == Named(zoom))
      && (r == Diverges <==> !overwrite && pdfExists(base + ".pdf") && pdfExists(zoom + ".pdf"))
  {
    var zoom := ZoomSaveName(run, subrun, record);
    var name := BaseSaveName(run, subrun, record);
    ghost var passes: nat := 0;
    while !overwrite && pdfExists(name + ".pdf")
      invariant name == SaveNameAfter(run, subrun, record, passes)
      invariant passes > 0 ==> !overwrite && pdfExists(BaseSaveName(run, subrun, record) + ".pdf")
      decreases if passes == 0 then 1 else 0
    {
      var next := ZoomSaveName(run, subrun, record);
      if next == name {
        // The pass would leave the name as it is, with the loop condition
        // still true: the loop never exits.
        return Diverges;
      }
      name, passes := next, passes + 1;
    }
    r := Named(name);
  }

  /** When both PDFs exist and overwriting is off, the loop condition holds
      after any number of passes. */
  lemma SaveNameLoopNeverExits(run: int, subrun: int, record: int, pdfExists: string -> bool, n: nat)
    requires pdfExists(BaseSaveName(run, subrun, record) + ".pdf")
    requires pdfExists(ZoomSaveName(run, subrun, record) + ".pdf")
    ensures pdfExists(SaveNameAfter(run, subrun, record, n) + ".pdf")
  {
  }

  /** The subrun field of a base name is at least four digits and reads back
      as the subrun, and the run field reads back as the run. */
  lemma BaseSaveNameFields(run: int, subrun: nat, record: int)
    ensures var pad := FormatZeroPadded(subrun, 4);
      && |pad| >= 4 && AllDigits(pad) && DigitsValue(pad) == subrun
      && BaseSaveName(run, subrun, record)
        == "Run" + IntToString(run) + "-Subrun" + pad + "-TriggerRecord" + IntToString(record)
      && ParseInt(IntToString(run)) == Some(run)
  {
    FormatZeroPaddedNat(subrun, 4);
    IntToStringParse(run);
  }

  // ---------------------------------------------------------------------
  // Trigger primitives per APA.
  // ---------------------------------------------------------------------

  /** The fields of a trigger primitive the display uses. */
  datatype TriggerPrimitive = TriggerPrimitive(channel: int, timeStart: nat, adcIntegral: nat)

  /** An inclusive range of channels. */
  datatype ChannelRange = ChannelRange(start: int, end: int)

  /** The channel ranges of APAs 1 to 4, in plotting order. */
  const ApaLimits: seq<ChannelRange> := [
    ChannelRange(800, 1600),
    ChannelRange(7200, 7680),
    ChannelRange(4160, 4640),
    ChannelRange(9280, 9760)
  ]

  predicate InRange(range: ChannelRange, tp: TriggerPrimitive)
  {
    range.start <= tp.channel && tp.channel <= range.end
  }

  function InRangeOf(range: ChannelRange): TriggerPrimitive -> bool
  {
    tp => InRange(range, tp)
  }

  /** The primitives whose channel lies in `range`, both ends included. */
  function ApaSelection(tps: seq<TriggerPrimitive>, range: ChannelRange): (r: seq<TriggerPrimitive>)
    ensures |r| <= |tps|
  {
    Filter(tps, InRangeOf(range))
  }

  /** The selection keeps exactly the primitives in range, each as often as
      the input has it, in their original order. */
  lemma ApaSelectionSpec(tps: seq<TriggerPrimitive>, range: ChannelRange, tp: TriggerPrimitive)
    ensures tp in ApaSelection(tps, range) <==> tp in tps && range.start <= tp.channel <= range.end
    ensures multiset(ApaSelection(tps, range))[tp] == if InRange(range, tp) then multiset(tps)[tp] else 0
  {
    FilterMembership(tps, InRangeOf(range), tp);
    FilterMultiplicity(tps, InRangeOf(range), tp);
  }

  /** The four APA ranges do not overlap, so no primitive shows in two APA
      plots. */
  lemma ApaSelectionsDisjoint(tps: seq<TriggerPrimitive>, k: nat, l: nat, tp: TriggerPrimitive)
    requires k < |ApaLimits| && l < |ApaLimits| && k != l
    ensures !(tp in ApaSelection(tps, ApaLimits[k]) && tp in ApaSelection(tps, ApaLimits[l]))
  {
    ApaSelectionSpec(tps, ApaLimits[k], tp);
    ApaSelectionSpec(tps, ApaLimits[l], tp);
  }

  /** Both ends of a range are part of it: a primitive on the first or the
      last channel of an APA shows in that APA's plot. */
  lemma ApaRangeInclusive(tps: seq<TriggerPrimitive>, k: nat, tp: TriggerPrimitive)
    requires k < |ApaLimits| && tp in tps
    requires tp.channel == ApaLimits[k].start || tp.channel == ApaLimits[k].end
    ensures tp in ApaSelection(tps, ApaLimits[k])
  {
    ApaSelectionSpec(tps, ApaLimits[k], tp);
  }

  /** One APA plot: its number (1 to 4), its range and the primitives it
      shows. The times it draws are `RelativeStartTimes(points)` (see
      `PlotTimes`). */
  datatype ApaPlot = ApaPlot(apa: nat, range: ChannelRange, points: seq<TriggerPrimitive>)

  /** The earliest start time of a non-empty set of primitives. */
  function MinStart(tps: seq<TriggerPrimitive>): (m: nat)
    requires tps != []
    ensures forall i :: 0 <= i < |tps| ==> m <= tps[i].timeStart
    ensures exists i :: 0 <= i < |tps| && tps[i].timeStart == m
  {
    if |tps| == 1 then tps[0].timeStart
    else
      var rest := MinStart(tps[1..]);
      assert forall i :: 1 <= i < |tps| ==> tps[i] == tps[1..][i - 1];
      if tps[0].timeStart <= rest then tps[0].timeStart else rest
  }

  /** Start times shifted so that the earliest is 0. */
  function RelativeStartTimes(tps: seq<TriggerPrimitive>): (r: seq<nat>)
    requires tps != []
    ensures |r| == |tps|
    ensures forall i :: 0 <= i < |tps| ==> r[i] + MinStart(tps) == tps[i].timeStart
    ensures exists i :: 0 <= i < |r| && r[i] == 0
  {
    var m := MinStart(tps);
    seq(|tps|, i requires 0 <= i < |tps| => tps[i].timeStart - m)
  }

  /** The plots of the first k ranges of `limits` that have primitives to
      show, numbered from 1 by their place in `limits`. The plot title
      numbers a range by the first place it occurs instead: the two agree
      when the ranges are distinct, as those of `ApaLimits` are (see
      `ApaLimitsIndex`), and differ for a range that repeats. */
  function PlotsUpTo(tps: seq<TriggerPrimitive>, limits: seq<ChannelRange>, k: nat): (plots: seq<ApaPlot>)
    requires k <= |limits|
    ensures |plots| <= k
  {
    if k == 0 then []
    else
      var range := limits[k - 1];
      var selected := ApaSelection(tps, range);
      PlotsUpTo(tps, limits, k - 1)
      + if selected == [] then [] else [ApaPlot(k, range, selected)]
  }

  /** The loop over the channel ranges: the primitives in each range,
      skipping a range with none. */
  method PlotsPerRange(tps: seq<TriggerPrimitive>, limits: seq<ChannelRange>) returns (plots: seq<ApaPlot>)
    ensures plots == PlotsUpTo(tps, limits, |limits|)
  {
    plots := [];
    for k := 0 to |limits|
      invariant plots == PlotsUpTo(tps, limits, k)
    {
      var range := limits[k];
      var selected := ApaSelection(tps, range);
      if selected == [] {
        continue;
      }
      plots := plots + [ApaPlot(k + 1, range, selected)];
    }
  }

  /** The four APA ranges are distinct: each one's first place in
      `ApaLimits` is its own place. */
  lemma ApaLimitsIndex(k: nat)
    requires k < |ApaLimits|
    ensures IndexOf(ApaLimits, ApaLimits[k]) == k
  {
    var i := IndexOf(ApaLimits, ApaLimits[k]);
    assert i <= k;
    assert ApaLimits[i] == ApaLimits[k];
  }

  /** `plot_pdf_start_time_vs_channel_per_apa` without the drawing: the
      plots of APAs 1 to 4 in turn, an APA with no primitives skipped, each
      numbered as its title numbers it, by the range's index in the list
      plus one. */
  method PlotsPerApa(tps: seq<TriggerPrimitive>) returns (plots: seq<ApaPlot>)
    ensures plots == PlotsUpTo(tps, ApaLimits, |ApaLimits|)
    ensures forall n :: 0 <= n < |plots| ==>
      plots[n].range in ApaLimits && plots[n].apa == IndexOf(ApaLimits, plots[n].range) + 1
  {
    plots := PlotsPerRange(tps, ApaLimits);
    PlotsUpToContents(tps, ApaLimits, |ApaLimits|);
    forall n | 0 <= n < |plots|
      ensures plots[n].range in ApaLimits && plots[n].apa == IndexOf(ApaLimits, plots[n].range) + 1
    {
      ApaLimitsIndex(plots[n].apa - 1);
    }
  }

  /** The plots of the first k ranges are those of the first k - 1, then
      the k-th range's plot when it has primitives. */
  lemma PlotsUpToStep(tps: seq<TriggerPrimitive>, limits: seq<ChannelRange>, k: nat)
    requires 0 < k <= |limits|
    ensures var prev, plots := PlotsUpTo(tps, limits, k - 1), PlotsUpTo(tps, limits, k);
      var selected := ApaSelection(tps, limits[k - 1]);
      && (selected == [] ==> plots == prev)
      && (selected != [] ==>
            && |plots| == |prev| + 1
            && (forall n :: 0 <= n < |prev| ==> plots[n] == prev[n])
            && plots[|prev|] == ApaPlot(k, limits[k - 1], selected))
  {
  }

  /** Every plot is of a range that has primitives, numbered by its place
      in `limits`, and shows exactly that range's primitives. */
  lemma {:induction false} PlotsUpToContents(tps: seq<TriggerPrimitive>, limits: seq<ChannelRange>, k: nat)
    requires k <= |limits|
    ensures var plots := PlotsUpTo(tps, limits, k);
      forall n :: 0 <= n < |plots| ==>
        && 1 <= plots[n].apa <= k
        && plots[n].range == limits[plots[n].apa - 1]
        && plots[n].points == ApaSelection(tps, plots[n].range) && plots[n].points != []
  {
    if k > 0 {
      PlotsUpToContents(tps, limits, k - 1);
      PlotsUpToStep(tps, limits, k);
    }
  }

  /** The plots come in range order. */
  lemma {:induction false} PlotsUpToOrdered(tps: seq<TriggerPrimitive>, limits: seq<ChannelRange>, k: nat)
    requires k <= |limits|
    ensures var plots := PlotsUpTo(tps, limits, k);
      forall i, j :: 0 <= i < j < |plots| ==> plots[i].apa < plots[j].apa
  {
    if k > 0 {
      var prev, plots := PlotsUpTo(tps, limits, k - 1), PlotsUpTo(tps, limits, k);
      PlotsUpToOrdered(tps, limits, k - 1);
      PlotsUpToContents(tps, limits, k - 1);
      PlotsUpToStep(tps, limits, k);
      forall i, j | 0 <= i < j < |plots|
        ensures plots[i].apa < plots[j].apa
      {
        assert plots[i] == prev[i];
        if j < |prev| {
          assert plots[j] == prev[j];
        } else {
          assert plots[j].apa == k && prev[i].apa <= k - 1;
        }
      }
    }
  }

  /** A range gets a plot exactly when it has primitives. */
  lemma {:induction false} PlotsUpToComplete(tps: seq<TriggerPrimitive>, limits: seq<ChannelRange>, k: nat, i: nat)
    requires i < k <= |limits|
    ensures var plots := PlotsUpTo(tps, limits, k);
      (exists n :: 0 <= n < |plots| && plots[n].apa == i + 1) <==> ApaSelection(tps, limits[i]) != []
  {
    var plots := PlotsUpTo(tps, limits, k);
    var prev := PlotsUpTo(tps, limits, k - 1);
    PlotsUpToContents(tps, limits, k - 1);
    PlotsUpToStep(tps, limits, k);
    if i < k - 1 {
      PlotsUpToComplete(tps, limits, k - 1, i);
      if |plots| > |prev| {
        assert plots[|prev|].apa == k;
      }
    } else if ApaSelection(tps, limits[i]) != [] {
      assert plots[|prev|].apa == i + 1;
    }
  }

  /** Every plot has primitives to draw, so its times are defined: each
      primitive's start time less the earliest of them, the earliest drawn
      at 0. */
  lemma PlotTimes(tps: seq<TriggerPrimitive>, limits: seq<ChannelRange>, k: nat, n: nat)
    requires k <= |limits| && n < |PlotsUpTo(tps, limits, k)|
    ensures var p := PlotsUpTo(tps, limits, k)[n];
      && p.points != []
      && var times := RelativeStartTimes(p.points);
      && |times| == |p.points|
      && (forall i :: 0 <= i < |times| ==> times[i] + MinStart(p.points) == p.points[i].timeStart)
      && (exists i :: 0 <= i < |times| && times[i] == 0)
  {
    PlotsUpToContents(tps, limits, k);
  }
}
