/** The trigger-candidate reader: a container of decoded candidates (one
    row each) and their activity groups (one jagged entry each), filled one
    fragment at a time, with a reset, indexing and the fragment-path filter.

    Opening the HDF5 file and fetching a fragment's payload are outside the
    model: `ReadFragment` receives the payload bytes, and the constructor the
    fragment paths the file enumerates. */
module Reader {
  import opened Collections
  import opened Bytes
  import opened Records
  import opened Scanner

  /** What reading one fragment yields: nothing for an empty payload, the
      last candidate decoded for a payload read to its end, or the offset of
      a record that does not fit in what remains of the payload. */
  datatype FragmentResult = EmptyFragment | Complete(last: Candidate) | Truncated(offset: nat)

  /** Fragment paths that hold trigger candidates name them in the path. */
  predicate IsCandidatePath(path: string): (b: bool)
    ensures b <==> exists i :: OccursAt(path, "Trigger_Candidate", i)
  {
    Contains(path, "Trigger_Candidate")
  }

  /** Python's reading of an integer index into a sequence of length `n`:
      a negative index counts from the end; anything else out of range is
      an IndexError. */
  function PyIndex(key: int, n: nat): (r: Option<nat>)
    ensures r.Some? <==> -(n as int) <= key < n
    ensures r.Some? ==> r.value < n && (r.value as int == key || r.value as int == key + n)
  {
    if 0 <= key < n then Some(key as nat)
    else if -(n as int) <= key < 0 then Some((key + n) as nat)
    else None
  }

  /** Python's indices of a sequence agree with reading it from the end: `-1`
      is the last element, `-n` the first. */
  lemma PyIndexFromEnd(key: int, n: nat)
    requires -(n as int) <= key < 0
    ensures PyIndex(key, n) == Some(n + key) && PyIndex(key + n, n) == PyIndex(key, n)
  {
  }

  /** The paths that name trigger candidates, in their original order. */
  method FilterPaths(paths: seq<string>) returns (kept: seq<string>)
    ensures kept == Filter(paths, IsCandidatePath)
  {
    kept := [];
    for i := 0 to |paths|
      invariant kept == Filter(paths[..i], IsCandidatePath)
    {
      var path := paths[i];
      assert paths[..i + 1] == paths[..i] + [path];
      FilterSnoc(paths[..i], path, IsCandidatePath);
      if Contains(path, "Trigger_Candidate") {
        kept := kept + [path];
      }
    }
    assert paths[..|paths|] == paths;
  }

  class TCReader {
    /** The decoded candidates, in the order they were read. */
    var tcData: seq<Candidate>
    /** `taData[i]` is the activity group of the i-th candidate read. */
    var taData: seq<seq<Activity>>
    /** The number of empty fragments met. */
    var numEmpty: nat
    /** The fragment paths still to be read. */
    var fragmentPaths: seq<string>

    /** One activity group per candidate, as long as its input count. */
    ghost predicate Aligned()
      reads this
    {
      Scanner.Aligned(tcData, taData)
    }

    /** A reader over the given fragment paths, holding no data yet. */
    constructor(paths: seq<string>)
      ensures tcData == [] && taData == [] && numEmpty == 0
      ensures fragmentPaths == paths
      ensures Aligned()
    {
      tcData := [];
      taData := [];
      numEmpty := 0;
      fragmentPaths := paths;
    }

    /** `len(reader)`: the number of candidates read. */
    function Len(): (n: nat)
      reads this
      ensures n == |tcData|
      ensures Aligned() ==> n == |taData|
    {
      |tcData|
    }

    /** `reader[key]` for an integer key: the candidate at that Python index,
        or None where Python raises IndexError. */
    function GetItem(key: int): (r: Option<Candidate>)
      reads this
      ensures r.Some? <==> -|tcData| <= key < |tcData|
      ensures 0 <= key < |tcData| ==> r == Some(tcData[key])
      ensures -|tcData| <= key < 0 ==> r == Some(tcData[|tcData| + key])
    {
      match PyIndex(key, |tcData|)
      case Some(i) => Some(tcData[i])
      case None => None
    }

    /** `reader[key] = value` for an integer key: replaces the candidate at
        that Python index and nothing else; `ok` is false where Python raises
        IndexError, and then nothing changes. The activity groups are left
        as they are, so alignment survives only a value with the same input
        count. */
    method SetItem(key: int, value: Candidate) returns (ok: bool)
      modifies this
      ensures ok <==> -|old(tcData)| <= key < |old(tcData)|
      ensures ok ==> tcData == old(tcData)[PyIndex(key, |old(tcData)|).value := value]
      ensures !ok ==> tcData == old(tcData)
      ensures taData == old(taData) && numEmpty == old(numEmpty)
      ensures fragmentPaths == old(fragmentPaths)
      ensures ok && old(Aligned()) && value.numTas == old(tcData)[PyIndex(key, |old(tcData)|).value].numTas
        ==> Aligned()
    {
      var index := PyIndex(key, |tcData|);
      if index.Some? {
        tcData := tcData[index.value := value];
        ok := true;
      } else {
        ok := false;
      }
    }

    /** Empties both data sets; the paths and the empty-fragment count stay.
        The new state does not depend on the data held before, so clearing
        twice is the same as clearing once. */
    method ClearData()
      modifies this
      ensures tcData == [] && taData == []
      ensures numEmpty == old(numEmpty) && fragmentPaths == old(fragmentPaths)
      ensures Aligned()
    {
      tcData := [];
      taData := [];
    }

    /** Keeps the fragment paths that name trigger candidates, in order. */
    method FilterFragmentPaths()
      modifies this
      ensures fragmentPaths == Filter(old(fragmentPaths), IsCandidatePath)
      ensures tcData == old(tcData) && taData == old(taData) && numEmpty == old(numEmpty)
    {
      fragmentPaths := FilterPaths(fragmentPaths);
    }

    /** Reads one fragment payload. An empty payload only bumps the
        empty-fragment count. Otherwise the records are decoded from offset 0
        on, each candidate and its activity group appended, until the payload
        is used up (the last candidate is returned) or a record does not fit
        in what is left (its offset is returned, the records before it
        kept). */
    method ReadFragment(frag: seq<byte>) returns (r: FragmentResult)
      modifies this
      ensures fragmentPaths == old(fragmentPaths)
      ensures |frag| == 0 ==>
        r == EmptyFragment && numEmpty == old(numEmpty) + 1
        && tcData == old(tcData) && taData == old(taData)
      ensures |frag| > 0 ==>
        numEmpty == old(numEmpty)
        && tcData == old(tcData) + Scan(frag).candidates
        && taData == old(taData) + Scan(frag).groups
      ensures r.Complete? <==> |frag| > 0 && !Scan(frag).truncated
      ensures r.Complete? ==>
        Scan(frag).candidates != []
        && r.last == Last(Scan(frag).candidates)
      ensures r.Truncated? <==> Scan(frag).truncated
      ensures r.Truncated? ==> r.offset == Scan(frag).consumed
      ensures old(Aligned()) ==> Aligned()
    {
      if |frag| == 0 {
        numEmpty := numEmpty + 1;
        return EmptyFragment;
      }
      ghost var doneC: seq<Candidate> := [];
      ghost var doneG: seq<seq<Activity>> := [];
      var last := ZeroCandidate;
      ScanAligned(frag);
      var byteIdx: nat := 0;
      AfterNothing(Scan(frag));
      while byteIdx < |frag|
        invariant byteIdx <= |frag|
        invariant Scan(frag) == After(doneC, doneG, byteIdx, Scan(frag[byteIdx..]))
        invariant tcData == old(tcData) + doneC && taData == old(taData) + doneG
        invariant byteIdx > 0 ==> doneC != [] && last == Last(doneC)
        invariant numEmpty == old(numEmpty) && fragmentPaths == old(fragmentPaths)
        decreases |frag| - byteIdx
      {
        var view := frag[byteIdx..];
        if |view| < HeaderWidth || RecordSize(DecodeCandidate(view).numTas) > |view| {
          ScanStopsAt(frag, doneC, doneG, byteIdx);
          KeepAligned(old(tcData), old(taData), Scan(frag));
          return Truncated(byteIdx);
        }
        var tc, group, size := ReadRecord(view);
        Associate(old(tcData), doneC, [tc]);
        Associate(old(taData), doneG, [group]);
        ghost var prevC, prevG, prevIdx := doneC, doneG, byteIdx;
        doneC, doneG := doneC + [tc], doneG + [group];
        byteIdx := byteIdx + size;
        last := tc;
        LastSnoc(prevC, tc);
        ScanAdvance(frag, prevC, prevG, prevIdx, tc, group, byteIdx);
      }
      ScanEndsAt(frag, doneC, doneG, byteIdx);
      KeepAligned(old(tcData), old(taData), Scan(frag));
      r := Complete(last);
    }

    /** Appends the record at the start of `view`: its candidate row to the
        candidates, then its activity group to the groups; `size` is the
        number of bytes it occupies. */
    method ReadRecord(view: seq<byte>) returns (tc: Candidate, group: seq<Activity>, size: nat)
      requires |view| >= HeaderWidth && RecordSize(DecodeCandidate(view).numTas) <= |view|
      modifies this
      ensures tc == DecodeCandidate(view) && size == RecordSize(tc.numTas)
      ensures group == DecodeGroup(view, tc.numTas)
      ensures tcData == old(tcData) + [tc] && taData == old(taData) + [group]
      ensures numEmpty == old(numEmpty) && fragmentPaths == old(fragmentPaths)
    {
      tc := DecodeCandidate(view);
      tcData := tcData + [tc];
      size := RecordSize(tc.numTas);
      group := DecodeActivities(view, tc.numTas);
      taData := taData + [group];
    }

    /** The activity group of the record at the start of `view`: a zeroed
        array of `n` activities, filled in order. */
    method DecodeActivities(view: seq<byte>, n: nat) returns (group: seq<Activity>)
      requires |view| >= RecordSize(n)
      ensures group == DecodeGroup(view, n)
    {
      var tas := new Activity[n](_ => ZeroActivity);
      for k := 0 to n
        invariant tas[..k] == DecodeGroup(view, k)
      {
        RecordSizeMonotone(k + 1, n);
        DecodeGroupSnoc(view, k);
        ghost var done := tas[..k];
        var ta := DecodeActivity(view[HeaderWidth + k * ActivityWidth..]);
        tas[k] := ta;
        assert tas[..k] == done;
        SliceSnoc(tas, k);
      }
      group := tas[..];
    }
  }
}
