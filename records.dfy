/** The two record kinds of a trigger-candidate fragment and their byte layout.

    A trigger candidate (TC) is a fixed-width header followed by as many
    fixed-width trigger-activity (TA) records as its header's input count.
    Fields are listed, and laid out, in the order of the reader's NumPy
    record types `tc_dt` and `ta_dt`; the two enumerated codes of each record
    are kept as plain integers. */
module Records {
  import opened Collections
  import opened Bytes

  /** One TC row of the reader's `tc_data`. `numTas` is the candidate's
      input count, the number of TAs that follow its header. */
  datatype Candidate = Candidate(
    algorithm: nat,
    detid: nat,
    numTas: nat,
    timeCandidate: nat,
    timeEnd: nat,
    timeStart: nat,
    candidateType: nat,
    version: nat)

  /** One TA row of an entry of the reader's `ta_data`. */
  datatype Activity = Activity(
    adcIntegral: nat,
    adcPeak: nat,
    algorithm: nat,
    channelEnd: int,
    channelPeak: int,
    channelStart: int,
    detid: nat,
    timeActivity: nat,
    timeEnd: nat,
    timePeak: nat,
    timeStart: nat,
    activityType: nat,
    version: nat)

  /** An all-zero candidate: what a zeroed NumPy record holds. */
  const ZeroCandidate := Candidate(0, 0, 0, 0, 0, 0, 0, 0)
  /** An all-zero activity: what a zeroed NumPy record holds. */
  const ZeroActivity := Activity(0, 0, 0, 0, 0, 0, 0, 0, 0, 0, 0, 0, 0)

  /** Field widths in bytes, in field order. */
  const CandidateWidths: seq<nat> := [1, 2, 8, 8, 8, 8, 1, 2]
  const ActivityWidths: seq<nat> := [8, 8, 1, 4, 4, 4, 2, 8, 8, 8, 8, 1, 2]

  /** The header width H and the activity width A, both positive. */
  const HeaderWidth: nat := 38
  const ActivityWidth: nat := 66

  lemma WidthsAdd()
    ensures Sum(CandidateWidths) == HeaderWidth
    ensures Sum(ActivityWidths) == ActivityWidth
  {
    var c := CandidateWidths;
    assert c[1..] == [2, 8, 8, 8, 8, 1, 2];
    assert c[2..] == [8, 8, 8, 8, 1, 2];
    assert c[3..] == [8, 8, 8, 1, 2];
    assert c[4..] == [8, 8, 1, 2];
    assert c[5..] == [8, 1, 2];
    assert c[6..] == [1, 2];
    assert c[7..] == [2];
    assert c[8..] == [];
    var a := ActivityWidths;
    assert a[1..] == [8, 1, 4, 4, 4, 2, 8, 8, 8, 8, 1, 2];
    assert a[2..] == [1, 4, 4, 4, 2, 8, 8, 8, 8, 1, 2];
    assert a[3..] == [4, 4, 4, 2, 8, 8, 8, 8, 1, 2];
    assert a[4..] == [4, 4, 2, 8, 8, 8, 8, 1, 2];
    assert a[5..] == [4, 2, 8, 8, 8, 8, 1, 2];
    assert a[6..] == [2, 8, 8, 8, 8, 1, 2];
    assert a[7..] == [8, 8, 8, 8, 1, 2];
    assert a[8..] == [8, 8, 8, 1, 2];
    assert a[9..] == [8, 8, 1, 2];
    assert a[10..] == [8, 1, 2];
    assert a[11..] == [1, 2];
    assert a[12..] == [2];
    assert a[13..] == [];
  }

  /** The number of bytes a candidate with `n` inputs occupies: H + n*A. */
  function RecordSize(n: nat): (size: nat)
    ensures size >= HeaderWidth > 0
  {
    HeaderWidth + n * ActivityWidth
  }

  /** Every field of the candidate fits its width. */
  predicate ValidCandidate(c: Candidate)
  {
    && c.algorithm < TwoTo8 && c.detid < TwoTo16 && c.numTas < TwoTo64
    && c.timeCandidate < TwoTo64 && c.timeEnd < TwoTo64 && c.timeStart < TwoTo64
    && c.candidateType < TwoTo8 && c.version < TwoTo16
  }

  /** Every field of the activity fits its width. */
  predicate ValidActivity(a: Activity)
  {
    && a.adcIntegral < TwoTo64 && a.adcPeak < TwoTo64 && a.algorithm < TwoTo8
    && IsInt32(a.channelEnd) && IsInt32(a.channelPeak) && IsInt32(a.channelStart)
    && a.detid < TwoTo16
    && a.timeActivity < TwoTo64 && a.timeEnd < TwoTo64 && a.timePeak < TwoTo64
    && a.timeStart < TwoTo64
    && a.activityType < TwoTo8 && a.version < TwoTo16
  }

  /** The stored field values of a candidate, in layout order. */
  function CandidateFields(c: Candidate): seq<nat>
  {
    [c.algorithm, c.detid, c.numTas, c.timeCandidate, c.timeEnd, c.timeStart,
     c.candidateType, c.version]
  }

  /** The stored field values of an activity, in layout order; the three
      channels are stored as 32-bit two's-complement patterns. */
  function ActivityFields(a: Activity): seq<nat>
    requires ValidActivity(a)
  {
    [a.adcIntegral, a.adcPeak, a.algorithm,
     ToTwosComplement32(a.channelEnd), ToTwosComplement32(a.channelPeak),
     ToTwosComplement32(a.channelStart),
     a.detid, a.timeActivity, a.timeEnd, a.timePeak, a.timeStart,
     a.activityType, a.version]
  }

  /** The candidate whose stored fields are `v`. */
  function CandidateOfFields(v: seq<nat>): Candidate
    requires |v| == |CandidateWidths|
  {
    Candidate(v[0], v[1], v[2], v[3], v[4], v[5], v[6], v[7])
  }

  /** The activity whose stored fields are `v`. */
  function ActivityOfFields(v: seq<nat>): Activity
    requires Fits(v, ActivityWidths)
  {
    FieldRanges();
    assert ActivityWidths[3] == 4 && ActivityWidths[4] == 4 && ActivityWidths[5] == 4;
    Activity(v[0], v[1], v[2],
      FromTwosComplement32(v[3]), FromTwosComplement32(v[4]), FromTwosComplement32(v[5]),
      v[6], v[7], v[8], v[9], v[10], v[11], v[12])
  }

  /** A valid candidate's fields fit the header layout, and only a valid
      candidate's do. */
  lemma CandidateFieldsFit(c: Candidate)
    ensures ValidCandidate(c) <==> Fits(CandidateFields(c), CandidateWidths)
    ensures CandidateOfFields(CandidateFields(c)) == c
  {
    FieldRanges();
    var v := CandidateFields(c);
    var w := CandidateWidths;
    assert w[0] == 1 && w[1] == 2 && w[2] == 8 && w[3] == 8;
    assert w[4] == 8 && w[5] == 8 && w[6] == 1 && w[7] == 2;
    if ValidCandidate(c) {
      forall i | 0 <= i < |v| ensures v[i] < Pow256(w[i]) {
      }
    }
    if Fits(v, w) {
      assert v[0] < Pow256(w[0]) && v[1] < Pow256(w[1]) && v[2] < Pow256(w[2]);
      assert v[3] < Pow256(w[3]) && v[4] < Pow256(w[4]) && v[5] < Pow256(w[5]);
      assert v[6] < Pow256(w[6]) && v[7] < Pow256(w[7]);
    }
  }

  /** Stored fields that fit the header layout make a valid candidate, and
      storing it again gives them back. */
  lemma CandidateOfFieldsInverse(v: seq<nat>)
    requires Fits(v, CandidateWidths)
    ensures ValidCandidate(CandidateOfFields(v))
    ensures CandidateFields(CandidateOfFields(v)) == v
  {
    var c := CandidateOfFields(v);
    assert CandidateFields(c) == v;
    CandidateFieldsFit(c);
  }

  /** A valid activity's stored fields fit the activity layout and decode
      back to it. */
  lemma ActivityFieldsFit(a: Activity)
    requires ValidActivity(a)
    ensures Fits(ActivityFields(a), ActivityWidths)
    ensures ActivityOfFields(ActivityFields(a)) == a
  {
    FieldRanges();
    var v := ActivityFields(a);
    var w := ActivityWidths;
    assert w[0] == 8 && w[1] == 8 && w[2] == 1 && w[3] == 4 && w[4] == 4;
    assert w[5] == 4 && w[6] == 2 && w[7] == 8 && w[8] == 8 && w[9] == 8;
    assert w[10] == 8 && w[11] == 1 && w[12] == 2;
    forall i | 0 <= i < |v| ensures v[i] < Pow256(w[i]) {
    }
  }

  /** Stored fields that fit the activity layout make a valid activity, and
      storing it again gives them back. */
  lemma ActivityOfFieldsInverse(v: seq<nat>)
    requires Fits(v, ActivityWidths)
    ensures ValidActivity(ActivityOfFields(v))
    ensures ActivityFields(ActivityOfFields(v)) == v
  {
    FieldRanges();
    var w := ActivityWidths;
    assert w[0] == 8 && w[1] == 8 && w[2] == 1 && w[3] == 4 && w[4] == 4;
    assert w[5] == 4 && w[6] == 2 && w[7] == 8 && w[8] == 8 && w[9] == 8;
    assert w[10] == 8 && w[11] == 1 && w[12] == 2;
    assert v[0] < Pow256(w[0]) && v[1] < Pow256(w[1]) && v[2] < Pow256(w[2]);
    assert v[3] < Pow256(w[3]) && v[4] < Pow256(w[4]) && v[5] < Pow256(w[5]);
    assert v[6] < Pow256(w[6]) && v[7] < Pow256(w[7]) && v[8] < Pow256(w[8]);
    assert v[9] < Pow256(w[9]) && v[10] < Pow256(w[10]) && v[11] < Pow256(w[11]);
    assert v[12] < Pow256(w[12]);
    var a := ActivityOfFields(v);
    TwosComplementInverse(v[3]);
    TwosComplementInverse(v[4]);
    TwosComplementInverse(v[5]);
    assert ActivityFields(a) == v;
  }

  /** The candidate header at the start of `s`: each field read at its
      offset, the total width of the fields before it. */
  function DecodeCandidate(s: seq<byte>): (c: Candidate)
    requires |s| >= HeaderWidth
    ensures ValidCandidate(c)
  {
    FieldRanges();
    Candidate(ReadUint(s, 1), ReadUint(s[1..], 2), ReadUint(s[3..], 8), ReadUint(s[11..], 8),
      ReadUint(s[19..], 8), ReadUint(s[27..], 8), ReadUint(s[35..], 1), ReadUint(s[36..], 2))
  }

  /** The activity record at the start of `s`, laid out the same way; the
      three channels are 32-bit two's-complement patterns. */
  function DecodeActivity(s: seq<byte>): (a: Activity)
    requires |s| >= ActivityWidth
    ensures ValidActivity(a)
  {
    FieldRanges();
    Activity(ReadUint(s, 8), ReadUint(s[8..], 8), ReadUint(s[16..], 1),
      FromTwosComplement32(ReadUint(s[17..], 4)), FromTwosComplement32(ReadUint(s[21..], 4)),
      FromTwosComplement32(ReadUint(s[25..], 4)), ReadUint(s[29..], 2), ReadUint(s[31..], 8),
      ReadUint(s[39..], 8), ReadUint(s[47..], 8), ReadUint(s[55..], 8), ReadUint(s[63..], 1),
      ReadUint(s[64..], 2))
  }

  /** The field offsets of the header layout. */
  lemma CandidateOffsets()
    ensures var w := CandidateWidths;
      && Sum(w[..0]) == 0 && Sum(w[..1]) == 1 && Sum(w[..2]) == 3 && Sum(w[..3]) == 11
      && Sum(w[..4]) == 19 && Sum(w[..5]) == 27 && Sum(w[..6]) == 35 && Sum(w[..7]) == 36
  {
    var w := CandidateWidths;
    assert w[..0] == [];
    SumPrefixStep(w, 0); SumPrefixStep(w, 1); SumPrefixStep(w, 2); SumPrefixStep(w, 3);
    SumPrefixStep(w, 4); SumPrefixStep(w, 5); SumPrefixStep(w, 6);
  }

  /** The field offsets of the activity layout. */
  lemma ActivityOffsets()
    ensures var w := ActivityWidths;
      && Sum(w[..0]) == 0 && Sum(w[..1]) == 8 && Sum(w[..2]) == 16 && Sum(w[..3]) == 17
      && Sum(w[..4]) == 21 && Sum(w[..5]) == 25 && Sum(w[..6]) == 29 && Sum(w[..7]) == 31
      && Sum(w[..8]) == 39 && Sum(w[..9]) == 47 && Sum(w[..10]) == 55 && Sum(w[..11]) == 63
      && Sum(w[..12]) == 64
  {
    var w := ActivityWidths;
    assert w[..0] == [];
    SumPrefixStep(w, 0); SumPrefixStep(w, 1); SumPrefixStep(w, 2); SumPrefixStep(w, 3);
    SumPrefixStep(w, 4); SumPrefixStep(w, 5); SumPrefixStep(w, 6); SumPrefixStep(w, 7);
    SumPrefixStep(w, 8); SumPrefixStep(w, 9); SumPrefixStep(w, 10); SumPrefixStep(w, 11);
  }

  /** The header decode reads exactly the fields of the header layout. */
  lemma DecodeCandidateFields(s: seq<byte>)
    requires |s| >= HeaderWidth
    ensures Sum(CandidateWidths) <= |s|
    ensures DecodeCandidate(s) == CandidateOfFields(ReadFields(s, CandidateWidths))
  {
    WidthsAdd();
    CandidateOffsets();
    var w := CandidateWidths;
    ReadFieldsAt(s, w, 0, 0);
    ReadFieldsAt(s, w, 1, 1);
    ReadFieldsAt(s, w, 2, 3);
    ReadFieldsAt(s, w, 3, 11);
    ReadFieldsAt(s, w, 4, 19);
    ReadFieldsAt(s, w, 5, 27);
    ReadFieldsAt(s, w, 6, 35);
    ReadFieldsAt(s, w, 7, 36);
  }

  /** The activity decode reads exactly the fields of the activity layout. */
  lemma DecodeActivityFields(s: seq<byte>)
    requires |s| >= ActivityWidth
    ensures Sum(ActivityWidths) <= |s|
    ensures DecodeActivity(s) == ActivityOfFields(ReadFields(s, ActivityWidths))
  {
    WidthsAdd();
    ActivityOffsets();
    var w := ActivityWidths;
    ReadFieldsAt(s, w, 0, 0);
    ReadFieldsAt(s, w, 1, 8);
    ReadFieldsAt(s, w, 2, 16);
    ReadFieldsAt(s, w, 3, 17);
    ReadFieldsAt(s, w, 4, 21);
    ReadFieldsAt(s, w, 5, 25);
    ReadFieldsAt(s, w, 6, 29);
    ReadFieldsAt(s, w, 7, 31);
    ReadFieldsAt(s, w, 8, 39);
    ReadFieldsAt(s, w, 9, 47);
    ReadFieldsAt(s, w, 10, 55);
    ReadFieldsAt(s, w, 11, 63);
    ReadFieldsAt(s, w, 12, 64);
  }

  /** Every activity of the group fits the layout. */
  predicate ValidGroup(g: seq<Activity>)
  {
    forall i :: 0 <= i < |g| ==> ValidActivity(g[i])
  }

  /** The `n` activities that follow the header at the start of `s`: the k-th
      one starts H + k*A bytes in. */
  function DecodeGroup(s: seq<byte>, n: nat): (g: seq<Activity>)
    requires |s| >= RecordSize(n)
    ensures |g| == n
  {
    if n == 0 then []
    else DecodeGroup(s, n - 1) + [DecodeActivity(s[HeaderWidth + (n - 1) * ActivityWidth..])]
  }

  /** A record with fewer activities is shorter. */
  lemma RecordSizeMonotone(k: nat, n: nat)
    requires k <= n
    ensures RecordSize(k) <= RecordSize(n)
  {
  }

  /** The group of the first k+1 activities extends that of the first k by
      the activity H + k*A bytes in. */
  lemma DecodeGroupSnoc(s: seq<byte>, k: nat)
    requires |s| >= RecordSize(k + 1)
    ensures HeaderWidth + k * ActivityWidth + ActivityWidth <= |s|
    ensures RecordSize(k) <= |s|
    ensures DecodeGroup(s, k + 1) == DecodeGroup(s, k) + [DecodeActivity(s[HeaderWidth + k * ActivityWidth..])]
  {
  }

  /** The header bytes of a candidate. */
  function EncodeCandidate(c: Candidate): (r: seq<byte>)
    requires ValidCandidate(c)
    ensures |r| == HeaderWidth
  {
    WidthsAdd();
    CandidateFieldsFit(c);
    WriteFields(CandidateFields(c), CandidateWidths)
  }

  /** The bytes of one activity record. */
  function EncodeActivity(a: Activity): (r: seq<byte>)
    requires ValidActivity(a)
    ensures |r| == ActivityWidth
  {
    WidthsAdd();
    ActivityFieldsFit(a);
    WriteFields(ActivityFields(a), ActivityWidths)
  }

  /** A candidate's activities laid end to end. */
  function EncodeGroup(g: seq<Activity>): (r: seq<byte>)
    requires ValidGroup(g)
    ensures |r| == |g| * ActivityWidth
  {
    if g == [] then []
    else EncodeGroup(g[..|g| - 1]) + EncodeActivity(g[|g| - 1])
  }

  /** Decoding an encoded header yields the candidate, whatever follows it. */
  lemma CandidateRoundTrip(c: Candidate, rest: seq<byte>)
    requires ValidCandidate(c)
    ensures DecodeCandidate(EncodeCandidate(c) + rest) == c
  {
    WidthsAdd();
    CandidateFieldsFit(c);
    ReadWriteFields(CandidateFields(c), CandidateWidths, rest);
    DecodeCandidateFields(EncodeCandidate(c) + rest);
  }

  /** Decoding an encoded activity yields it, whatever follows it. */
  lemma ActivityRoundTrip(a: Activity, rest: seq<byte>)
    requires ValidActivity(a)
    ensures DecodeActivity(EncodeActivity(a) + rest) == a
  {
    WidthsAdd();
    ActivityFieldsFit(a);
    ReadWriteFields(ActivityFields(a), ActivityWidths, rest);
    DecodeActivityFields(EncodeActivity(a) + rest);
  }

  /** A header decode depends only on the first H bytes. */
  lemma CandidatePrefix(s: seq<byte>, t: seq<byte>)
    requires |s| >= HeaderWidth
    ensures DecodeCandidate(s + t) == DecodeCandidate(s)
  {
    WidthsAdd();
    ReadFieldsPrefix(s, t, CandidateWidths);
    DecodeCandidateFields(s);
    DecodeCandidateFields(s + t);
  }

  /** Dropping a whole prefix plus `off` more bytes. */
  lemma SkipPrefix(head: seq<byte>, tail: seq<byte>, off: nat)
    requires off <= |tail|
    ensures (head + tail)[|head| + off..] == tail[off..]
  {
  }

  /** Decoding the activities of an encoded record yields the group,
      whatever follows it. */
  lemma {:induction false} GroupRoundTrip(c: Candidate, g: seq<Activity>, rest: seq<byte>)
    requires ValidCandidate(c)
    requires ValidGroup(g)
    ensures |EncodeCandidate(c) + EncodeGroup(g) + rest| >= RecordSize(|g|)
    ensures DecodeGroup(EncodeCandidate(c) + EncodeGroup(g) + rest, |g|) == g
    decreases |g|
  {
    if g != [] {
      var init := g[..|g| - 1];
      var x := g[|g| - 1];
      assert g == init + [x];
      var head := EncodeCandidate(c);
      var front := head + EncodeGroup(init);
      var tail := EncodeActivity(x) + rest;
      var s := head + EncodeGroup(g) + rest;
      assert EncodeGroup(g) == EncodeGroup(init) + EncodeActivity(x);
      Reassociate(head, EncodeGroup(init), EncodeActivity(x), rest);
      assert s == front + tail;
      GroupRoundTrip(c, init, tail);
      assert DecodeGroup(s, |g| - 1) == init;
      assert |front| == HeaderWidth + (|g| - 1) * ActivityWidth;
      SkipPrefix(front, tail, 0);
      ActivityRoundTrip(x, rest);
      assert DecodeActivity(s[HeaderWidth + (|g| - 1) * ActivityWidth..]) == x;
    }
  }
}
