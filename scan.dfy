/** What the reader's scan of one fragment payload produces, as a function
    of the payload bytes, and the properties of that scan.

    The scan starts at byte 0 and, while bytes remain, decodes one candidate
    header there, then that candidate's activities, and moves on by the
    candidate's size H + n*A. A record that would need more bytes than remain
    ends the scan as truncated; the records before it are kept and the
    partial one is not. */
module Scanner {
  import opened Collections
  import opened Bytes
  import opened Records

  /** The candidates decoded in order, their activity groups in the same
      order, the number of bytes the complete records occupy, and whether
      the scan stopped at a record that does not fit in the payload. */
  datatype ScanResult = ScanResult(
    candidates: seq<Candidate>,
    groups: seq<seq<Activity>>,
    consumed: nat,
    truncated: bool)

  /** One activity group per candidate, each as long as its candidate's
      input count: the reader's `len(tc_data) == len(ta_data)` and
      `len(ta_data[i]) == tc_data[i]['num_tas']`. */
  ghost predicate Aligned(cs: seq<Candidate>, gs: seq<seq<Activity>>)
  {
    |cs| == |gs| && forall i :: 0 <= i < |cs| ==> |gs[i]| == cs[i].numTas
  }

  /** Every decoded record fits the layout. */
  ghost predicate AllValid(cs: seq<Candidate>, gs: seq<seq<Activity>>)
  {
    (forall i :: 0 <= i < |cs| ==> ValidCandidate(cs[i]))
    && (forall i :: 0 <= i < |gs| ==> ValidGroup(gs[i]))
  }

  /** The bytes the given candidates occupy, H + n*A each. */
  function TotalSize(cs: seq<Candidate>): nat
  {
    if cs == [] then 0 else RecordSize(cs[0].numTas) + TotalSize(cs[1..])
  }

  /** The scan of a payload: header at offset 0, then its activities, then
      the next record at offset H + n*A, until the payload is used up or a
      record does not fit. */
  function Scan(s: seq<byte>): (r: ScanResult)
    ensures |r.candidates| == |r.groups|
    ensures if r.truncated then r.consumed < |s| else r.consumed == |s|
    decreases |s|
  {
    if |s| == 0 then ScanResult([], [], 0, false)
    else if |s| < HeaderWidth then ScanResult([], [], 0, true)
    else
      var c := DecodeCandidate(s);
      var size := RecordSize(c.numTas);
      if size > |s| then ScanResult([], [], 0, true)
      else
        var rest := Scan(s[size..]);
        ScanResult([c] + rest.candidates, [DecodeGroup(s, c.numTas)] + rest.groups,
          size + rest.consumed, rest.truncated)
  }

  /** One step of the scan: a record `c` with activities `g` that fits is
      decoded at offset 0 and the scan goes on right after it, at `rest`. */
  lemma ScanStep(s: seq<byte>, c: Candidate, g: seq<Activity>, size: nat, rest: seq<byte>)
    requires |s| >= HeaderWidth
    requires c == DecodeCandidate(s) && size == RecordSize(c.numTas) <= |s|
    requires g == DecodeGroup(s, c.numTas) && rest == s[size..]
    ensures Scan(s) == After([c], [g], size, Scan(rest))
  {
  }

  /** The alignment of the scan: one activity group per candidate, as
      long as its input count. */
  lemma {:induction false} ScanAligned(s: seq<byte>)
    ensures Aligned(Scan(s).candidates, Scan(s).groups)
    decreases |s|
  {
    if |s| >= HeaderWidth && RecordSize(DecodeCandidate(s).numTas) <= |s| {
      var c := DecodeCandidate(s);
      var size := RecordSize(c.numTas);
      ScanStep(s, c, DecodeGroup(s, c.numTas), size, s[size..]);
      ScanAligned(s[size..]);
      AlignedCons(c, DecodeGroup(s, c.numTas), Scan(s[size..]).candidates, Scan(s[size..]).groups);
    }
  }

  /** The byte accounting of the scan: the complete records occupy
      exactly `consumed` bytes, and that is the whole payload unless the scan
      was truncated. */
  lemma {:induction false} ScanConsumed(s: seq<byte>)
    ensures Scan(s).consumed == TotalSize(Scan(s).candidates)
    ensures Scan(s).consumed <= |s|
    ensures Scan(s).truncated <==> Scan(s).consumed < |s|
    decreases |s|
  {
    if |s| >= HeaderWidth && RecordSize(DecodeCandidate(s).numTas) <= |s| {
      var c := DecodeCandidate(s);
      var size := RecordSize(c.numTas);
      ScanStep(s, c, DecodeGroup(s, c.numTas), size, s[size..]);
      ScanConsumed(s[size..]);
      TotalSizeCons(c, Scan(s[size..]).candidates);
    }
  }

  lemma AlignedCons(c: Candidate, g: seq<Activity>, cs: seq<Candidate>, gs: seq<seq<Activity>>)
    requires |g| == c.numTas && Aligned(cs, gs)
    ensures Aligned([c] + cs, [g] + gs)
  {
    var cs', gs' := [c] + cs, [g] + gs;
    forall i | 0 <= i < |cs'| ensures |gs'[i]| == cs'[i].numTas {
      if i > 0 {
        assert cs'[i] == cs[i - 1] && gs'[i] == gs[i - 1];
      }
    }
  }

  lemma TotalSizeCons(c: Candidate, cs: seq<Candidate>)
    ensures TotalSize([c] + cs) == RecordSize(c.numTas) + TotalSize(cs)
  {
    assert ([c] + cs)[1..] == cs;
  }

  /** `r` preceded by records already decoded from the first `offset` bytes. */
  function After(cs: seq<Candidate>, gs: seq<seq<Activity>>, offset: nat, r: ScanResult): ScanResult
  {
    ScanResult(cs + r.candidates, gs + r.groups, offset + r.consumed, r.truncated)
  }

  /** Records decoded so far, then one more step of the scan, is the same
      as the extended record lists before the remaining scan. */
  lemma AfterAfter(cs: seq<Candidate>, gs: seq<seq<Activity>>, offset: nat,
                   c: Candidate, g: seq<Activity>, size: nat, r: ScanResult)
    ensures After(cs, gs, offset, After([c], [g], size, r))
         == After(cs + [c], gs + [g], offset + size, r)
  {
    Associate(cs, [c], r.candidates);
    Associate(gs, [g], r.groups);
  }

  /** Nothing decoded yet: the scan of the payload is the remaining scan. */
  lemma AfterNothing(r: ScanResult)
    ensures After([], [], 0, r) == r
  {
    assert [] + r.candidates == r.candidates;
    assert [] + r.groups == r.groups;
  }

  /** The loop step of the reader: with the records before offset `i`
      decoded, decoding the record at `i` moves the offset past it. */
  lemma ScanAdvance(frag: seq<byte>, cs: seq<Candidate>, gs: seq<seq<Activity>>, i: nat,
                    c: Candidate, g: seq<Activity>, next: nat)
    requires i <= |frag| && |frag| - i >= HeaderWidth
    requires c == DecodeCandidate(frag[i..]) && next == i + RecordSize(c.numTas) <= |frag|
    requires g == DecodeGroup(frag[i..], c.numTas)
    requires Scan(frag) == After(cs, gs, i, Scan(frag[i..]))
    ensures Scan(frag) == After(cs + [c], gs + [g], next, Scan(frag[next..]))
  {
    var size := RecordSize(c.numTas);
    ScanStepAt(frag, i, c, g, next);
    AfterAfter(cs, gs, i, c, g, size, Scan(frag[next..]));
  }

  /** One step of the scan at offset `i` of the payload. */
  lemma ScanStepAt(frag: seq<byte>, i: nat, c: Candidate, g: seq<Activity>, next: nat)
    requires i <= |frag| && |frag| - i >= HeaderWidth
    requires c == DecodeCandidate(frag[i..]) && next == i + RecordSize(c.numTas) <= |frag|
    requires g == DecodeGroup(frag[i..], c.numTas)
    ensures Scan(frag[i..]) == After([c], [g], next - i, Scan(frag[next..]))
  {
    var view, size := frag[i..], next - i;
    DropDrop(frag, i, size, next);
    ScanStep(view, c, g, size, frag[next..]);
  }

  /** The reader's truncated exit: the record at offset `i` does not fit,
      so the scan stops there with the records before it. */
  lemma ScanStopsAt(frag: seq<byte>, cs: seq<Candidate>, gs: seq<seq<Activity>>, i: nat)
    requires i < |frag|
    requires |frag| - i < HeaderWidth || RecordSize(DecodeCandidate(frag[i..]).numTas) > |frag| - i
    requires Scan(frag) == After(cs, gs, i, Scan(frag[i..]))
    ensures Scan(frag) == ScanResult(cs, gs, i, true)
  {
    assert Scan(frag[i..]) == ScanResult([], [], 0, true);
    AfterEnd(cs, gs, i, true);
  }

  /** The reader's normal exit: the whole payload has been decoded. */
  lemma ScanEndsAt(frag: seq<byte>, cs: seq<Candidate>, gs: seq<seq<Activity>>, i: nat)
    requires i == |frag|
    requires Scan(frag) == After(cs, gs, i, Scan(frag[i..]))
    ensures Scan(frag) == ScanResult(cs, gs, i, false)
  {
    assert frag[i..] == [];
    AfterEnd(cs, gs, i, false);
  }

  /** Records decoded so far, then a scan that decodes nothing more. */
  lemma AfterEnd(cs: seq<Candidate>, gs: seq<seq<Activity>>, offset: nat, truncated: bool)
    ensures After(cs, gs, offset, ScanResult([], [], 0, truncated)) == ScanResult(cs, gs, offset, truncated)
  {
    assert cs + [] == cs;
    assert gs + [] == gs;
  }

  /** Appending aligned records to aligned records keeps them aligned. */
  lemma AlignedConcat(cs: seq<Candidate>, gs: seq<seq<Activity>>,
                      cs': seq<Candidate>, gs': seq<seq<Activity>>)
    requires Aligned(cs, gs) && Aligned(cs', gs')
    ensures Aligned(cs + cs', gs + gs')
  {
    var xs, ys := cs + cs', gs + gs';
    forall i | 0 <= i < |xs| ensures |ys[i]| == xs[i].numTas {
      if i >= |cs| {
        assert xs[i] == cs'[i - |cs|] && ys[i] == gs'[i - |cs|];
      } else {
        assert xs[i] == cs[i] && ys[i] == gs[i];
      }
    }
  }

  /** Data already aligned stays aligned when a scan's records are appended. */
  lemma KeepAligned(cs: seq<Candidate>, gs: seq<seq<Activity>>, r: ScanResult)
    requires Aligned(r.candidates, r.groups)
    ensures Aligned(cs, gs) ==> Aligned(cs + r.candidates, gs + r.groups)
  {
    if Aligned(cs, gs) {
      AlignedConcat(cs, gs, r.candidates, r.groups);
    }
  }

  /** The bytes of one candidate record: its header, then its activities. */
  function EncodeRecord(c: Candidate, g: seq<Activity>): (r: seq<byte>)
    requires ValidCandidate(c) && ValidGroup(g)
    ensures |r| == RecordSize(|g|)
  {
    EncodeCandidate(c) + EncodeGroup(g)
  }

  /** A payload holding the given records back to back. */
  function EncodeFragment(cs: seq<Candidate>, gs: seq<seq<Activity>>): (r: seq<byte>)
    requires Aligned(cs, gs) && AllValid(cs, gs)
    ensures |r| == TotalSize(cs)
  {
    if cs == [] then []
    else
      assert Aligned(cs[1..], gs[1..]) && AllValid(cs[1..], gs[1..]) by {
        assert forall i :: 0 <= i < |cs| - 1 ==> cs[1..][i] == cs[i + 1] && gs[1..][i] == gs[i + 1];
      }
      EncodeRecord(cs[0], gs[0]) + EncodeFragment(cs[1..], gs[1..])
  }

  /** The first record of a payload that starts with an encoded record is
      that record, and the scan resumes at the bytes after it. */
  lemma RecordRoundTrip(c: Candidate, g: seq<Activity>, tail: seq<byte>, s: seq<byte>)
    requires ValidCandidate(c) && ValidGroup(g) && |g| == c.numTas
    requires s == EncodeRecord(c, g) + tail
    ensures |s| >= RecordSize(c.numTas)
    ensures DecodeCandidate(s) == c
    ensures DecodeGroup(s, c.numTas) == g
    ensures s[RecordSize(c.numTas)..] == tail
  {
    var head := EncodeCandidate(c);
    var body := EncodeGroup(g);
    Associate(head, body, tail);
    CandidateRoundTrip(c, body + tail);
    GroupRoundTrip(c, g, tail);
    SkipPrefix(head + body, tail, 0);
  }

  /** Dropping the first record keeps the rest aligned and valid. */
  lemma FragmentTail(cs: seq<Candidate>, gs: seq<seq<Activity>>)
    requires cs != [] && Aligned(cs, gs) && AllValid(cs, gs)
    ensures Aligned(cs[1..], gs[1..]) && AllValid(cs[1..], gs[1..])
    ensures EncodeFragment(cs, gs) == EncodeRecord(cs[0], gs[0]) + EncodeFragment(cs[1..], gs[1..])
  {
    assert forall i :: 0 <= i < |cs| - 1 ==> cs[1..][i] == cs[i + 1] && gs[1..][i] == gs[i + 1];
  }

  /** One record decoded, then the records of the rest. */
  lemma AfterCons(c: Candidate, g: seq<Activity>, size: nat,
                  cs: seq<Candidate>, gs: seq<seq<Activity>>, offset: nat, total: nat, r: ScanResult)
    requires total == size + offset
    ensures After([c], [g], size, After(cs, gs, offset, r)) == After([c] + cs, [g] + gs, total, r)
  {
    Associate([c], cs, r.candidates);
    Associate([g], gs, r.groups);
  }

  /** Scanning encoded records followed by any bytes `t` yields those
      records, then whatever the scan of `t` yields. */
  lemma {:induction false} ScanAfterRecords(cs: seq<Candidate>, gs: seq<seq<Activity>>, t: seq<byte>)
    requires Aligned(cs, gs) && AllValid(cs, gs)
    ensures Scan(EncodeFragment(cs, gs) + t) == After(cs, gs, TotalSize(cs), Scan(t))
    decreases |cs|
  {
    if cs == [] {
      assert EncodeFragment(cs, gs) + t == t;
      assert gs == [];
      AfterNothing(Scan(t));
    } else {
      var c, g := cs[0], gs[0];
      FragmentTail(cs, gs);
      var tail := EncodeFragment(cs[1..], gs[1..]);
      var s := EncodeFragment(cs, gs) + t;
      Associate(EncodeRecord(c, g), tail, t);
      RecordRoundTrip(c, g, tail + t, s);
      ScanStep(s, c, g, RecordSize(c.numTas), tail + t);
      ScanAfterRecords(cs[1..], gs[1..], t);
      AfterCons(c, g, RecordSize(c.numTas), cs[1..], gs[1..], TotalSize(cs[1..]), TotalSize(cs), Scan(t));
      HeadSplit(cs);
      HeadSplit(gs);
    }
  }

  /** The round trip: scanning a payload built from aligned
      records yields exactly those records, consumes the whole payload and is
      not truncated. */
  lemma ScanEncodeFragment(cs: seq<Candidate>, gs: seq<seq<Activity>>)
    requires Aligned(cs, gs) && AllValid(cs, gs)
    ensures Scan(EncodeFragment(cs, gs)) == ScanResult(cs, gs, TotalSize(cs), false)
  {
    var s := EncodeFragment(cs, gs);
    assert s + [] == s;
    ScanAfterRecords(cs, gs, []);
    AfterEnd(cs, gs, TotalSize(cs), false);
  }

  /** A record cut short anywhere is reported as truncated, with nothing
      decoded from it. */
  lemma ScanPartialRecord(c: Candidate, g: seq<Activity>, k: nat)
    requires ValidCandidate(c) && ValidGroup(g) && |g| == c.numTas
    requires 0 < k < RecordSize(|g|)
    ensures Scan(EncodeRecord(c, g)[..k]) == ScanResult([], [], 0, true)
  {
    var part := EncodeRecord(c, g)[..k];
    assert |part| == k;
    if k >= HeaderWidth {
      var j := k - HeaderWidth;
      PrefixOfConcat(EncodeCandidate(c), EncodeGroup(g), k, j);
      CandidateRoundTrip(c, EncodeGroup(g)[..j]);
      assert DecodeCandidate(part) == c;
    }
  }

  /** The truncated outcome: complete records followed by a record cut
      short are all kept, the scan stops at the cut record's offset and
      reports truncation. */
  lemma ScanTruncated(cs: seq<Candidate>, gs: seq<seq<Activity>>, c: Candidate, g: seq<Activity>, k: nat)
    requires Aligned(cs, gs) && AllValid(cs, gs)
    requires ValidCandidate(c) && ValidGroup(g) && |g| == c.numTas
    requires 0 < k < RecordSize(|g|)
    ensures Scan(EncodeFragment(cs, gs) + EncodeRecord(c, g)[..k]) == ScanResult(cs, gs, TotalSize(cs), true)
  {
    ScanAfterRecords(cs, gs, EncodeRecord(c, g)[..k]);
    ScanPartialRecord(c, g, k);
    AfterEnd(cs, gs, TotalSize(cs), true);
  }
}
