/** The cluster slave's reader: a scan of the region the master has written,
    bounded by the number of words the master has published, that answers a
    query with a pointer into the region rather than a copy.

    The region start and the published word count are parameters; how the
    master publishes the count is not modelled.
 */
module ClusterSlavePull {
  import opened RecordFormat
  import opened MemoryUtils

  /** What the slave's pull returns: the word address of the value bytes
      inside the region, with the value's size and type from the header. */
  datatype ValueEntry = ValueEntry(data: nat, size: nat, vtype: nat)

  /** What the slave's pull does with the header at word `cur`. A record
      whose type or size differs from the query is stepped over without
      reading its payload; otherwise its key words are compared with the
      query and, when they agree, a pointer to its value is the answer. */
  function BoundedStep(mem: seq<Word>, cur: nat, kt: nat, ks: nat, k: seq<Byte>): (s: Step<ValueEntry>)
    requires ks <= |k| && cur < |mem|
    ensures s.Advance? ==> s.next > cur
  {
    var info := mem[cur];
    var kw, vw := Words(KeySize(info)), Words(ValueSize(info));
    if KeyType(info) != kt || KeySize(info) != ks then Advance(cur + 1 + kw + vw)
    else if cur + 1 + kw > |mem| then Answer(Overrun)
    else if RegionBytes(mem, cur + 1, ks) == k[..ks] then
      Answer(Found(ValueEntry(cur + 1 + kw, ValueSize(info), ValueType(info))))
    else Advance(cur + 1 + kw + vw)
  }

  /** The bounded scan from word `cur` with headers read only below `end`.
      There is no sentinel and no zero-size skip: every header, zero or not,
      is a record. The value of a match is pointed to, never read. */
  function BoundedScan(mem: seq<Word>, cur: nat, end: nat, kt: nat, ks: nat, k: seq<Byte>): Lookup<ValueEntry>
    requires ks <= |k|
    decreases end - cur
  {
    if cur >= end then NotFound
    else if cur >= |mem| then Overrun
    else match BoundedStep(mem, cur, kt, ks, k)
      case Advance(next) => BoundedScan(mem, next, end, kt, ks, k)
      case Answer(result) => result
  }

  /** The answer a log of records stored at `base` gives to a query, walked
      record by record: a pointer to the value of the first record that
      matches. */
  function EntryAnswer(recs: seq<Record>, base: nat, kt: nat, ks: nat, k: seq<Byte>): Lookup<ValueEntry>
    requires ks <= |k|
    decreases |recs|
  {
    if recs == [] then NotFound
    else if Matches(recs[0], kt, ks, k) then
      Found(ValueEntry(base + 1 + Words(|recs[0].key|), |recs[0].value|, ValueType(recs[0].info)))
    else EntryAnswer(recs[1..], base + |Encode(recs[0])|, kt, ks, k)
  }

  /** The slave's pull. The query's type and size come from bits 15-12 and
      11-0 of `kInfo`, the positions of the value fields in a record header. */
  method BoundedPull(mem: array<Word>, start: nat, totalWords: nat, kInfo: Word, k: seq<Byte>)
    returns (r: Lookup<ValueEntry>)
    requires ValueSize(kInfo) <= |k|
    ensures r == BoundedScan(mem[..], start, start + totalWords, ValueType(kInfo), ValueSize(kInfo), k)
  {
    var kt, ks := ValueType(kInfo), ValueSize(kInfo);
    var cur, end := start, start + totalWords;
    ghost var words := mem[..];
    while cur < end
      invariant BoundedScan(words, cur, end, kt, ks, k) == BoundedScan(words, start, end, kt, ks, k)
      decreases end - cur
    {
      if cur >= mem.Length {
        return Overrun;
      }
      var info := mem[cur];
      ghost var step := BoundedStep(words, cur, kt, ks, k);
      var kw, vw := Words(KeySize(info)), Words(ValueSize(info));
      if KeyType(info) != kt || KeySize(info) != ks {
        cur := cur + 1 + kw + vw;
        assert step == Advance(cur);
        continue;
      }
      if cur + 1 + kw > mem.Length {
        assert step == Answer(Overrun);
        return Overrun;
      }
      var eq, _ := ArrEquals(k, RegionBytes(mem[..], cur + 1, ks), ks);
      if eq {
        assert step == Answer(Found(ValueEntry(cur + 1 + kw, ValueSize(info), ValueType(info))));
        return Found(ValueEntry(cur + 1 + kw, ValueSize(info), ValueType(info)));
      }
      cur := cur + 1 + kw + vw;
      assert step == Advance(cur);
    }
    return NotFound;
  }

  /** Scanning from the first record of a stored log: a pointer to its
      value when it matches the query, the scan from the next record's header
      otherwise. */
  lemma BoundedScanRecord(mem: seq<Word>, base: nat, end: nat, r: Record, kt: nat, ks: nat, k: seq<Byte>)
    requires ks <= |k| && Stored(mem, base, Encode(r)) && Consistent(r)
    requires base + |Encode(r)| <= end
    ensures BoundedScan(mem, base, end, kt, ks, k) ==
      if Matches(r, kt, ks, k) then Found(ValueEntry(base + 1 + Words(|r.key|), |r.value|, ValueType(r.info)))
      else BoundedScan(mem, base + |Encode(r)|, end, kt, ks, k)
  {
    DecodeEncoded(mem, base, r);
  }

  /** Over a stored log of consistent records whose published end is the
      end of its last record, the bounded scan gives the record-by-record
      answer. */
  lemma {:induction false} BoundedScanWalksRecords(mem: seq<Word>, base: nat, end: nat, recs: seq<Record>, kt: nat, ks: nat, k: seq<Byte>)
    requires ks <= |k|
    requires Stored(mem, base, Layout(recs)) && AllConsistent(recs) && end == base + |Layout(recs)|
    ensures BoundedScan(mem, base, end, kt, ks, k) == EntryAnswer(recs, base, kt, ks, k)
    decreases |recs|
  {
    if recs != [] {
      BoundedWalkStep(mem, base, end, recs, kt, ks, k);
      if !Matches(recs[0], kt, ks, k) {
        BoundedScanWalksRecords(mem, base + |Encode(recs[0])|, end, recs[1..], kt, ks, k);
      }
    }
  }

  /** One record of the walk: the scan and the record-by-record answer both
      stop at the first record when it matches and both go on from the
      next record otherwise. */
  lemma BoundedWalkStep(mem: seq<Word>, base: nat, end: nat, recs: seq<Record>, kt: nat, ks: nat, k: seq<Byte>)
    requires ks <= |k| && recs != []
    requires Stored(mem, base, Layout(recs)) && AllConsistent(recs) && end == base + |Layout(recs)|
    ensures var next := base + |Encode(recs[0])|;
      && Stored(mem, next, Layout(recs[1..])) && AllConsistent(recs[1..]) && end == next + |Layout(recs[1..])|
      && (Matches(recs[0], kt, ks, k) ==>
            BoundedScan(mem, base, end, kt, ks, k) == EntryAnswer(recs, base, kt, ks, k))
      && (!Matches(recs[0], kt, ks, k) ==>
            && BoundedScan(mem, base, end, kt, ks, k) == BoundedScan(mem, next, end, kt, ks, k)
            && EntryAnswer(recs, base, kt, ks, k) == EntryAnswer(recs[1..], next, kt, ks, k))
  {
    StoredFirst(mem, base, recs);
    StoredRest(mem, base, recs);
    AllConsistentTail(recs);
    BoundedScanRecord(mem, base, end, recs[0], kt, ks, k);
  }

  /** The record-by-record answer points at the value of the oldest record
      that matches, at its offset in the log, or is NULL when none does. */
  lemma {:induction false} EntryAnswerFirst(recs: seq<Record>, base: nat, kt: nat, ks: nat, k: seq<Byte>)
    requires ks <= |k|
    ensures EntryAnswer(recs, base, kt, ks, k) ==
      match FirstMatch(recs, kt, ks, k)
      case None => NotFound
      case Some(i) =>
        Found(ValueEntry(base + Offset(recs, i) + 1 + Words(|recs[i].key|), |recs[i].value|, ValueType(recs[i].info)))
    decreases |recs|
  {
    if recs != [] {
      if Matches(recs[0], kt, ks, k) {
        assert recs[..0] == [];
      } else {
        EntryAnswerFirst(recs[1..], base + |Encode(recs[0])|, kt, ks, k);
        if FirstMatch(recs[1..], kt, ks, k).Some? {
          var i := FirstMatch(recs[1..], kt, ks, k).value;
          OffsetCons(recs, i);
          assert recs[i + 1] == recs[1..][i];
        }
      }
    }
  }

  /** Over a log whose published end is the end of its last record, the
      bounded scan returns a pointer to the value of the oldest record that
      matches, or NULL when none does. */
  lemma BoundedScanFindsFirst(mem: seq<Word>, base: nat, recs: seq<Record>, kt: nat, ks: nat, k: seq<Byte>)
    requires ks <= |k|
    requires Stored(mem, base, Layout(recs)) && AllConsistent(recs)
    ensures BoundedScan(mem, base, base + |Layout(recs)|, kt, ks, k) ==
      match FirstMatch(recs, kt, ks, k)
      case None => NotFound
      case Some(i) =>
        Found(ValueEntry(base + Offset(recs, i) + 1 + Words(|recs[i].key|), |recs[i].value|, ValueType(recs[i].info)))
  {
    BoundedScanWalksRecords(mem, base, base + |Layout(recs)|, recs, kt, ks, k);
    EntryAnswerFirst(recs, base, kt, ks, k);
  }

  /** The value of the oldest matching record lies, in place, right after
      its header and key words: where the bounded scan's pointer points. */
  lemma EntryPointsAtValue(mem: seq<Word>, base: nat, recs: seq<Record>, kt: nat, ks: nat, k: seq<Byte>)
    requires ks <= |k|
    requires Stored(mem, base, Layout(recs)) && AllConsistent(recs)
    requires FirstMatch(recs, kt, ks, k).Some?
    ensures var i := FirstMatch(recs, kt, ks, k).value;
      var data := base + Offset(recs, i) + 1 + Words(|recs[i].key|);
      data + Words(|recs[i].value|) <= |mem| && RegionBytes(mem, data, |recs[i].value|) == recs[i].value
  {
    var i := FirstMatch(recs, kt, ks, k).value;
    RecordAt(mem, base, recs, i);
    DecodeEncoded(mem, base + Offset(recs, i), recs[i]);
  }

  /** Words at or beyond the published end never change the answer for a log
      that ends there: a record the master is still writing is invisible. */
  lemma BoundedIgnoresUnpublished(mem: seq<Word>, mem': seq<Word>, base: nat, recs: seq<Record>, kt: nat, ks: nat, k: seq<Byte>)
    requires ks <= |k|
    requires Stored(mem, base, Layout(recs)) && AllConsistent(recs)
    requires base + |Layout(recs)| <= |mem'| && mem[..base + |Layout(recs)|] == mem'[..base + |Layout(recs)|]
    ensures BoundedScan(mem', base, base + |Layout(recs)|, kt, ks, k) == BoundedScan(mem, base, base + |Layout(recs)|, kt, ks, k)
  {
    StoredKept(mem, mem', base, Layout(recs), base + |Layout(recs)|);
    BoundedScanFindsFirst(mem, base, recs, kt, ks, k);
    BoundedScanFindsFirst(mem', base, recs, kt, ks, k);
  }

  /** A record whose type or size differs from the query is stepped over by
      exactly its payload words: the scan resumes right after them, and
      whatever those words hold does not change the answer. */
  lemma BoundedSkipIgnoresPayload(mem: seq<Word>, mem': seq<Word>, cur: nat, end: nat, kt: nat, ks: nat, k: seq<Byte>)
    requires ks <= |k|
    requires cur < end && cur < |mem| == |mem'| && mem'[cur] == mem[cur]
    requires KeyType(mem[cur]) != kt || KeySize(mem[cur]) != ks
    requires var p := cur + 1 + Words(KeySize(mem[cur])) + Words(ValueSize(mem[cur]));
      p <= |mem| && mem[p..] == mem'[p..]
    ensures BoundedScan(mem, cur, end, kt, ks, k) ==
      BoundedScan(mem, cur + 1 + Words(KeySize(mem[cur])) + Words(ValueSize(mem[cur])), end, kt, ks, k)
    ensures BoundedScan(mem', cur, end, kt, ks, k) == BoundedScan(mem, cur, end, kt, ks, k)
  {
    var p := cur + 1 + Words(KeySize(mem[cur])) + Words(ValueSize(mem[cur]));
    BoundedSuffix(mem, mem', p, p, end, kt, ks, k);
  }

  /** The step at `cur` reads nothing before `from`. */
  lemma BoundedStepSuffix(mem: seq<Word>, mem': seq<Word>, from: nat, cur: nat, kt: nat, ks: nat, k: seq<Byte>)
    requires ks <= |k|
    requires from <= cur < |mem| == |mem'| && mem[from..] == mem'[from..]
    ensures BoundedStep(mem', cur, kt, ks, k) == BoundedStep(mem, cur, kt, ks, k)
  {
    var info := mem[cur];
    assert mem'[cur] == mem'[from..][cur - from] == info;
    if KeyType(info) == kt && KeySize(info) == ks && cur + 1 + Words(ks) <= |mem| {
      RegionBytesSuffix(mem, mem', from, cur + 1, ks);
    }
  }

  /** The scan from `cur` reads nothing before `from`. */
  lemma {:induction false} BoundedSuffix(mem: seq<Word>, mem': seq<Word>, from: nat, cur: nat, end: nat, kt: nat, ks: nat, k: seq<Byte>)
    requires ks <= |k|
    requires from <= cur && from <= |mem| == |mem'| && mem[from..] == mem'[from..]
    ensures BoundedScan(mem', cur, end, kt, ks, k) == BoundedScan(mem, cur, end, kt, ks, k)
    decreases end - cur
  {
    if cur < end && cur < |mem| {
      BoundedStepSuffix(mem, mem', from, cur, kt, ks, k);
      if BoundedStep(mem, cur, kt, ks, k).Advance? {
        BoundedSuffix(mem, mem', from, BoundedStep(mem, cur, kt, ks, k).next, end, kt, ks, k);
      }
    }
  }
}
