/** The leaf core's store: `Put` appends a record at the caller's cursor and
    `Pull` scans the region from a start address up to the all-zero word
    that ends it, answering a query with a copy of the oldest matching value.

    The region is an array of words. The word after the last record is
    expected to be zero; a scan that would read past the array yields
    `Overrun`.
 */
module KeyValueCommands {
  import opened RecordFormat
  import opened MemoryUtils

  /** What the leaf's pull returns: the value's size and type from the
      header and a copy of its bytes. */
  datatype PullValue = PullValue(size: nat, vtype: nat, data: seq<Byte>)

  // ----- Pull -----

  /** What the leaf's pull does with the header at word `addr`. The zero
      word ends the scan. A header declaring a zero size is stepped over
      alone. A record whose type or size differs from the query is stepped
      over without reading its payload. Otherwise its key bytes are compared
      with the query and, when they agree, its value bytes are copied. */
  function SentinelStep(mem: seq<Word>, addr: nat, kt: nat, ks: nat, k: seq<Byte>): (s: Step<PullValue>)
    requires ks <= |k| && addr < |mem|
    ensures s.Advance? ==> s.next > addr
  {
    var info := mem[addr];
    if info == ZERO then Answer(NotFound)
    else if KeySize(info) == 0 || ValueSize(info) == 0 then Advance(addr + 1)
    else
      var kw, vw := Words(KeySize(info)), Words(ValueSize(info));
      if KeyType(info) != kt || KeySize(info) != ks then Advance(addr + 1 + kw + vw)
      else if addr + 1 + kw + vw > |mem| then Answer(Overrun)
      else if RegionBytes(mem, addr + 1, ks) == k[..ks] then
        Answer(Found(PullValue(ValueSize(info), ValueType(info), RegionBytes(mem, addr + 1 + kw, ValueSize(info)))))
      else Advance(addr + 1 + kw + vw)
  }

  /** The leaf's scan from word `addr` to the zero word. */
  function SentinelScan(mem: seq<Word>, addr: nat, kt: nat, ks: nat, k: seq<Byte>): Lookup<PullValue>
    requires ks <= |k|
    decreases |mem| - addr
  {
    if addr >= |mem| then Overrun
    else match SentinelStep(mem, addr, kt, ks, k)
      case Advance(next) => SentinelScan(mem, next, kt, ks, k)
      case Answer(result) => result
  }

  /** The leaf's pull. A zero `info` or a missing key is refused with NULL. */
  method Pull(mem: array<Word>, addr: nat, info: Word, k: Option<seq<Byte>>) returns (r: Lookup<PullValue>)
    requires k.Some? ==> KeySize(info) <= |k.value|
    ensures info == ZERO || k.None? ==> r == NotFound
    ensures info != ZERO && k.Some? ==> r == SentinelScan(mem[..], addr, KeyType(info), KeySize(info), k.value)
  {
    if info == ZERO || k.None? {
      return NotFound;
    }
    var key, kt, ks := k.value, KeyType(info), KeySize(info);
    var a := addr;
    ghost var words := mem[..];
    while true
      invariant SentinelScan(words, a, kt, ks, key) == SentinelScan(words, addr, kt, ks, key)
      decreases mem.Length - a
    {
      if a >= mem.Length {
        return Overrun;
      }
      var current := mem[a];
      ghost var step := SentinelStep(words, a, kt, ks, key);
      if current == ZERO {
        assert step == Answer(NotFound);
        return NotFound;
      }
      a := a + 1;
      var readKt, readKs := KeyType(current), KeySize(current);
      var vt, vs := ValueType(current), ValueSize(current);
      if readKs == 0 || vs == 0 {
        assert step == Advance(a);
        continue;
      }
      var kw, vw := Words(readKs), Words(vs);
      if readKt != kt || readKs != ks {
        a := a + kw + vw;
        assert step == Advance(a);
        continue;
      }
      if a + kw + vw > mem.Length {
        assert step == Answer(Overrun);
        return Overrun;
      }
      var kFound := a;
      a := a + kw;
      var vFound := a;
      a := a + vw;
      var eq, _ := ArrEquals(key, RegionBytes(mem[..], kFound, ks), ks);
      if eq {
        assert step == Answer(Found(PullValue(vs, vt, RegionBytes(words, vFound, vs))));
        return Found(PullValue(vs, vt, RegionBytes(mem[..], vFound, vs)));
      }
      assert step == Advance(a);
    }
  }

  // ----- Put -----

  /** `Put` writes only when both sizes are non-zero and both buffers exist. */
  predicate Accepts(info: Word, k: Option<seq<Byte>>, v: Option<seq<Byte>>)
  {
    KeySize(info) != 0 && ValueSize(info) != 0 && k.Some? && v.Some?
  }

  /** Copies `bytes` into the words from `cursor` on, padding the last word
      with zero bytes, and returns the cursor after them. */
  method Append(mem: array<Word>, cursor: nat, bytes: seq<Byte>) returns (next: nat)
    requires cursor + Words(|bytes|) <= mem.Length
    modifies mem
    ensures next == cursor + Words(|bytes|)
    ensures mem[..] == old(mem[..cursor]) + Pack(bytes) + old(mem[next..])
  {
    var ws := Pack(bytes);
    var i := 0;
    while i < |ws|
      invariant i <= |ws|
      invariant mem[..] == old(mem[..cursor]) + ws[..i] + old(mem[cursor + i..])
    {
      mem[cursor + i] := ws[i];
      assert ws[..i + 1] == ws[..i] + [ws[i]];
      i := i + 1;
    }
    assert ws[..i] == ws;
    next := cursor + |ws|;
  }

  /** The leaf's put: appends the info word, the key and the value at the
      cursor and reports the bytes written, or writes nothing and reports 0. */
  method Put(mem: array<Word>, cursor: nat, info: Word, k: Option<seq<Byte>>, v: Option<seq<Byte>>)
    returns (written: nat, next: nat)
    requires Accepts(info, k, v) ==> KeySize(info) <= |k.value| && ValueSize(info) <= |v.value|
    requires Accepts(info, k, v) ==> cursor + 1 + Words(KeySize(info)) + Words(ValueSize(info)) <= mem.Length
    modifies mem
    ensures !Accepts(info, k, v) ==> written == 0 && next == cursor && mem[..] == old(mem[..])
    ensures Accepts(info, k, v) ==>
      var r := Record(info, k.value[..KeySize(info)], v.value[..ValueSize(info)]);
      && WellFormed(r)
      && written == 4 + MultipleOf4(KeySize(info)) + MultipleOf4(ValueSize(info))
      && next == cursor + |Encode(r)| && 4 * |Encode(r)| == written
      && mem[..] == old(mem[..cursor]) + Encode(r) + old(mem[next..])
  {
    var ks, vs := KeySize(info), ValueSize(info);
    if !(ks != 0 && vs != 0 && k.Some? && v.Some?) {
      return 0, cursor;
    }
    ghost var m0 := mem[..];
    var key, value := k.value[..ks], v.value[..vs];
    PackWordBytesOf(info);
    var c1 := Append(mem, cursor, WordBytes(info));
    ghost var m1 := mem[..];
    var c2 := Append(mem, c1, key);
    ghost var m2 := mem[..];
    next := Append(mem, c2, value);
    RecordWritten(m0, m1, m2, mem[..], cursor, Record(info, key, value));
    written := 4 + MultipleOf4(ks) + MultipleOf4(vs);
  }

  /** The three appends of a put write the encoded record. */
  lemma RecordWritten(m0: seq<Word>, m1: seq<Word>, m2: seq<Word>, m3: seq<Word>, c: nat, r: Record)
    requires c + |Encode(r)| <= |m0|
    requires m1 == m0[..c] + [r.info] + m0[c + 1..]
    requires m2 == m1[..c + 1] + Pack(r.key) + m1[c + 1 + |Pack(r.key)|..]
    requires m3 == m2[..c + 1 + |Pack(r.key)|] + Pack(r.value) + m2[c + |Encode(r)|..]
    ensures m3 == m0[..c] + Encode(r) + m0[c + |Encode(r)|..]
  {
    var head, key, value := [r.info], Pack(r.key), Pack(r.value);
    assert Encode(r) == head + key + value;
    OverwriteTwice(m0, m1, m2, c, head, key);
    assert |head + key| == 1 + |key|;
    OverwriteTwice(m0, m2, m3, c, head + key, value);
  }

  /** Two writes one after the other are one write of both. */
  lemma OverwriteTwice(m0: seq<Word>, m1: seq<Word>, m2: seq<Word>, c: nat, x: seq<Word>, y: seq<Word>)
    requires c + |x| + |y| <= |m0|
    requires m1 == m0[..c] + x + m0[c + |x|..]
    requires m2 == m1[..c + |x|] + y + m1[c + |x| + |y|..]
    ensures m2 == m0[..c] + (x + y) + m0[c + |x| + |y|..]
  {
    assert m1[..c + |x|] == m0[..c] + x;
    assert m1[c + |x| + |y|..] == m0[c + |x| + |y|..];
  }

  // ----- What the scan finds in a log -----

  /** The answer a log of records gives to a query, walked record by record:
      a copy of the value of the first record that matches. */
  function CopyAnswer(recs: seq<Record>, kt: nat, ks: nat, k: seq<Byte>): Lookup<PullValue>
    requires ks <= |k|
  {
    if recs == [] then NotFound
    else if Matches(recs[0], kt, ks, k) then
      Found(PullValue(|recs[0].value|, ValueType(recs[0].info), recs[0].value))
    else CopyAnswer(recs[1..], kt, ks, k)
  }

  /** Scanning from a stored well-formed record: a copy of its value when
      it matches the query, the scan from the next header otherwise. */
  lemma SentinelScanRecord(mem: seq<Word>, base: nat, r: Record, kt: nat, ks: nat, k: seq<Byte>)
    requires ks <= |k| && Stored(mem, base, Encode(r)) && WellFormed(r)
    ensures SentinelScan(mem, base, kt, ks, k) ==
      if Matches(r, kt, ks, k) then Found(PullValue(|r.value|, ValueType(r.info), r.value))
      else SentinelScan(mem, base + |Encode(r)|, kt, ks, k)
  {
    DecodeEncoded(mem, base, r);
    SentinelFields(r.info);
  }

  /** A stored log ended by the zero word is its first record followed by
      the rest of the log, ended the same way. */
  lemma StoredLogParts(mem: seq<Word>, base: nat, recs: seq<Record>)
    requires recs != [] && Stored(mem, base, Layout(recs) + [ZERO])
    ensures Stored(mem, base, Encode(recs[0]))
    ensures Stored(mem, base + |Encode(recs[0])|, Layout(recs[1..]) + [ZERO])
  {
    assert Layout(recs) + [ZERO] == Encode(recs[0]) + (Layout(recs[1..]) + [ZERO]);
    StoredSplit(mem, base, Encode(recs[0]), Layout(recs[1..]) + [ZERO]);
  }

  /** Over a stored log of well-formed records followed by the zero word,
      the scan gives the record-by-record answer. */
  lemma {:induction false} SentinelScanWalksRecords(mem: seq<Word>, base: nat, recs: seq<Record>, kt: nat, ks: nat, k: seq<Byte>)
    requires ks <= |k|
    requires Stored(mem, base, Layout(recs) + [ZERO]) && AllWellFormed(recs)
    ensures SentinelScan(mem, base, kt, ks, k) == CopyAnswer(recs, kt, ks, k)
    decreases |recs|
  {
    if recs == [] {
      assert mem[base] == ZERO;
    } else {
      StoredLogParts(mem, base, recs);
      AllWellFormedTail(recs);
      SentinelScanRecord(mem, base, recs[0], kt, ks, k);
      if !Matches(recs[0], kt, ks, k) {
        SentinelScanWalksRecords(mem, base + |Encode(recs[0])|, recs[1..], kt, ks, k);
      }
    }
  }

  /** The record-by-record answer is a copy of the value of the oldest record
      that matches, or NULL when none does. */
  lemma {:induction false} CopyAnswerFirst(recs: seq<Record>, kt: nat, ks: nat, k: seq<Byte>)
    requires ks <= |k|
    ensures CopyAnswer(recs, kt, ks, k) ==
      match FirstMatch(recs, kt, ks, k)
      case None => NotFound
      case Some(i) => Found(PullValue(|recs[i].value|, ValueType(recs[i].info), recs[i].value))
    decreases |recs|
  {
    if recs != [] && !Matches(recs[0], kt, ks, k) {
      CopyAnswerFirst(recs[1..], kt, ks, k);
      if FirstMatch(recs[1..], kt, ks, k).Some? {
        var i := FirstMatch(recs[1..], kt, ks, k).value;
        assert recs[i + 1] == recs[1..][i];
      }
    }
  }

  /** Over a stored log of well-formed records followed by the zero word,
      the leaf's scan returns a copy of the value of the oldest record that
      matches the query, or NULL when none does. */
  lemma SentinelScanFindsFirst(mem: seq<Word>, base: nat, recs: seq<Record>, kt: nat, ks: nat, k: seq<Byte>)
    requires ks <= |k|
    requires Stored(mem, base, Layout(recs) + [ZERO]) && AllWellFormed(recs)
    ensures SentinelScan(mem, base, kt, ks, k) ==
      match FirstMatch(recs, kt, ks, k)
      case None => NotFound
      case Some(i) => Found(PullValue(|recs[i].value|, ValueType(recs[i].info), recs[i].value))
  {
    SentinelScanWalksRecords(mem, base, recs, kt, ks, k);
    CopyAnswerFirst(recs, kt, ks, k);
  }

  /** Nothing after the zero word that ends a log is read: changing any word
      past it leaves the answer as it was. */
  lemma SentinelIgnoresAfterEnd(mem: seq<Word>, mem': seq<Word>, base: nat, recs: seq<Record>, kt: nat, ks: nat, k: seq<Byte>)
    requires ks <= |k|
    requires Stored(mem, base, Layout(recs) + [ZERO]) && AllWellFormed(recs)
    requires var end := base + |Layout(recs)| + 1; end <= |mem'| && mem[..end] == mem'[..end]
    ensures SentinelScan(mem', base, kt, ks, k) == SentinelScan(mem, base, kt, ks, k)
  {
    StoredKept(mem, mem', base, Layout(recs) + [ZERO], base + |Layout(recs)| + 1);
    SentinelScanWalksRecords(mem, base, recs, kt, ks, k);
    SentinelScanWalksRecords(mem', base, recs, kt, ks, k);
  }

  /** A header that declares a zero key or value size is stepped over by
      exactly one word. */
  lemma ZeroSizeSkipsOneWord(mem: seq<Word>, addr: nat, kt: nat, ks: nat, k: seq<Byte>)
    requires ks <= |k| && addr < |mem| && mem[addr] != ZERO
    requires KeySize(mem[addr]) == 0 || ValueSize(mem[addr]) == 0
    ensures SentinelScan(mem, addr, kt, ks, k) == SentinelScan(mem, addr + 1, kt, ks, k)
  {
  }

  /** A record whose type or size differs from the query is stepped over by
      exactly its payload words: the scan resumes right after them, and
      whatever those words hold does not change the answer. */
  lemma SentinelSkipIgnoresPayload(mem: seq<Word>, mem': seq<Word>, addr: nat, kt: nat, ks: nat, k: seq<Byte>)
    requires ks <= |k|
    requires addr < |mem| == |mem'| && mem'[addr] == mem[addr] && mem[addr] != ZERO
    requires KeySize(mem[addr]) != 0 && ValueSize(mem[addr]) != 0
    requires KeyType(mem[addr]) != kt || KeySize(mem[addr]) != ks
    requires var p := addr + 1 + Words(KeySize(mem[addr])) + Words(ValueSize(mem[addr]));
      p <= |mem| && mem[p..] == mem'[p..]
    ensures SentinelScan(mem, addr, kt, ks, k) ==
      SentinelScan(mem, addr + 1 + Words(KeySize(mem[addr])) + Words(ValueSize(mem[addr])), kt, ks, k)
    ensures SentinelScan(mem', addr, kt, ks, k) == SentinelScan(mem, addr, kt, ks, k)
  {
    var p := addr + 1 + Words(KeySize(mem[addr])) + Words(ValueSize(mem[addr]));
    assert SentinelStep(mem, addr, kt, ks, k) == Advance(p);
    assert SentinelStep(mem', addr, kt, ks, k) == Advance(p);
    SentinelSuffix(mem, mem', p, p, kt, ks, k);
  }

  /** The step at `addr` reads nothing before `from`. */
  lemma SentinelStepSuffix(mem: seq<Word>, mem': seq<Word>, from: nat, addr: nat, kt: nat, ks: nat, k: seq<Byte>)
    requires ks <= |k|
    requires from <= addr < |mem| == |mem'| && mem[from..] == mem'[from..]
    ensures SentinelStep(mem', addr, kt, ks, k) == SentinelStep(mem, addr, kt, ks, k)
  {
    var info := mem[addr];
    assert mem'[addr] == mem'[from..][addr - from] == info;
    var kw, vw := Words(KeySize(info)), Words(ValueSize(info));
    if info == ZERO || KeySize(info) == 0 || ValueSize(info) == 0 {
      // only the header is read
    } else if KeyType(info) != kt || KeySize(info) != ks || addr + 1 + kw + vw > |mem| {
      // only the header is read
    } else {
      RegionBytesSuffix(mem, mem', from, addr + 1, ks);
      RegionBytesSuffix(mem, mem', from, addr + 1 + kw, ValueSize(info));
    }
  }

  /** The scan from `addr` reads nothing before `from`. */
  lemma {:induction false} SentinelSuffix(mem: seq<Word>, mem': seq<Word>, from: nat, addr: nat, kt: nat, ks: nat, k: seq<Byte>)
    requires ks <= |k|
    requires from <= addr && from <= |mem| == |mem'| && mem[from..] == mem'[from..]
    ensures SentinelScan(mem', addr, kt, ks, k) == SentinelScan(mem, addr, kt, ks, k)
    decreases |mem| - addr
  {
    if addr < |mem| {
      SentinelStepSuffix(mem, mem', from, addr, kt, ks, k);
      if SentinelStep(mem, addr, kt, ks, k).Advance? {
        SentinelSuffix(mem, mem', from, SentinelStep(mem, addr, kt, ks, k).next, kt, ks, k);
      }
    }
  }

  // ----- Put, then pull -----

  /** Putting a record right after a stored log, where the word after the
      record's words is zero, leaves the log, then the record, then the
      zero word stored: the log a pull scans. */
  lemma PutExtendsLog(m0: seq<Word>, m1: seq<Word>, base: nat, recs: seq<Record>, r: Record)
    requires Stored(m0, base, Layout(recs))
    requires var c := base + |Layout(recs)|;
      && c + |Encode(r)| < |m0| && m0[c + |Encode(r)|] == ZERO
      && m1 == m0[..c] + Encode(r) + m0[c + |Encode(r)|..]
    ensures Stored(m1, base, Layout(recs) + Encode(r) + [ZERO])
  {
    var c := base + |Layout(recs)|;
    var after := c + |Encode(r)|;
    StoredKept(m0, m1, base, Layout(recs), c);
    StoredBetween(m0[..c], Encode(r), m0[after..]);
    assert m1[after] == ZERO;
    assert Stored(m1, after, [ZERO]);
    StoredJoin(m1, c, Encode(r), [ZERO]);
    StoredJoin(m1, base, Layout(recs), Encode(r) + [ZERO]);
    assert Layout(recs) + (Encode(r) + [ZERO]) == Layout(recs) + Encode(r) + [ZERO];
  }

  /** After a record is put at the end of a stored log and the word after it
      is zero, pulling its key finds it unless an older record already
      answers that key, in which case the older value is returned. */
  lemma PutThenPull(mem: seq<Word>, base: nat, recs: seq<Record>, r: Record)
    requires Stored(mem, base, Layout(recs) + Encode(r) + [ZERO]) && AllWellFormed(recs) && WellFormed(r)
    ensures var kt, ks := KeyType(r.info), KeySize(r.info);
      SentinelScan(mem, base, kt, ks, r.key) ==
        match FirstMatch(recs, kt, ks, r.key)
        case None => Found(PullValue(|r.value|, ValueType(r.info), r.value))
        case Some(i) => Found(PullValue(|recs[i].value|, ValueType(recs[i].info), recs[i].value))
  {
    var kt, ks := KeyType(r.info), KeySize(r.info);
    LayoutAppend(recs, r);
    assert Layout(recs + [r]) + [ZERO] == Layout(recs) + Encode(r) + [ZERO];
    assert AllWellFormed(recs + [r]) by {
      forall j | 0 <= j < |recs| + 1 ensures WellFormed((recs + [r])[j]) {
        if j < |recs| {
          assert (recs + [r])[j] == recs[j];
        }
      }
    }
    SentinelScanFindsFirst(mem, base, recs + [r], kt, ks, r.key);
    assert r.key[..ks] == r.key;
    FirstMatchAppend(recs, r, kt, ks, r.key);
    if FirstMatch(recs, kt, ks, r.key).Some? {
      var i := FirstMatch(recs, kt, ks, r.key).value;
      assert (recs + [r])[i] == recs[i];
    } else {
      assert (recs + [r])[|recs|] == r;
    }
  }
}
