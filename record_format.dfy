/** The spiDB record format shared by the writer and both readers.

    A region is a sequence of 32-bit words. A record is an info word followed
    by the key bytes and the value bytes, each padded to whole words. The info
    word holds, from the most significant end, a 4-bit key type, a 12-bit key
    size, a 4-bit value type and a 12-bit value size.

    A word is modelled by its four bytes in memory order, least significant
    first (the byte order of the ARM cores the store runs on), so reading the
    bytes of a payload out of its words needs no arithmetic; `Value` gives the
    number a word denotes.
 */
module RecordFormat {

  datatype Option<T> = None | Some(value: T)

  /** What a scan of the region yields: a record, a NULL result, or the
      point where the scan would have to read beyond the modelled memory. */
  datatype Lookup<V> = Found(value: V) | NotFound | Overrun

  /** What one header visited by a scan leads to: the address of the next
      header, or the scan's result. */
  datatype Step<V> = Advance(next: nat) | Answer(result: Lookup<V>)

  newtype Byte = x: int | 0 <= x < 0x100

  /** A 32-bit word as its bytes at increasing addresses: `b0` holds bits 7-0,
      `b3` bits 31-24. */
  datatype Word = Word(b0: Byte, b1: Byte, b2: Byte, b3: Byte)

  /** The all-zero word that ends a sentinel-terminated region. */
  const ZERO: Word := Word(0, 0, 0, 0)

  /** The unsigned number a word denotes. */
  function Value(w: Word): (v: nat)
    ensures v < 0x1_0000_0000
  {
    w.b0 as nat + 0x100 * w.b1 as nat + 0x1_0000 * w.b2 as nat + 0x100_0000 * w.b3 as nat
  }

  // ----- Info word fields -----

  /** Bits 31-28 of an info word: `(info & 0xF0000000) >> 28`. */
  function KeyType(info: Word): (t: nat)
    ensures t < 0x10
  {
    info.b3 as nat / 0x10
  }

  /** Bits 27-16 of an info word: `(info & 0x0FFF0000) >> 16`. */
  function KeySize(info: Word): (s: nat)
    ensures s < 0x1000
  {
    (info.b3 as nat % 0x10) * 0x100 + info.b2 as nat
  }

  /** Bits 15-12 of an info word: `(info & 0x0000F000) >> 12`. */
  function ValueType(info: Word): (t: nat)
    ensures t < 0x10
  {
    info.b1 as nat / 0x10
  }

  /** Bits 11-0 of an info word: `info & 0x00000FFF`. */
  function ValueSize(info: Word): (s: nat)
    ensures s < 0x1000
  {
    (info.b1 as nat % 0x10) * 0x100 + info.b0 as nat
  }

  /** A byte is its high nibble times 16 plus its low nibble. */
  lemma Nibbles(x: nat)
    requires x < 0x100
    ensures x == (x / 0x10) * 0x10 + x % 0x10 && x / 0x10 < 0x10 && x % 0x10 < 0x10
  {
  }

  /** The four fields tile the word: together they are exactly its value. */
  lemma InfoFields(info: Word)
    ensures Value(info) == KeyType(info) * 0x1000_0000 + KeySize(info) * 0x1_0000
                           + ValueType(info) * 0x1000 + ValueSize(info)
  {
    Nibbles(info.b3 as nat);
    Nibbles(info.b1 as nat);
  }

  /** A word is the all-zero sentinel exactly when all four of its fields are zero. */
  lemma SentinelFields(info: Word)
    ensures info == ZERO <==>
      KeyType(info) == 0 && KeySize(info) == 0 && ValueType(info) == 0 && ValueSize(info) == 0
  {
    var b3, b1 := info.b3 as nat, info.b1 as nat;
    Nibbles(b3);
    Nibbles(b1);
    if KeySize(info) == 0 {
      assert b3 % 0x10 == 0 && info.b2 == 0;
    }
    if ValueSize(info) == 0 {
      assert b1 % 0x10 == 0 && info.b0 == 0;
    }
  }

  // ----- Sizes -----

  /** Number of words a payload of `size` bytes occupies: `(size + 3) >> 2`. */
  function Words(size: nat): (w: nat)
    ensures 4 * w >= size && 4 * w < size + 4
  {
    (size + 3) / 4
  }

  /** `size` rounded up to a multiple of 4 bytes. */
  function MultipleOf4(size: nat): (m: nat)
    ensures m % 4 == 0 && size <= m < size + 4
  {
    4 * Words(size)
  }

  // ----- Bytes inside words -----

  /** The four bytes of `w` as they lie in memory. */
  function WordBytes(w: Word): seq<Byte>
  {
    [w.b0, w.b1, w.b2, w.b3]
  }

  /** Byte `i` of `b`, or a zero padding byte past its end. */
  function ByteOrPad(b: seq<Byte>, i: nat): Byte
  {
    if i < |b| then b[i] else 0
  }

  /** `b` packed into words, four bytes per word, the last word padded with zero bytes. */
  function Pack(b: seq<Byte>): (ws: seq<Word>)
    ensures |ws| == Words(|b|)
    decreases |b|
  {
    if b == [] then []
    else [Word(ByteOrPad(b, 0), ByteOrPad(b, 1), ByteOrPad(b, 2), ByteOrPad(b, 3))]
         + Pack(if |b| <= 4 then [] else b[4..])
  }

  /** The `n` bytes that start at word address `addr` of `mem`. */
  function RegionBytes(mem: seq<Word>, addr: nat, n: nat): (b: seq<Byte>)
    requires addr + Words(n) <= |mem|
    ensures |b| == n
    decreases n
  {
    if n == 0 then []
    else if n <= 4 then WordBytes(mem[addr])[..n]
    else WordBytes(mem[addr]) + RegionBytes(mem, addr + 1, n - 4)
  }

  /** Reading bytes from `addr` on looks at no word before `from`. */
  lemma {:induction false} RegionBytesSuffix(mem: seq<Word>, mem': seq<Word>, from: nat, addr: nat, n: nat)
    requires from <= addr && addr + Words(n) <= |mem| == |mem'| && mem[from..] == mem'[from..]
    ensures RegionBytes(mem', addr, n) == RegionBytes(mem, addr, n)
    decreases n
  {
    if n > 0 {
      assert mem[addr] == mem[from..][addr - from];
      if n > 4 {
        RegionBytesSuffix(mem, mem', from, addr + 1, n - 4);
      }
    }
  }

  /** The words `e` lie in `mem` from word address `a` on. */
  ghost predicate Stored(mem: seq<Word>, a: nat, e: seq<Word>)
    decreases |e|
  {
    a + |e| <= |mem| && (e == [] || (mem[a] == e[0] && Stored(mem, a + 1, e[1..])))
  }

  /** A stored concatenation is its two parts stored one after the other. */
  lemma {:induction false} StoredSplit(mem: seq<Word>, a: nat, x: seq<Word>, y: seq<Word>)
    requires Stored(mem, a, x + y)
    ensures Stored(mem, a, x) && Stored(mem, a + |x|, y)
    decreases |x|
  {
    if x != [] {
      assert (x + y)[1..] == x[1..] + y;
      StoredSplit(mem, a + 1, x[1..], y);
    } else {
      assert x + y == y;
    }
  }

  /** Two stored parts, one right after the other, are their concatenation stored. */
  lemma {:induction false} StoredJoin(mem: seq<Word>, a: nat, x: seq<Word>, y: seq<Word>)
    requires Stored(mem, a, x) && Stored(mem, a + |x|, y)
    ensures Stored(mem, a, x + y)
    decreases |x|
  {
    if x != [] {
      StoredJoin(mem, a + 1, x[1..], y);
      assert (x + y)[1..] == x[1..] + y;
    } else {
      assert x + y == y;
    }
  }

  /** The words of `pre + e + post` hold `e` right after `pre`. */
  lemma {:induction false} StoredBetween(pre: seq<Word>, e: seq<Word>, post: seq<Word>)
    ensures Stored(pre + e + post, |pre|, e)
    decreases |e|
  {
    if e != [] {
      assert pre + e + post == (pre + [e[0]]) + e[1..] + post;
      StoredBetween(pre + [e[0]], e[1..], post);
    }
  }

  /** Stored words stay stored when nothing up to their end changes. */
  lemma {:induction false} StoredKept(mem: seq<Word>, mem': seq<Word>, a: nat, e: seq<Word>, n: nat)
    requires Stored(mem, a, e) && a + |e| <= n <= |mem| && n <= |mem'| && mem[..n] == mem'[..n]
    ensures Stored(mem', a, e)
    decreases |e|
  {
    if e != [] {
      assert mem[a] == mem[..n][a];
      StoredKept(mem, mem', a + 1, e[1..], n);
    }
  }

  /** Bytes packed into the words at `a` read back from `a`; padding is never read. */
  lemma {:induction false} PackedAt(mem: seq<Word>, a: nat, b: seq<Byte>)
    requires Stored(mem, a, Pack(b))
    ensures a + Words(|b|) <= |mem|
    ensures RegionBytes(mem, a, |b|) == b
    decreases |b|
  {
    if b != [] {
      var head := [ByteOrPad(b, 0), ByteOrPad(b, 1), ByteOrPad(b, 2), ByteOrPad(b, 3)];
      assert WordBytes(mem[a]) == head;
      if |b| <= 4 {
        assert head[..|b|] == b;
      } else {
        PackedAt(mem, a + 1, b[4..]);
        assert head == b[..4];
        assert b == b[..4] + b[4..];
      }
    }
  }

  /** Appending the four bytes of an info word writes exactly that word. */
  lemma PackWordBytesOf(w: Word)
    ensures Pack(WordBytes(w)) == [w]
  {
  }

  // ----- Records and logs -----

  /** One stored record: its info word and its key and value bytes. */
  datatype Record = Record(info: Word, key: seq<Byte>, value: seq<Byte>)

  /** The payload sizes agree with the sizes the header declares. */
  predicate Consistent(r: Record)
  {
    |r.key| == KeySize(r.info) && |r.value| == ValueSize(r.info)
  }

  predicate AllConsistent(recs: seq<Record>)
  {
    forall i :: 0 <= i < |recs| ==> Consistent(recs[i])
  }

  /** What the writer accepts: consistent sizes, neither of them zero. */
  predicate WellFormed(r: Record)
  {
    Consistent(r) && |r.key| > 0 && |r.value| > 0
  }

  predicate AllWellFormed(recs: seq<Record>)
  {
    forall i :: 0 <= i < |recs| ==> WellFormed(recs[i])
  }

  /** The tail of a consistent log is consistent. */
  lemma AllConsistentTail(recs: seq<Record>)
    requires recs != [] && AllConsistent(recs)
    ensures Consistent(recs[0]) && AllConsistent(recs[1..])
  {
    forall j | 0 <= j < |recs| - 1 ensures Consistent(recs[1..][j]) {
      assert recs[1..][j] == recs[j + 1];
    }
  }

  /** The tail of a well-formed log is well-formed. */
  lemma AllWellFormedTail(recs: seq<Record>)
    requires recs != [] && AllWellFormed(recs)
    ensures WellFormed(recs[0]) && AllWellFormed(recs[1..])
  {
    forall j | 0 <= j < |recs| - 1 ensures WellFormed(recs[1..][j]) {
      assert recs[1..][j] == recs[j + 1];
    }
  }

  /** The words one record occupies. */
  function Encode(r: Record): seq<Word>
  {
    [r.info] + (Pack(r.key) + Pack(r.value))
  }

  /** The words a sequence of records occupies, oldest first. */
  function Layout(recs: seq<Record>): seq<Word>
  {
    if recs == [] then [] else Encode(recs[0]) + Layout(recs[1..])
  }

  /** Word offset of record `i` from the start of the log. */
  function Offset(recs: seq<Record>, i: nat): nat
    requires i <= |recs|
  {
    |Layout(recs[..i])|
  }

  /** A record laid down at word `a` is its info word there, its packed key
      right after it and its packed value after the key's words. */
  lemma StoredRecord(mem: seq<Word>, a: nat, r: Record)
    requires Stored(mem, a, Encode(r))
    ensures |Encode(r)| == 1 + Words(|r.key|) + Words(|r.value|)
    ensures a < |mem| && mem[a] == r.info
    ensures Stored(mem, a + 1, Pack(r.key))
    ensures Stored(mem, a + 1 + Words(|r.key|), Pack(r.value))
  {
    assert Encode(r)[1..] == Pack(r.key) + Pack(r.value);
    StoredSplit(mem, a + 1, Pack(r.key), Pack(r.value));
  }

  /** A record laid down at word `a` reads back as itself: the header is
      its info word, the key bytes start one word later and the value bytes
      start after the key's words. */
  lemma DecodeEncoded(mem: seq<Word>, a: nat, r: Record)
    requires Stored(mem, a, Encode(r))
    ensures |Encode(r)| == 1 + Words(|r.key|) + Words(|r.value|)
    ensures a + |Encode(r)| <= |mem|
    ensures mem[a] == r.info
    ensures RegionBytes(mem, a + 1, |r.key|) == r.key
    ensures RegionBytes(mem, a + 1 + Words(|r.key|), |r.value|) == r.value
  {
    StoredRecord(mem, a, r);
    PackedAt(mem, a + 1, r.key);
    PackedAt(mem, a + 1 + Words(|r.key|), r.value);
  }

  /** Appending a record to a log appends its words to the log's words. */
  lemma {:induction false} LayoutAppend(recs: seq<Record>, r: Record)
    ensures Layout(recs + [r]) == Layout(recs) + Encode(r)
  {
    if recs == [] {
      assert [] + [r] == [r];
    } else {
      assert (recs + [r])[1..] == recs[1..] + [r];
      LayoutAppend(recs[1..], r);
    }
  }

  /** The words of two logs one after the other. */
  lemma {:induction false} LayoutConcat(xs: seq<Record>, ys: seq<Record>)
    ensures Layout(xs + ys) == Layout(xs) + Layout(ys)
  {
    if xs == [] {
      assert xs + ys == ys;
    } else {
      assert (xs + ys)[1..] == xs[1..] + ys;
      LayoutConcat(xs[1..], ys);
    }
  }

  // ----- Matching -----

  /** Record `r` answers a query for a key of type `kt`, size `ks` and bytes `k[..ks]`. */
  predicate Matches(r: Record, kt: nat, ks: nat, k: seq<Byte>)
    requires ks <= |k|
  {
    KeyType(r.info) == kt && KeySize(r.info) == ks && r.key == k[..ks]
  }

  /** Index of the oldest record answering the query, if any. */
  function FirstMatch(recs: seq<Record>, kt: nat, ks: nat, k: seq<Byte>): (m: Option<nat>)
    requires ks <= |k|
    ensures m.Some? ==> m.value < |recs| && Matches(recs[m.value], kt, ks, k)
    ensures m.Some? ==> forall j :: 0 <= j < m.value ==> !Matches(recs[j], kt, ks, k)
    ensures m.None? ==> forall j :: 0 <= j < |recs| ==> !Matches(recs[j], kt, ks, k)
  {
    if recs == [] then None
    else if Matches(recs[0], kt, ks, k) then Some(0)
    else match FirstMatch(recs[1..], kt, ks, k)
      case None => None
      case Some(i) => Some(i + 1)
  }

  /** Record `i + 1` of a log starts where record `i` of the log without its
      first record starts, shifted by the first record's words. */
  lemma OffsetCons(recs: seq<Record>, i: nat)
    requires i < |recs|
    ensures Offset(recs, i + 1) == |Encode(recs[0])| + Offset(recs[1..], i)
  {
    assert recs[..i + 1] == [recs[0]] + recs[1..][..i];
    LayoutConcat([recs[0]], recs[1..][..i]);
    assert Layout([recs[0]]) == Encode(recs[0]) + Layout([]);
  }

  /** The first record of a stored log is stored at the log's start. */
  lemma StoredFirst(mem: seq<Word>, base: nat, recs: seq<Record>)
    requires recs != [] && Stored(mem, base, Layout(recs))
    ensures Stored(mem, base, Encode(recs[0]))
  {
    StoredSplit(mem, base, Encode(recs[0]), Layout(recs[1..]));
  }

  /** The rest of a stored log is stored right after its first record. */
  lemma StoredRest(mem: seq<Word>, base: nat, recs: seq<Record>)
    requires recs != [] && Stored(mem, base, Layout(recs))
    ensures |Layout(recs)| == |Encode(recs[0])| + |Layout(recs[1..])|
    ensures Stored(mem, base + |Encode(recs[0])|, Layout(recs[1..]))
  {
    StoredSplit(mem, base, Encode(recs[0]), Layout(recs[1..]));
  }

  /** Record `i` of a log stored at `base` lies at `base + Offset(recs, i)`. */
  lemma {:induction false} RecordAt(mem: seq<Word>, base: nat, recs: seq<Record>, i: nat)
    requires i < |recs| && Stored(mem, base, Layout(recs))
    ensures Stored(mem, base + Offset(recs, i), Encode(recs[i]))
    decreases i
  {
    StoredSplit(mem, base, Encode(recs[0]), Layout(recs[1..]));
    if i == 0 {
      assert recs[..0] == [];
    } else {
      RecordAt(mem, base + |Encode(recs[0])|, recs[1..], i - 1);
      OffsetCons(recs, i - 1);
    }
  }

  /** Adding a record at the end of a log never changes which record answers
      a query that an older record already answers: the oldest copy wins. */
  lemma FirstMatchAppend(recs: seq<Record>, r: Record, kt: nat, ks: nat, k: seq<Byte>)
    requires ks <= |k|
    ensures FirstMatch(recs + [r], kt, ks, k) ==
      if FirstMatch(recs, kt, ks, k).Some? then FirstMatch(recs, kt, ks, k)
      else if Matches(r, kt, ks, k) then Some(|recs|)
      else None
  {
    var all := recs + [r];
    assert forall j :: 0 <= j < |recs| ==> all[j] == recs[j];
    assert all[|recs|] == r;
  }
}
