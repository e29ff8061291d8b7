/** `build_index` (index2.c): one pass over the CSV file that writes the index file.
    Every line after the header whose fourth `strtok` token exists contributes one
    entry, prepended to the chain of its key's bucket. */
module Builder {
  import opened Wrappers
  import opened Text
  import opened IndexLayout
  import opened RecordStore
  import opened KeyText

  // ---------------------------------------------------------------------------
  // What the pass reads
  // ---------------------------------------------------------------------------

  /** The key `build_index` derives from one CSV line: its fourth token, cleaned.
      `None` when the line has fewer than four tokens and is skipped. */
  function LineKey(line: string): Option<string>
  {
    var toks := Tokens(CStr(line));
    if |toks| >= 4 then Some(Cleaned(toks[3])) else None
  }

  /** A key-bearing line: the offset where it starts and the key derived from it. */
  datatype KeyedLine = KeyedLine(start: nat, key: string)

  /** The key-bearing lines from offset `pos` on, in file order. */
  function KeyedLines(csv: string, pos: nat): seq<KeyedLine>
    requires pos <= |csv|
    decreases |csv| - pos
  {
    if pos == |csv| then []
    else
      var next := LineEnd(csv, pos);
      var k := LineKey(csv[pos..next]);
      (if k.Some? then [KeyedLine(pos, k.value)] else []) + KeyedLines(csv, next)
  }

  /** The lines the index is built from: every key-bearing line after the header line. */
  function IndexedLines(csv: string): seq<KeyedLine>
  {
    if csv == [] then [] else KeyedLines(csv, LineEnd(csv, 0))
  }

  /** `kl` names a line of the file that reads back with key `kl.key`. */
  predicate IsKeyedLine(csv: string, kl: KeyedLine)
  {
    ReadLine(csv, kl.start).Some? && LineKey(ReadLine(csv, kl.start).value) == Some(kl.key)
  }

  /** Offset `p` is the first character of a line. */
  predicate AtLineStart(csv: string, p: nat)
  {
    p == 0 || (p <= |csv| && csv[p - 1] == '\n')
  }

  predicate InFileOrder(r: seq<KeyedLine>)
  {
    forall i, j :: 0 <= i < j < |r| ==> r[i].start < r[j].start
  }

  /** The first step of `KeyedLines`: the line at `pos`, if key-bearing, then the rest. */
  lemma KeyedLinesStep(csv: string, pos: nat)
    requires pos < |csv|
    ensures ReadLine(csv, pos) == Some(csv[pos..LineEnd(csv, pos)])
    ensures LineKey(csv[pos..LineEnd(csv, pos)]).Some? ==>
      KeyedLines(csv, pos) == [KeyedLine(pos, LineKey(csv[pos..LineEnd(csv, pos)]).value)] + KeyedLines(csv, LineEnd(csv, pos))
    ensures LineKey(csv[pos..LineEnd(csv, pos)]).None? ==> KeyedLines(csv, pos) == KeyedLines(csv, LineEnd(csv, pos))
  {
    if LineKey(csv[pos..LineEnd(csv, pos)]).None? {
      assert [] + KeyedLines(csv, LineEnd(csv, pos)) == KeyedLines(csv, LineEnd(csv, pos));
    }
  }

  /** A keyed line from `pos` on starts a line of the file (or is at `pos`) and reads
      back with the same key. */
  lemma {:induction false} KeyedLinesAreLines(csv: string, pos: nat)
    requires pos <= |csv|
    ensures forall kl :: kl in KeyedLines(csv, pos) ==>
      pos <= kl.start < |csv| && (kl.start == pos || AtLineStart(csv, kl.start)) && IsKeyedLine(csv, kl)
    decreases |csv| - pos
  {
    if pos < |csv| {
      var next := LineEnd(csv, pos);
      var rest := KeyedLines(csv, next);
      KeyedLinesAreLines(csv, next);
      KeyedLinesStep(csv, pos);
      var k := LineKey(csv[pos..next]);
      forall kl | kl in KeyedLines(csv, pos)
        ensures pos <= kl.start < |csv| && (kl.start == pos || AtLineStart(csv, kl.start)) && IsKeyedLine(csv, kl)
      {
        if kl in rest {
          if kl.start == next {
            assert csv[next - 1] == '\n';
          }
        } else {
          assert k.Some? && KeyedLines(csv, pos) == [KeyedLine(pos, k.value)] + rest;
          assert kl == KeyedLine(pos, k.value);
        }
      }
    }
  }

  lemma ConsInOrder(kl: KeyedLine, rest: seq<KeyedLine>)
    requires InFileOrder(rest) && forall x :: x in rest ==> kl.start < x.start
    ensures InFileOrder([kl] + rest)
  {
    var r := [kl] + rest;
    forall i, j | 0 <= i < j < |r| ensures r[i].start < r[j].start {
      assert r[j] == rest[j - 1] && rest[j - 1] in rest;
      if i > 0 {
        assert r[i] == rest[i - 1];
      }
    }
  }

  /** The keyed lines come in file order. */
  lemma {:induction false} KeyedLinesInOrder(csv: string, pos: nat)
    requires pos <= |csv|
    ensures InFileOrder(KeyedLines(csv, pos))
    decreases |csv| - pos
  {
    if pos < |csv| {
      var next := LineEnd(csv, pos);
      KeyedLinesInOrder(csv, next);
      KeyedLinesAreLines(csv, next);
      KeyedLinesStep(csv, pos);
      var k := LineKey(csv[pos..next]);
      if k.Some? {
        ConsInOrder(KeyedLine(pos, k.value), KeyedLines(csv, next));
      }
    }
  }

  /** The lines the index is built from are key-bearing lines after the header line,
      in file order, each reading back with the key it was indexed under. */
  lemma IndexedLinesAreLines(csv: string)
    ensures forall kl :: kl in IndexedLines(csv) ==>
      0 < kl.start < |csv| && AtLineStart(csv, kl.start) && IsKeyedLine(csv, kl)
    ensures InFileOrder(IndexedLines(csv))
  {
    if csv != [] {
      var first := LineEnd(csv, 0);
      KeyedLinesAreLines(csv, first);
      KeyedLinesInOrder(csv, first);
      forall kl | kl in KeyedLines(csv, first) ensures AtLineStart(csv, kl.start) {
        if kl.start == first {
          assert csv[first - 1] == '\n';
        }
      }
    }
  }

  /** Every key-bearing line that the pass from `pos` reaches (the line at `pos`, or
      one that starts after a line feed at or past `pos`) is among the keyed lines,
      with its own start and key. */
  lemma {:induction false} KeyedLinesComplete(csv: string, pos: nat, p: nat)
    requires pos <= p < |csv| && (p == pos || csv[p - 1] == '\n')
    requires LineKey(ReadLine(csv, p).value).Some?
    ensures KeyedLine(p, LineKey(ReadLine(csv, p).value).value) in KeyedLines(csv, pos)
    decreases |csv| - pos
  {
    KeyedLinesStep(csv, pos);
    var next := LineEnd(csv, pos);
    if p == pos {
      assert ReadLine(csv, p).value == csv[pos..next];
    } else {
      assert next <= p;
      KeyedLinesComplete(csv, next, p);
      var k := LineKey(csv[pos..next]);
      if k.Some? {
        assert KeyedLines(csv, pos) == [KeyedLine(pos, k.value)] + KeyedLines(csv, next);
      }
    }
  }

  /** The converse of `IndexedLinesAreLines`: every line after the header line that
      has a fourth token is indexed, at its start offset and under its cleaned key. */
  lemma IndexedLinesComplete(csv: string, p: nat)
    requires 0 < p < |csv| && AtLineStart(csv, p)
    requires LineKey(ReadLine(csv, p).value).Some?
    ensures KeyedLine(p, LineKey(ReadLine(csv, p).value).value) in IndexedLines(csv)
  {
    var first := LineEnd(csv, 0);
    assert first <= p;
    KeyedLinesComplete(csv, first, p);
  }

  // ---------------------------------------------------------------------------
  // What the index file holds
  // ---------------------------------------------------------------------------

  /** The index invariant: a full bucket table over linked entries, each entry
      storing its key, and each bucket's chain holding exactly the entries whose
      key hashes there, newest first. `keys` are the keys as hashed, before the
      stored copy is cut to `KEY_SIZE - 1` characters. */
  predicate Built(heads: seq<int>, entries: seq<EntryDisk>, keys: seq<string>, hash: string -> nat)
  {
    |heads| == NBuckets && |keys| == |entries| && Linked(heads, entries) &&
    (forall e :: 0 <= e < |entries| ==> entries[e].key == StoreKey(keys[e])) &&
    (forall b :: 0 <= b < NBuckets ==> Chain(entries, heads[b]) == Members(keys, hash, b))
  }

  /** Every entry hangs in exactly one chain: the one of its key's bucket. */
  lemma ChainsPartitionEntries(heads: seq<int>, entries: seq<EntryDisk>, keys: seq<string>, hash: string -> nat, e: nat, b: nat)
    requires Built(heads, entries, keys, hash) && e < |entries| && b < NBuckets
    ensures e in Chain(entries, heads[b]) <==> b == Bucket(hash, keys[e])
  {
    MembersExactly(keys, hash, b, e);
  }

  /** The index file under construction. */
  class IndexFile {
    var header: IndexHeader
    const heads: array<int>
    var entries: seq<EntryDisk>
    ghost var keys: seq<string>

    ghost predicate Valid(hash: string -> nat)
      reads this, heads
    {
      Built(heads[..], entries, keys, hash)
    }

    /** The size of the file: where `fseek(idx, 0, SEEK_END)` puts the next entry. */
    function EndOfFile(): int
      reads this
    {
      EntryBase + EntrySize * |entries|
    }

    /** The header and the bucket table, every head `-1`, as `build_index` first writes them. */
    constructor ()
      ensures header == FreshHeader() && fresh(heads) && heads.Length == NBuckets
      ensures forall b :: 0 <= b < NBuckets ==> heads[b] == NoEntry
      ensures entries == [] && keys == []
    {
      header := FreshHeader();
      var h := new int[NBuckets];
      var b := 0;
      while b < NBuckets
        invariant 0 <= b <= NBuckets
        invariant forall i :: 0 <= i < b ==> h[i] == NoEntry
      {
        h[b] := NoEntry;
        b := b + 1;
      }
      heads := h;
      entries := [];
      keys := [];
    }

    /** One insertion: a new entry for `key` appended at the end of the file, linked
        to the bucket's old head, and the bucket head pointed at it. */
    method Insert(key: string, csvOffset: int, hash: string -> nat)
      requires Valid(hash)
      modifies this, heads
      ensures Valid(hash)
      ensures header == old(header) && keys == old(keys) + [key]
      ensures entries == old(entries) + [EntryDisk(StoreKey(key), csvOffset, old(heads[Bucket(hash, key)]))]
      ensures heads[Bucket(hash, key)] == old(EndOfFile())
      ensures forall b :: 0 <= b < NBuckets && b != Bucket(hash, key) ==> heads[b] == old(heads[b])
    {
      var h := hash(key) % NBuckets;
      var oldHead := heads[h];
      var entry := EntryDisk(StoreKey(key), csvOffset, oldHead);
      var newOffset := EndOfFile();
      ghost var heads' := heads[..][h := newOffset];
      assert Built(heads[..], entries, keys, hash);
      assert h == Bucket(hash, key);
      assert newOffset == EntryOffset(|entries|);
      assert oldHead == heads[..][Bucket(hash, key)];
      assert heads' == heads[..][Bucket(hash, key) := EntryOffset(|entries|)];
      assert entries + [entry] == entries + [EntryDisk(StoreKey(key), csvOffset, heads[..][Bucket(hash, key)])];
      InsertKeepsBuilt(heads[..], entries, keys, hash, key, csvOffset, heads', entries + [entry], keys + [key]);
      entries := entries + [entry];
      keys := keys + [key];
      heads[h] := newOffset;
      assert heads[..] == heads';
    }
  }

  /** The keys hashing to `b` after one more key: the new one in front when it lands there. */
  lemma MembersSnoc(keys: seq<string>, key: string, hash: string -> nat, b: int)
    ensures Members(keys + [key], hash, b) ==
      (if Bucket(hash, key) == b then [|keys|] + Members(keys, hash, b) else Members(keys, hash, b))
  {
    assert (keys + [key])[..|keys|] == keys;
  }

  /** Appending an entry linked to an older one keeps the arena linked, with the
      one bucket head moved to the new entry. */
  lemma LinkedAfterAppend(heads: seq<int>, entries: seq<EntryDisk>, entry: EntryDisk, h: nat)
    requires Linked(heads, entries) && h < |heads| && entry.nextEntry == heads[h]
    ensures Linked(heads[h := EntryOffset(|entries|)], entries + [entry])
  {
    var entries' := entries + [entry];
    forall e | 0 <= e < |entries'|
      ensures IsRef(entries', entries'[e].nextEntry)
      ensures entries'[e].nextEntry != NoEntry ==> EntryIndex(entries', entries'[e].nextEntry).value < e
    {
      var next := entries'[e].nextEntry;
      if next != NoEntry {
        EntryIndexOfOffset(entries', EntryIndex(entries, next).value);
      }
    }
    EntryIndexOfOffset(entries', |entries|);
    forall b | 0 <= b < |heads| && b != h
      ensures IsRef(entries', heads[b])
    {
      if heads[b] != NoEntry {
        EntryIndexOfOffset(entries', EntryIndex(entries, heads[b]).value);
      }
    }
  }

  /** After one insertion, each bucket's chain still holds exactly the entries whose
      key hashes there: the new entry heads its own bucket's chain. */
  lemma BucketAfterInsert(heads: seq<int>, entries: seq<EntryDisk>, keys: seq<string>, hash: string -> nat, key: string, csvOffset: int,
                          heads': seq<int>, entries': seq<EntryDisk>, keys': seq<string>, b: nat)
    requires Built(heads, entries, keys, hash) && b < NBuckets
    requires heads' == heads[Bucket(hash, key) := EntryOffset(|entries|)]
    requires entries' == entries + [EntryDisk(StoreKey(key), csvOffset, heads[Bucket(hash, key)])]
    requires keys' == keys + [key]
    requires Linked(heads', entries')
    ensures Chain(entries', heads'[b]) == Members(keys', hash, b)
  {
    var h := Bucket(hash, key);
    var n := |entries|;
    ChainExtend(entries, [entries'[n]], heads[b]);
    MembersSnoc(keys, key, hash, b);
    if b == h {
      EntryIndexOfOffset(entries', n);
      assert Chain(entries', heads'[b]) == [n] + Chain(entries', heads[h]);
    }
  }

  /** The value-level effect of one insertion preserves the index invariant. */
  lemma InsertKeepsBuilt(heads: seq<int>, entries: seq<EntryDisk>, keys: seq<string>, hash: string -> nat, key: string, csvOffset: int,
                         heads': seq<int>, entries': seq<EntryDisk>, keys': seq<string>)
    requires Built(heads, entries, keys, hash)
    requires heads' == heads[Bucket(hash, key) := EntryOffset(|entries|)]
    requires entries' == entries + [EntryDisk(StoreKey(key), csvOffset, heads[Bucket(hash, key)])]
    requires keys' == keys + [key]
    ensures Built(heads', entries', keys', hash)
  {
    LinkedAfterAppend(heads, entries, entries'[|entries|], Bucket(hash, key));
    forall b | 0 <= b < NBuckets
      ensures Chain(entries', heads'[b]) == Members(keys', hash, b)
    {
      BucketAfterInsert(heads, entries, keys, hash, key, csvOffset, heads', entries', keys', b);
    }
    assert forall e :: 0 <= e < |entries'| ==> entries'[e].key == StoreKey(keys'[e]);
  }

  /** One turn of the builder's loop consumes the line at `pos` and whatever keyed
      line it yields. */
  lemma KeyedLinesAdvance(csv: string, pos: nat, done: seq<KeyedLine>, keyed: seq<KeyedLine>)
    requires pos < |csv|
    requires keyed == (if LineKey(csv[pos..LineEnd(csv, pos)]).Some? then [KeyedLine(pos, LineKey(csv[pos..LineEnd(csv, pos)]).value)] else [])
    ensures done + KeyedLines(csv, pos) == (done + keyed) + KeyedLines(csv, LineEnd(csv, pos))
  {
    KeyedLinesStep(csv, pos);
    var rest := KeyedLines(csv, LineEnd(csv, pos));
    if keyed != [] {
      assert KeyedLines(csv, pos) == keyed + rest;
      assert done + (keyed + rest) == (done + keyed) + rest;
    } else {
      assert done + keyed == done;
    }
  }

  /** Entry `j` records where keyed line `j` starts and the key it yielded. */
  predicate RecordsOf(entries: seq<EntryDisk>, keys: seq<string>, kls: seq<KeyedLine>)
  {
    |entries| == |kls| && |keys| == |kls| &&
    forall j :: 0 <= j < |kls| ==> entries[j].csvOffset == kls[j].start && keys[j] == kls[j].key
  }

  /** Appending an entry for the next keyed line keeps entries and lines in step. */
  lemma RecordsSnoc(entries: seq<EntryDisk>, keys: seq<string>, kls: seq<KeyedLine>, entry: EntryDisk, kl: KeyedLine)
    requires RecordsOf(entries, keys, kls) && entry.csvOffset == kl.start
    ensures RecordsOf(entries + [entry], keys + [kl.key], kls + [kl])
  {
  }

  /** The body of the builder's loop for the line that starts at `lineStart`: its
      cleaned fourth token, when it has one, inserted with the line's offset. */
  method IndexLine(idx: IndexFile, line: string, lineStart: nat, hash: string -> nat, ghost done: seq<KeyedLine>)
    returns (ghost keyed: seq<KeyedLine>)
    requires idx.Valid(hash) && RecordsOf(idx.entries, idx.keys, done)
    modifies idx, idx.heads
    ensures idx.Valid(hash) && idx.header == old(idx.header)
    ensures keyed == (if LineKey(line).Some? then [KeyedLine(lineStart, LineKey(line).value)] else [])
    ensures RecordsOf(idx.entries, idx.keys, done + keyed)
  {
    var token := FourthToken(CStr(line));
    keyed := [];
    if token.Some? {
      TokensNulFree(CStr(line));
      var key := CleanKey(token.value);
      ghost var entries0, keys0 := idx.entries, idx.keys;
      idx.Insert(key, lineStart, hash);
      keyed := [KeyedLine(lineStart, key)];
      RecordsSnoc(entries0, keys0, done, idx.entries[|entries0|], keyed[0]);
    } else {
      assert done + keyed == done;
    }
  }

  /** `build_index`, minus the file handling: status `-1` when the CSV file has no
      header line (the header and the empty bucket table are written all the same),
      `0` otherwise; one entry per key-bearing line, in file order. */
  method BuildIndex(csv: string, hash: string -> nat) returns (status: int, idx: IndexFile)
    ensures fresh(idx) && fresh(idx.heads)
    ensures idx.Valid(hash) && idx.header == FreshHeader()
    ensures status == (if csv == [] then -1 else 0)
    ensures |idx.entries| == |IndexedLines(csv)|
    ensures forall j :: 0 <= j < |idx.entries| ==>
      idx.entries[j].csvOffset == IndexedLines(csv)[j].start && idx.keys[j] == IndexedLines(csv)[j].key
  {
    idx := new IndexFile();
    assert idx.heads[..] == seq(NBuckets, _ => NoEntry);
    var headerLine := ReadLine(csv, 0);
    if headerLine.None? {
      return -1, idx;
    }
    var pos := |headerLine.value|;
    assert pos == LineEnd(csv, 0);
    IndexLinesFrom(idx, csv, pos, hash);
    status := 0;
  }

  /** The reading loop of `build_index`: every line from `pos` on is read with
      `fgets` and, when it has a key, indexed. */
  method IndexLinesFrom(idx: IndexFile, csv: string, pos: nat, hash: string -> nat)
    requires pos <= |csv| && idx.Valid(hash) && idx.entries == [] && idx.keys == []
    modifies idx, idx.heads
    ensures idx.Valid(hash) && idx.header == old(idx.header)
    ensures RecordsOf(idx.entries, idx.keys, KeyedLines(csv, pos))
  {
    ghost var done: seq<KeyedLine> := [];
    var at := pos;
    var got := ReadLine(csv, at);
    while got.Some?
      invariant at <= |csv| && got == ReadLine(csv, at)
      invariant idx.Valid(hash) && idx.header == old(idx.header)
      invariant KeyedLines(csv, pos) == done + KeyedLines(csv, at)
      invariant RecordsOf(idx.entries, idx.keys, done)
      decreases |csv| - at
    {
      var line := got.value;
      var lineStart := at;
      at := at + |line|;
      assert at == LineEnd(csv, lineStart) && line == csv[lineStart..at];
      ghost var keyed := IndexLine(idx, line, lineStart, hash, done);
      KeyedLinesAdvance(csv, lineStart, done, keyed);
      done := done + keyed;
      got := ReadLine(csv, at);
    }
    assert at == |csv| && KeyedLines(csv, at) == [];
    assert KeyedLines(csv, pos) == done;
  }
}
