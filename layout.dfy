/** The records and constants of `index.h`, where those records sit in the index
    file, and the chains of entries that hang off the bucket table. The index file is
    an arena: a header, a table of `NBuckets` chain heads, then an append-only region
    of fixed-size entries, every link being a byte offset or the sentinel `NoEntry`. */
module IndexLayout {
  import opened Wrappers

  /** `N_BUCKETS` and `KEY_SIZE`. */
  const NBuckets: nat := 1000
  const KeySize: nat := 256

  /** `sizeof(IndexHeader)`, `sizeof(BucketDisk)` and `sizeof(EntryDisk)` on an LP64
      platform (an int, padding and two longs; one long; the key and two longs). The proofs
      only need them positive. */
  const HeaderSize: nat := 24
  const BucketSize: nat := 8
  const EntrySize: nat := 272

  /** `-1`: an empty bucket, or the end of a chain. */
  const NoEntry: int := -1

  /** `IndexHeader`: the bucket count and where the bucket table and the entries start. */
  datatype IndexHeader = IndexHeader(nBuckets: int, offsetBuckets: int, offsetEntries: int)

  /** `EntryDisk`: the stored key buffer, where the record starts in the CSV file,
      and the offset of the next entry of the same bucket. */
  datatype EntryDisk = EntryDisk(key: seq<char>, csvOffset: int, nextEntry: int)

  /** Where the entry region starts: right after the header and the bucket table. */
  const EntryBase: nat := HeaderSize + BucketSize * NBuckets

  /** The header `build_index` writes. */
  function FreshHeader(): IndexHeader
  {
    IndexHeader(NBuckets, HeaderSize, HeaderSize + BucketSize * NBuckets)
  }

  /** The file offset of the `e`-th entry written after the bucket table. */
  function EntryOffset(e: nat): int
  {
    EntryBase + EntrySize * e
  }

  /** Which entry, if any, starts at file offset `off`. */
  function EntryIndex(entries: seq<EntryDisk>, off: int): (r: Option<nat>)
    ensures r.Some? ==> r.value < |entries| && EntryOffset(r.value) == off
  {
    if off >= EntryBase && (off - EntryBase) % EntrySize == 0 && (off - EntryBase) / EntrySize < |entries|
    then Some((off - EntryBase) / EntrySize)
    else None
  }

  lemma EntryIndexOfOffset(entries: seq<EntryDisk>, e: nat)
    requires e < |entries|
    ensures EntryIndex(entries, EntryOffset(e)) == Some(e)
  {
  }

  /** A later entry lies further into the file: offsets grow with the entry count. */
  lemma EntryOffsetsIncrease(e: nat, f: nat)
    requires e < f
    ensures EntryOffset(e) < EntryOffset(f)
  {
  }

  /** `off` is the sentinel or the offset of one of `entries`. */
  predicate IsRef(entries: seq<EntryDisk>, off: int)
  {
    off == NoEntry || EntryIndex(entries, off).Some?
  }

  /** Every entry links to the sentinel or to an entry written before it. */
  predicate LinkedEntries(entries: seq<EntryDisk>)
  {
    forall e :: 0 <= e < |entries| ==>
      IsRef(entries, entries[e].nextEntry) &&
      (entries[e].nextEntry != NoEntry ==> EntryIndex(entries, entries[e].nextEntry).value < e)
  }

  /** The whole arena is linked: every bucket head is a reference as well. */
  predicate Linked(heads: seq<int>, entries: seq<EntryDisk>)
  {
    LinkedEntries(entries) && forall b :: 0 <= b < |heads| ==> IsRef(entries, heads[b])
  }

  /** The entries met walking `current = entry.next_entry` from offset `off` until `-1`,
      by their index in the entry region. */
  function Chain(entries: seq<EntryDisk>, off: int): (c: seq<nat>)
    requires LinkedEntries(entries) && IsRef(entries, off)
    ensures off == NoEntry <==> c == []
    ensures c != [] ==> EntryOffset(c[0]) == off
    decreases if off == NoEntry then 0 else EntryIndex(entries, off).value + 1
  {
    if off == NoEntry then []
    else
      var e := EntryIndex(entries, off).value;
      [e] + Chain(entries, entries[e].nextEntry)
  }

  /** A chain lists existing entries, each at most once, newest first. */
  lemma {:induction false} ChainShape(entries: seq<EntryDisk>, off: int)
    requires LinkedEntries(entries) && IsRef(entries, off)
    ensures forall i :: 0 <= i < |Chain(entries, off)| ==> Chain(entries, off)[i] < |entries|
    ensures forall i, j :: 0 <= i < j < |Chain(entries, off)| ==> Chain(entries, off)[i] > Chain(entries, off)[j]
    decreases if off == NoEntry then 0 else EntryIndex(entries, off).value + 1
  {
    if off != NoEntry {
      var e := EntryIndex(entries, off).value;
      var next := entries[e].nextEntry;
      ChainShape(entries, next);
      var rest := Chain(entries, next);
      if rest != [] {
        EntryIndexOfOffset(entries, rest[0]);
        assert rest[0] < e;
        assert forall j :: 0 <= j < |rest| ==> rest[j] <= rest[0];
      }
      assert Chain(entries, off) == [e] + rest;
    }
  }

  lemma {:induction false} ChainExtend(entries: seq<EntryDisk>, extra: seq<EntryDisk>, off: int)
    requires LinkedEntries(entries) && LinkedEntries(entries + extra) && IsRef(entries, off)
    ensures IsRef(entries + extra, off)
    ensures Chain(entries + extra, off) == Chain(entries, off)
    decreases if off == NoEntry then 0 else EntryIndex(entries, off).value + 1
  {
    if off != NoEntry {
      var e := EntryIndex(entries, off).value;
      EntryIndexOfOffset(entries + extra, e);
      assert (entries + extra)[e] == entries[e];
      ChainExtend(entries, extra, entries[e].nextEntry);
    }
  }

  /** The head offset read for bucket `b`; a bucket outside the table reads as empty
      (the searches then skip it). */
  function HeadAt(heads: seq<int>, b: int): int
  {
    if 0 <= b < |heads| then heads[b] else NoEntry
  }

  // ---------------------------------------------------------------------------
  // Which bucket a key belongs to
  // ---------------------------------------------------------------------------

  /** `hash_string(key) % N_BUCKETS`. */
  function Bucket(hash: string -> nat, key: string): nat
  {
    hash(key) % NBuckets
  }

  /** The indices of the keys that hash to bucket `b`, newest first. */
  function Members(keys: seq<string>, hash: string -> nat, b: int): (m: seq<nat>)
    ensures forall i, j :: 0 <= i < j < |m| ==> m[i] > m[j]
    ensures forall i :: 0 <= i < |m| ==> m[i] < |keys|
    decreases |keys|
  {
    if keys == [] then []
    else
      var last := |keys| - 1;
      var rest := Members(keys[..last], hash, b);
      if Bucket(hash, keys[last]) == b then [last] + rest else rest
  }

  /** A key index is a member of bucket `b` exactly when the key hashes there. */
  lemma {:induction false} MembersExactly(keys: seq<string>, hash: string -> nat, b: int, j: nat)
    ensures j in Members(keys, hash, b) <==> j < |keys| && Bucket(hash, keys[j]) == b
    decreases |keys|
  {
    if keys != [] {
      var last := |keys| - 1;
      MembersExactly(keys[..last], hash, b, j);
      if j < last {
        assert keys[..last][j] == keys[j];
      }
    }
  }

  // ---------------------------------------------------------------------------
  // The probe window of the searches
  // ---------------------------------------------------------------------------

  /** `RANGE` / `BUCKET_RANGE`: the neighbours probed on each side of the home bucket. */
  const Radius: int := 12

  /** The bucket indices `h + off`, for `off` from `lo` up to `hi`, that fall inside `[0, n)`,
      in the order the `for (offset = ...; offset <= ...; offset++)` loops visit them. */
  function Probe(h: int, lo: int, hi: int, n: int): (w: seq<int>)
    ensures |w| <= if lo <= hi then hi + 1 - lo else 0
    decreases hi - lo
  {
    if hi < lo then []
    else Probe(h, lo, hi - 1, n) + (if 0 <= h + hi < n then [h + hi] else [])
  }

  /** Widening the window by one offset adds that bucket when it exists. */
  lemma ProbeStep(h: int, lo: int, hi: int, n: int)
    requires lo <= hi
    ensures 0 <= h + hi < n ==> Probe(h, lo, hi, n) == Probe(h, lo, hi - 1, n) + [h + hi]
    ensures !(0 <= h + hi < n) ==> Probe(h, lo, hi, n) == Probe(h, lo, hi - 1, n)
  {
    if !(0 <= h + hi < n) {
      assert Probe(h, lo, hi - 1, n) + [] == Probe(h, lo, hi - 1, n);
    }
  }

  predicate Ascending(w: seq<int>)
  {
    forall i, j :: 0 <= i < j < |w| ==> w[i] < w[j]
  }

  /** The probed buckets are those of the window that exist, each once, in order. */
  lemma {:induction false} ProbeMembers(h: int, lo: int, hi: int, n: int)
    ensures forall b :: b in Probe(h, lo, hi, n) <==> lo <= b - h <= hi && 0 <= b < n
    ensures Ascending(Probe(h, lo, hi, n))
    decreases hi - lo
  {
    if lo <= hi {
      ProbeMembers(h, lo, hi - 1, n);
      var w := Probe(h, lo, hi - 1, n);
      if 0 <= h + hi < n {
        var v := w + [h + hi];
        assert Probe(h, lo, hi, n) == v;
        forall i, j | 0 <= i < j < |v| ensures v[i] < v[j] {
          assert v[i] == w[i];
          assert w[i] in w;
          if j < |w| {
            assert v[j] == w[j];
          }
        }
      } else {
        assert Probe(h, lo, hi, n) == w + [];
        assert w + [] == w;
      }
    }
  }

  /** Every entry inspected when the chains of `buckets` are walked one after the other. */
  function Visit(heads: seq<int>, entries: seq<EntryDisk>, buckets: seq<int>): (v: seq<nat>)
    requires Linked(heads, entries)
    decreases |buckets|
  {
    if buckets == [] then []
    else
      var last := |buckets| - 1;
      Visit(heads, entries, buckets[..last]) + Chain(entries, HeadAt(heads, buckets[last]))
  }

  /** Only existing entries are inspected. */
  lemma {:induction false} VisitInRange(heads: seq<int>, entries: seq<EntryDisk>, buckets: seq<int>)
    requires Linked(heads, entries)
    ensures forall i :: 0 <= i < |Visit(heads, entries, buckets)| ==> Visit(heads, entries, buckets)[i] < |entries|
    decreases |buckets|
  {
    if buckets != [] {
      var last := |buckets| - 1;
      VisitInRange(heads, entries, buckets[..last]);
      ChainShape(entries, HeadAt(heads, buckets[last]));
    }
  }

  /** Visiting a longer run of the same probe loop extends what a shorter run inspected. */
  lemma {:induction false} VisitProbeGrows(heads: seq<int>, entries: seq<EntryDisk>, h: int, lo: int, a: int, b: int, n: int)
    requires Linked(heads, entries) && a <= b
    ensures Visit(heads, entries, Probe(h, lo, a, n)) <= Visit(heads, entries, Probe(h, lo, b, n))
    decreases b - a
  {
    if a < b {
      VisitProbeGrows(heads, entries, h, lo, a, b - 1, n);
      if lo <= b {
        var w := Probe(h, lo, b - 1, n);
        var tail := if 0 <= h + b < n then [h + b] else [];
        if tail != [] {
          assert (w + tail)[..|w + tail| - 1] == w;
        } else {
          assert w + tail == w;
        }
      }
    }
  }

  /** Walking one more bucket appends its chain to what was inspected. */
  lemma VisitSnoc(heads: seq<int>, entries: seq<EntryDisk>, buckets: seq<int>, b: int)
    requires Linked(heads, entries)
    ensures Visit(heads, entries, buckets + [b]) == Visit(heads, entries, buckets) + Chain(entries, HeadAt(heads, b))
  {
    assert (buckets + [b])[..|buckets|] == buckets;
  }

  /** Every entry of a probed bucket's chain is inspected... */
  lemma {:induction false} VisitCovers(heads: seq<int>, entries: seq<EntryDisk>, buckets: seq<int>, i: nat, x: nat)
    requires Linked(heads, entries) && i < |buckets| && x in Chain(entries, HeadAt(heads, buckets[i]))
    ensures x in Visit(heads, entries, buckets)
    decreases |buckets|
  {
    var last := |buckets| - 1;
    if i < last {
      assert buckets[..last][i] == buckets[i];
      VisitCovers(heads, entries, buckets[..last], i, x);
    }
  }

  /** ...and nothing else is. */
  lemma {:induction false} VisitWithin(heads: seq<int>, entries: seq<EntryDisk>, buckets: seq<int>, x: nat)
    requires Linked(heads, entries) && x in Visit(heads, entries, buckets)
    ensures exists i :: 0 <= i < |buckets| && x in Chain(entries, HeadAt(heads, buckets[i]))
    decreases |buckets|
  {
    var last := |buckets| - 1;
    if x !in Chain(entries, HeadAt(heads, buckets[last])) {
      VisitWithin(heads, entries, buckets[..last], x);
      var i :| 0 <= i < last && x in Chain(entries, HeadAt(heads, buckets[..last][i]));
      assert buckets[..last][i] == buckets[i];
    }
  }

  // ---------------------------------------------------------------------------
  // Filtering an inspected sequence
  // ---------------------------------------------------------------------------

  /** The elements of `xs` that satisfy `keep`, in order. */
  function Filter<T>(xs: seq<T>, keep: T -> bool): (r: seq<T>)
    ensures |r| <= |xs|
    decreases |xs|
  {
    if xs == [] then []
    else
      var last := |xs| - 1;
      Filter(xs[..last], keep) + (if keep(xs[last]) then [xs[last]] else [])
  }

  /** `Filter` keeps exactly the elements that satisfy `keep`. */
  lemma {:induction false} FilterMembers<T>(xs: seq<T>, keep: T -> bool, x: T)
    ensures x in Filter(xs, keep) <==> x in xs && keep(x)
    decreases |xs|
  {
    if xs != [] {
      var last := |xs| - 1;
      FilterMembers(xs[..last], keep, x);
      assert xs == xs[..last] + [xs[last]];
    }
  }

  lemma {:induction false} FilterAppend<T>(xs: seq<T>, ys: seq<T>, keep: T -> bool)
    ensures Filter(xs + ys, keep) == Filter(xs, keep) + Filter(ys, keep)
    decreases |ys|
  {
    if ys == [] {
      assert xs + ys == xs;
    } else {
      var last := |ys| - 1;
      assert (xs + ys)[..|xs + ys| - 1] == xs + ys[..last];
      FilterAppend(xs, ys[..last], keep);
    }
  }

  lemma FilterPrefix<T>(xs: seq<T>, ys: seq<T>, keep: T -> bool)
    requires xs <= ys
    ensures Filter(xs, keep) <= Filter(ys, keep)
  {
    assert ys == xs + ys[|xs|..];
    FilterAppend(xs, ys[|xs|..], keep);
  }

  /** Nothing is kept when no element satisfies `keep`. */
  lemma {:induction false} FilterNone<T>(xs: seq<T>, keep: T -> bool)
    requires forall i :: 0 <= i < |xs| ==> !keep(xs[i])
    ensures Filter(xs, keep) == []
    decreases |xs|
  {
    if xs != [] {
      var last := |xs| - 1;
      FilterNone(xs[..last], keep);
    }
  }

  /** Once a prefix of `ys` already yields `k` kept elements, those are the first `k`
      kept elements of `ys`. */
  lemma FilterCap<T>(xs: seq<T>, ys: seq<T>, keep: T -> bool, k: nat)
    requires xs <= ys && |Filter(xs, keep)| == k
    ensures k <= |Filter(ys, keep)| && Filter(ys, keep)[..k] == Filter(xs, keep)
  {
    FilterPrefix(xs, ys, keep);
  }
}
