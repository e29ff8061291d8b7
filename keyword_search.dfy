/** `search_by_keyword` (index2.c): probe the keyword's home bucket (exact mode) or
    the home bucket and `RANGE` neighbours on each side (substring mode), walk each
    chain, and count and print the matching records, stopping at the fiftieth. */
module KeywordSearch {
  import opened Wrappers
  import opened Text
  import opened IndexLayout
  import opened RecordStore
  import opened KeyText
  import opened Builder

  /** The search stops once this many matches have been counted. */
  const MaxMatches: nat := 50

  /** The test applied to a stored key: `strcasecmp` equality in exact mode,
      `ci_strcasestr` containment otherwise. */
  predicate KeywordMatch(storedKey: seq<char>, keyword: string, exact: bool)
  {
    if exact then CiEqual(CStr(storedKey), keyword) else CiStrStr(CStr(storedKey), keyword).Some?
  }

  /** The buckets probed, in probing order. */
  function Window(hash: string -> nat, keyword: string, exact: bool): seq<int>
  {
    var h := Bucket(hash, keyword);
    if exact then Probe(h, 0, 0, NBuckets) else Probe(h, -Radius, Radius, NBuckets)
  }

  /** Exact mode probes the home bucket alone; substring mode the buckets within
      `RANGE` of it that exist. */
  lemma WindowIsNeighbourhood(hash: string -> nat, keyword: string, exact: bool)
    ensures var h := Bucket(hash, keyword);
      forall b :: b in Window(hash, keyword, exact) <==>
        0 <= b < NBuckets && (if exact then b == h else h - Radius <= b <= h + Radius)
  {
    var h := Bucket(hash, keyword);
    if exact {
      ProbeMembers(h, 0, 0, NBuckets);
    } else {
      ProbeMembers(h, -Radius, Radius, NBuckets);
    }
  }

  function Keep(entries: seq<EntryDisk>, keyword: string, exact: bool): nat -> bool
  {
    (e: nat) => e < |entries| && KeywordMatch(entries[e].key, keyword, exact)
  }

  /** The first `MAX_RESULTS` of a trace of matches: all of them when there are fewer. */
  function Capped(s: seq<nat>): (r: seq<nat>)
    ensures r <= s && |r| == (if |s| < MaxMatches then |s| else MaxMatches)
  {
    if |s| < MaxMatches then s else s[..MaxMatches]
  }

  /** Every matching entry, in the order the search meets them. */
  function KeywordMatches(heads: seq<int>, entries: seq<EntryDisk>, hash: string -> nat, keyword: string, exact: bool): seq<nat>
    requires Linked(heads, entries)
  {
    Filter(Visit(heads, entries, Window(hash, keyword, exact)), Keep(entries, keyword, exact))
  }

  /** What is printed for one match: its line re-read from the CSV (only up to a
      NUL, as `printf("%s")` does), or nothing when the line cannot be read. */
  function RecordOf(csv: string, entries: seq<EntryDisk>, e: nat): seq<string>
  {
    if e < |entries| && ReadLine(csv, entries[e].csvOffset).Some? then [CStr(ReadLine(csv, entries[e].csvOffset).value)] else []
  }

  /** The records printed for the matches `ms`, in order; a match whose line cannot
      be read still counts but prints nothing. */
  function Printed(csv: string, entries: seq<EntryDisk>, ms: seq<nat>): seq<string>
    decreases |ms|
  {
    if ms == [] then []
    else
      var last := |ms| - 1;
      Printed(csv, entries, ms[..last]) + RecordOf(csv, entries, ms[last])
  }

  lemma PrintedSnoc(csv: string, entries: seq<EntryDisk>, ms: seq<nat>, e: nat)
    ensures Printed(csv, entries, ms + [e]) == Printed(csv, entries, ms) + RecordOf(csv, entries, e)
  {
    assert (ms + [e])[..|ms|] == ms;
  }

  lemma {:induction false} PrintedAppend(csv: string, entries: seq<EntryDisk>, ms: seq<nat>, ns: seq<nat>)
    ensures Printed(csv, entries, ms + ns) == Printed(csv, entries, ms) + Printed(csv, entries, ns)
    decreases |ns|
  {
    if ns == [] {
      assert ms + ns == ms;
    } else {
      var last := |ns| - 1;
      assert (ms + ns)[..|ms + ns| - 1] == ms + ns[..last];
      PrintedAppend(csv, entries, ms, ns[..last]);
    }
  }

  /** At most one printed record per match. */
  lemma {:induction false} PrintedAtMost(csv: string, entries: seq<EntryDisk>, ms: seq<nat>)
    ensures |Printed(csv, entries, ms)| <= |ms|
    decreases |ms|
  {
    if ms != [] {
      PrintedAtMost(csv, entries, ms[..|ms| - 1]);
    }
  }

  /** A match whose line can be read is printed. */
  lemma {:induction false} PrintedIncludes(csv: string, entries: seq<EntryDisk>, ms: seq<nat>, i: nat)
    requires i < |ms| && ms[i] < |entries| && ReadLine(csv, entries[ms[i]].csvOffset).Some?
    ensures CStr(ReadLine(csv, entries[ms[i]].csvOffset).value) in Printed(csv, entries, ms)
    decreases |ms|
  {
    var last := |ms| - 1;
    var init := ms[..last];
    assert Printed(csv, entries, ms) == Printed(csv, entries, init) + RecordOf(csv, entries, ms[last]);
    if i < last {
      assert init[i] == ms[i];
      PrintedIncludes(csv, entries, init, i);
    } else {
      assert RecordOf(csv, entries, ms[i]) == [CStr(ReadLine(csv, entries[ms[i]].csvOffset).value)];
    }
  }

  // ---------------------------------------------------------------------------
  // What the matches are
  // ---------------------------------------------------------------------------

  /** On a built index, an entry is a match exactly when its stored key passes the
      test and its key hashes into a probed bucket. */
  lemma KeywordMatchesExactly(heads: seq<int>, entries: seq<EntryDisk>, keys: seq<string>, hash: string -> nat,
                              keyword: string, exact: bool, e: nat)
    requires Built(heads, entries, keys, hash)
    ensures e in KeywordMatches(heads, entries, hash, keyword, exact) <==>
      e < |entries| && KeywordMatch(entries[e].key, keyword, exact) && Bucket(hash, keys[e]) in Window(hash, keyword, exact)
  {
    var w := Window(hash, keyword, exact);
    var keep := Keep(entries, keyword, exact);
    var v := Visit(heads, entries, w);
    FilterMembers(v, keep, e);
    if e in KeywordMatches(heads, entries, hash, keyword, exact) {
      VisitWithin(heads, entries, w, e);
      var i :| 0 <= i < |w| && e in Chain(entries, HeadAt(heads, w[i]));
      assert w[i] in w;
      WindowIsNeighbourhood(hash, keyword, exact);
      ChainsPartitionEntries(heads, entries, keys, hash, e, w[i]);
    }
    if e < |entries| && KeywordMatch(entries[e].key, keyword, exact) && Bucket(hash, keys[e]) in w {
      var b := Bucket(hash, keys[e]);
      var i :| 0 <= i < |w| && w[i] == b;
      WindowIsNeighbourhood(hash, keyword, exact);
      ChainsPartitionEntries(heads, entries, keys, hash, e, b);
      assert HeadAt(heads, w[i]) == heads[b];
      VisitCovers(heads, entries, w, i, e);
    }
  }

  /** A key of fewer than `KEY_SIZE` characters matches its own stored copy, in
      either mode. */
  lemma StoredKeyMatches(key: string, exact: bool)
    requires |key| < KeySize && forall i :: 0 <= i < |key| ==> key[i] != '\0'
    ensures KeywordMatch(StoreKey(key), key, exact)
  {
    StoredKeyReadsBack(key);
    assert CStr(key) == key;
    assert MatchAt(key, key, 0);
  }

  /** A key longer than `KEY_SIZE - 1` characters is hashed in full but stored cut
      short, so an exact search for the full key never matches its own entry. */
  lemma LongKeyMissedByExactSearch(key: string)
    requires |key| >= KeySize && forall i :: 0 <= i < |key| ==> key[i] != '\0'
    ensures !KeywordMatch(StoreKey(key), key, true)
  {
    StoredKeyReadsBack(key);
    assert CStr(key) == key;
  }

  /** The keys `build_index` derives are C strings: no key holds a NUL. */
  lemma IndexedKeyIsCString(csv: string, j: nat)
    requires j < |IndexedLines(csv)|
    ensures var key := IndexedLines(csv)[j].key; forall i :: 0 <= i < |key| ==> key[i] != '\0'
  {
    var kl := IndexedLines(csv)[j];
    IndexedLinesAreLines(csv);
    assert kl in IndexedLines(csv);
    var line := ReadLine(csv, kl.start).value;
    var toks := Tokens(CStr(line));
    TokensNulFree(CStr(line));
    CleanedShape(toks[3]);
  }

  /** The keyword's home bucket is always probed. */
  lemma HomeBucketProbed(hash: string -> nat, keyword: string, exact: bool)
    ensures Bucket(hash, keyword) in Window(hash, keyword, exact)
  {
    WindowIsNeighbourhood(hash, keyword, exact);
  }

  /** The line of an indexed record can be read back at its stored offset. */
  lemma IndexedLineReadable(csv: string, j: nat)
    requires j < |IndexedLines(csv)|
    ensures ReadLine(csv, IndexedLines(csv)[j].start).Some?
  {
    IndexedLinesAreLines(csv);
    assert IndexedLines(csv)[j] in IndexedLines(csv);
  }

  /** The index round trip: every record `build_index` indexed under a key of fewer
      than `KEY_SIZE` characters is a match of an exact search for that key, and of
      a substring search for it, and it is among the printed records whenever the
      search does not hit its cap. */
  lemma IndexedRecordIsFound(csv: string, heads: seq<int>, entries: seq<EntryDisk>, keys: seq<string>,
                             hash: string -> nat, j: nat, exact: bool)
    requires Built(heads, entries, keys, hash)
    requires |entries| == |IndexedLines(csv)|
    requires forall i :: 0 <= i < |entries| ==>
      entries[i].csvOffset == IndexedLines(csv)[i].start && keys[i] == IndexedLines(csv)[i].key
    requires j < |entries| && |keys[j]| < KeySize
    ensures var m := KeywordMatches(heads, entries, hash, keys[j], exact);
      j in m && ReadLine(csv, IndexedLines(csv)[j].start).Some? &&
      (|m| <= MaxMatches ==> CStr(ReadLine(csv, IndexedLines(csv)[j].start).value) in Printed(csv, entries, m))
  {
    var key := keys[j];
    IndexedKeyIsCString(csv, j);
    StoredKeyMatches(key, exact);
    assert entries[j].key == StoreKey(key);
    HomeBucketProbed(hash, key, exact);
    KeywordMatchesExactly(heads, entries, keys, hash, key, exact, j);
    var m := KeywordMatches(heads, entries, hash, key, exact);
    assert j in m;
    var i :| 0 <= i < |m| && m[i] == j;
    IndexedLineReadable(csv, j);
    assert entries[m[i]].csvOffset == IndexedLines(csv)[j].start;
    PrintedIncludes(csv, entries, m, i);
  }

  /** The round trip over the CSV itself: every line after the header line whose
      fourth token cleans to a key of fewer than `KEY_SIZE` characters has an entry
      at its offset that a search for that key matches, and the line is printed
      whenever the search does not hit its cap. */
  lemma LineIsFound(csv: string, heads: seq<int>, entries: seq<EntryDisk>, keys: seq<string>,
                    hash: string -> nat, p: nat, exact: bool)
    requires Built(heads, entries, keys, hash)
    requires |entries| == |IndexedLines(csv)|
    requires forall i :: 0 <= i < |entries| ==>
      entries[i].csvOffset == IndexedLines(csv)[i].start && keys[i] == IndexedLines(csv)[i].key
    requires 0 < p < |csv| && AtLineStart(csv, p)
    requires LineKey(ReadLine(csv, p).value).Some? && |LineKey(ReadLine(csv, p).value).value| < KeySize
    ensures exists j :: (0 <= j < |entries| && entries[j].csvOffset == p &&
                         j in KeywordMatches(heads, entries, hash, LineKey(ReadLine(csv, p).value).value, exact))
    ensures |KeywordMatches(heads, entries, hash, LineKey(ReadLine(csv, p).value).value, exact)| <= MaxMatches ==>
      CStr(ReadLine(csv, p).value) in Printed(csv, entries, KeywordMatches(heads, entries, hash, LineKey(ReadLine(csv, p).value).value, exact))
  {
    var key := LineKey(ReadLine(csv, p).value).value;
    IndexedLinesComplete(csv, p);
    var j :| 0 <= j < |IndexedLines(csv)| && IndexedLines(csv)[j] == KeyedLine(p, key);
    assert keys[j] == key && entries[j].csvOffset == p;
    IndexedRecordIsFound(csv, heads, entries, keys, hash, j, exact);
  }

  // ---------------------------------------------------------------------------
  // The search
  // ---------------------------------------------------------------------------

  /** The matches of the chain that starts at `off`, in walking order. */
  function ChainMatches(entries: seq<EntryDisk>, off: int, keep: nat -> bool): seq<nat>
    requires LinkedEntries(entries) && IsRef(entries, off)
    decreases if off == NoEntry then 0 else EntryIndex(entries, off).value + 1
  {
    if off == NoEntry then []
    else
      var e := EntryIndex(entries, off).value;
      (if keep(e) then [e] else []) + ChainMatches(entries, entries[e].nextEntry, keep)
  }

  /** Walking a chain and keeping the matches is filtering the chain. */
  lemma {:induction false} ChainMatchesIsFilter(entries: seq<EntryDisk>, off: int, keep: nat -> bool)
    requires LinkedEntries(entries) && IsRef(entries, off)
    ensures ChainMatches(entries, off, keep) == Filter(Chain(entries, off), keep)
    decreases if off == NoEntry then 0 else EntryIndex(entries, off).value + 1
  {
    if off != NoEntry {
      var e := EntryIndex(entries, off).value;
      var next := entries[e].nextEntry;
      var rest := Chain(entries, next);
      ChainMatchesIsFilter(entries, next, keep);
      FilterAppend([e], rest, keep);
      assert Chain(entries, off) == [e] + rest;
      assert [e][..0] == [];
      if keep(e) {
        assert Filter([e], keep) == [e];
        assert ChainMatches(entries, off, keep) == [e] + ChainMatches(entries, next, keep);
      } else {
        assert Filter([e], keep) == [];
        assert ChainMatches(entries, off, keep) == ChainMatches(entries, next, keep);
      }
    }
  }

  /** One step of a chain walk: the entry at `current` is read, then the walk goes
      on to its successor. */
  lemma WalkStep(entries: seq<EntryDisk>, current: int, keep: nat -> bool, done: seq<nat>)
    requires LinkedEntries(entries) && IsRef(entries, current) && current != NoEntry
    ensures var e := (current - EntryBase) / EntrySize; var next := entries[e].nextEntry;
      e < |entries| && IsRef(entries, next) &&
      (next != NoEntry ==> EntryIndex(entries, next).value < EntryIndex(entries, current).value) &&
      (keep(e) ==> done + ChainMatches(entries, current, keep) == (done + [e]) + ChainMatches(entries, next, keep)) &&
      (!keep(e) ==> done + ChainMatches(entries, current, keep) == done + ChainMatches(entries, next, keep))
  {
    var e := (current - EntryBase) / EntrySize;
    var rest := ChainMatches(entries, entries[e].nextEntry, keep);
    if keep(e) {
      assert ChainMatches(entries, current, keep) == [e] + rest;
      assert done + ([e] + rest) == (done + [e]) + rest;
    } else {
      assert ChainMatches(entries, current, keep) == [] + rest;
      assert [] + rest == rest;
    }
  }

  /** Counting one more match: the trace grows by the match, and the printed records
      by its line when that line can be read. */
  lemma CountStep(csv: string, entries: seq<EntryDisk>, done0: seq<nat>, walked: seq<nat>, e: nat)
    ensures done0 + (walked + [e]) == (done0 + walked) + [e]
    ensures Printed(csv, entries, (done0 + walked) + [e]) == Printed(csv, entries, done0 + walked) + RecordOf(csv, entries, e)
  {
    PrintedSnoc(csv, entries, done0 + walked, e);
  }

  /** The counting part of `search_by_keyword` for the chain that starts at `start`.
      The ghost trace `done` lists the matches counted so far, in order; the count is its
      length and the printed records are those of its matches. The walk appends the
      chain's matches to the trace until it holds `MAX_RESULTS` of them. */
  method WalkChain(entries: seq<EntryDisk>, csv: string, keyword: string, exact: bool, start: int,
                   found0: nat, lines0: seq<string>, ghost done0: seq<nat>)
    returns (found: nat, lines: seq<string>, ghost done: seq<nat>)
    requires LinkedEntries(entries) && IsRef(entries, start)
    requires found0 == |done0| < MaxMatches && lines0 == Printed(csv, entries, done0)
    ensures found == |done| && lines == Printed(csv, entries, done)
    ensures done == Capped(done0 + Filter(Chain(entries, start), Keep(entries, keyword, exact)))
  {
    found, lines, done := found0, lines0, done0;
    ghost var keep := Keep(entries, keyword, exact);
    ChainMatchesIsFilter(entries, start, keep);
    ghost var whole := done0 + ChainMatches(entries, start, keep);
    ghost var walked: seq<nat> := [];
    var current := start;
    while current != NoEntry
      invariant IsRef(entries, current)
      invariant ChainMatches(entries, start, keep) == walked + ChainMatches(entries, current, keep)
      invariant done == done0 + walked && found == |done| < MaxMatches
      invariant lines == Printed(csv, entries, done)
      decreases if current == NoEntry then 0 else EntryIndex(entries, current).value + 1
    {
      WalkStep(entries, current, keep, walked);
      var e: nat := (current - EntryBase) / EntrySize;
      var entry := entries[e];
      var isMatch := if exact then CiEqual(CStr(entry.key), keyword) else CiStrStr(CStr(entry.key), keyword).Some?;
      assert isMatch == keep(e);
      if isMatch {
        CountStep(csv, entries, done0, walked, e);
        found := found + 1;
        var got := ReadLine(csv, entry.csvOffset);
        if got.Some? {
          assert RecordOf(csv, entries, e) == [CStr(got.value)];
          lines := lines + [CStr(got.value)];
        } else {
          assert RecordOf(csv, entries, e) == [];
          assert lines + [] == lines;
        }
        walked := walked + [e];
        done := done + [e];
        if found >= MaxMatches {
          assert done <= whole;
          FullCap(done, whole);
          return;
        }
      }
      current := entry.nextEntry;
    }
    assert walked + [] == walked;
    assert done == whole;
    assert Capped(whole) == whole;
  }

  /** Probing one more bucket appends the matches of its chain. */
  lemma BucketStep(heads: seq<int>, entries: seq<EntryDisk>, keep: nat -> bool, before: seq<int>, b: int)
    requires Linked(heads, entries)
    ensures Filter(Visit(heads, entries, before + [b]), keep) ==
      Filter(Visit(heads, entries, before), keep) + Filter(Chain(entries, HeadAt(heads, b)), keep)
  {
    VisitSnoc(heads, entries, before, b);
    FilterAppend(Visit(heads, entries, before), Chain(entries, HeadAt(heads, b)), keep);
  }

  /** Widening the window by one offset appends the matches of that bucket's chain,
      when the bucket exists. */
  lemma WindowStep(heads: seq<int>, entries: seq<EntryDisk>, keep: nat -> bool, h: int, lo: int, offset: int, n: int)
    requires Linked(heads, entries) && lo <= offset
    ensures 0 <= h + offset < n ==>
      Filter(Visit(heads, entries, Probe(h, lo, offset, n)), keep) ==
      Filter(Visit(heads, entries, Probe(h, lo, offset - 1, n)), keep) + Filter(Chain(entries, HeadAt(heads, h + offset)), keep)
    ensures !(0 <= h + offset < n) ==>
      Filter(Visit(heads, entries, Probe(h, lo, offset, n)), keep) == Filter(Visit(heads, entries, Probe(h, lo, offset - 1, n)), keep)
  {
    ProbeStep(h, lo, offset, n);
    if 0 <= h + offset < n {
      BucketStep(heads, entries, keep, Probe(h, lo, offset - 1, n), h + offset);
    }
  }

  /** Widening the window only adds matches at the end. */
  lemma WindowGrows(heads: seq<int>, entries: seq<EntryDisk>, keep: nat -> bool, h: int, lo: int, a: int, b: int, n: int)
    requires Linked(heads, entries) && a <= b
    ensures Filter(Visit(heads, entries, Probe(h, lo, a, n)), keep) <= Filter(Visit(heads, entries, Probe(h, lo, b, n)), keep)
  {
    VisitProbeGrows(heads, entries, h, lo, a, b, n);
    FilterPrefix(Visit(heads, entries, Probe(h, lo, a, n)), Visit(heads, entries, Probe(h, lo, b, n)), keep);
  }

  /** A prefix of `s` that holds `MAX_RESULTS` matches is what the cap keeps of `s`. */
  lemma FullCap(r: seq<nat>, s: seq<nat>)
    requires r <= s && |r| == MaxMatches
    ensures Capped(s) == r
  {
  }

  /** Once a prefix of `m` holds `MAX_RESULTS` matches, whatever follows it is cut off. */
  lemma CapInPrefix(g: seq<nat>, m: seq<nat>)
    requires g <= m && |g| >= MaxMatches
    ensures Capped(g) == Capped(m)
  {
  }

  /** Once the buckets up to `offset` hold `MAX_RESULTS` matches, the buckets after it
      add nothing to what is printed. */
  lemma CapReached(heads: seq<int>, entries: seq<EntryDisk>, keep: nat -> bool, h: int, lo: int, offset: int, hi: int, done: seq<nat>)
    requires Linked(heads, entries) && offset <= hi
    requires done == Capped(Filter(Visit(heads, entries, Probe(h, lo, offset, NBuckets)), keep)) && |done| >= MaxMatches
    ensures done == Capped(Filter(Visit(heads, entries, Probe(h, lo, hi, NBuckets)), keep))
  {
    WindowGrows(heads, entries, keep, h, lo, offset, hi, NBuckets);
    CapInPrefix(Filter(Visit(heads, entries, Probe(h, lo, offset, NBuckets)), keep), Filter(Visit(heads, entries, Probe(h, lo, hi, NBuckets)), keep));
  }

  /** One iteration of the probing loop: the chain of bucket `h + offset`, when that
      bucket exists, is walked on top of what earlier buckets counted. */
  method ProbeBucket(heads: seq<int>, entries: seq<EntryDisk>, csv: string, keyword: string, exact: bool, h: int, lo: int, offset: int,
                     found0: nat, lines0: seq<string>, ghost done0: seq<nat>)
    returns (found: nat, lines: seq<string>, ghost done: seq<nat>)
    requires |heads| == NBuckets && Linked(heads, entries) && lo <= offset
    requires done0 == Filter(Visit(heads, entries, Probe(h, lo, offset - 1, NBuckets)), Keep(entries, keyword, exact))
    requires found0 == |done0| < MaxMatches && lines0 == Printed(csv, entries, done0)
    ensures found == |done| && lines == Printed(csv, entries, done)
    ensures done == Capped(Filter(Visit(heads, entries, Probe(h, lo, offset, NBuckets)), Keep(entries, keyword, exact)))
  {
    ghost var keep := Keep(entries, keyword, exact);
    ghost var g := Filter(Visit(heads, entries, Probe(h, lo, offset, NBuckets)), keep);
    WindowStep(heads, entries, keep, h, lo, offset, NBuckets);
    var bucketIndex := h + offset;
    if 0 <= bucketIndex < NBuckets {
      ghost var c := Filter(Chain(entries, HeadAt(heads, bucketIndex)), keep);
      assert g == done0 + c;
      assert heads[bucketIndex] == HeadAt(heads, bucketIndex);
      found, lines, done := WalkChain(entries, csv, keyword, exact, heads[bucketIndex], found0, lines0, done0);
      assert done == Capped(done0 + c);
    } else {
      assert g == done0;
      found, lines, done := found0, lines0, done0;
    }
  }

  /** The probing loop of `search_by_keyword`: buckets `h + lo` .. `h + hi` in turn,
      stopping once `MAX_RESULTS` matches have been printed. */
  method ProbeWindow(heads: seq<int>, entries: seq<EntryDisk>, csv: string, keyword: string, exact: bool, h: int, lo: int, hi: int)
    returns (found: nat, lines: seq<string>)
    requires |heads| == NBuckets && Linked(heads, entries) && lo <= hi
    ensures found == |Capped(Filter(Visit(heads, entries, Probe(h, lo, hi, NBuckets)), Keep(entries, keyword, exact)))|
    ensures lines == Printed(csv, entries, Capped(Filter(Visit(heads, entries, Probe(h, lo, hi, NBuckets)), Keep(entries, keyword, exact))))
  {
    found := 0;
    lines := [];
    ghost var keep := Keep(entries, keyword, exact);
    ghost var done: seq<nat> := [];
    var offset := lo;
    while offset <= hi
      invariant lo <= offset <= hi + 1
      invariant done == Filter(Visit(heads, entries, Probe(h, lo, offset - 1, NBuckets)), keep)
      invariant found == |done| < MaxMatches && lines == Printed(csv, entries, done)
    {
      found, lines, done := ProbeBucket(heads, entries, csv, keyword, exact, h, lo, offset, found, lines, done);
      if found >= MaxMatches {
        CapReached(heads, entries, keep, h, lo, offset, hi, done);
        return;
      }
      ghost var g := Filter(Visit(heads, entries, Probe(h, lo, offset, NBuckets)), keep);
      assert done == g;
      offset := offset + 1;
    }
    assert offset - 1 == hi;
  }

  /** `search_by_keyword`, minus the file handling and the timing: how many matches
      it counts and which records it prints. */
  method SearchByKeyword(idx: IndexFile, csv: string, hash: string -> nat, keyword: string, exact: bool)
    returns (found: nat, lines: seq<string>)
    requires idx.heads.Length == NBuckets && Linked(idx.heads[..], idx.entries)
    ensures found == |Capped(KeywordMatches(idx.heads[..], idx.entries, hash, keyword, exact))|
    ensures lines == Printed(csv, idx.entries, Capped(KeywordMatches(idx.heads[..], idx.entries, hash, keyword, exact)))
  {
    var h := hash(keyword) % NBuckets;
    var offsetStart := if exact then 0 else -Radius;
    var offsetEnd := if exact then 0 else Radius;
    var heads := idx.heads[..];
    found, lines := ProbeWindow(heads, idx.entries, csv, keyword, exact, h, offsetStart, offsetEnd);
    assert Probe(h, offsetStart, offsetEnd, NBuckets) == Window(hash, keyword, exact);
  }
}
