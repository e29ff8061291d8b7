/** The search worker (`p1-search.c`): how it reads the title and the optional update
    date out of a request, which index entries it accepts for them, and how it packs
    the accepted CSV lines into a bounded answer. */
module Worker {
  import opened Wrappers
  import opened Text
  import opened IndexLayout
  import opened RecordStore
  import opened Builder
  import opened KeywordSearch
  import opened Csv
  import opened Common

  /** `MAX_RESULTS`: at most this many lines are collected. */
  const MaxResults: nat := 50
  /** The CSV column that holds a record's update date. */
  const DateColumn: int := 12
  /** `parsed_update[64]` and `update_val[64]`. */
  const DateSize: nat := 64
  /** The local copies `a[128]` and `b[128]` of `field_is`. */
  const NameSize: nat := 128

  // ---------------------------------------------------------------------------
  // field_is and the request
  // ---------------------------------------------------------------------------

  /** What a buffer of `size` bytes holds after `strncpy(buf, src, size - 1)`, a NUL
      in its last byte and `trim_inplace`. */
  function Copied(src: string, size: nat): string
    requires size >= 1
  {
    Trim(Truncate(CStr(src), size - 1))
  }

  /** `field_is`: both names cut to 127 characters and trimmed, then compared with
      `strcasecmp`. */
  predicate FieldIs(field: string, target: string)
  {
    CiEqual(Copied(field, NameSize), Copied(target, NameSize))
  }

  /** For a short name, `field_is` ignores the case and the surrounding whitespace of
      the field name, and nothing else. */
  lemma FieldIsIgnoresCaseAndSpaces(field: string, target: string)
    requires NulFree(field) && |field| < NameSize
    requires NulFree(target) && |target| < NameSize && Trim(target) == target
    ensures FieldIs(field, target) <==> CiEqual(Trim(field), target)
  {
    assert CStr(field) == field;
    assert CStr(target) == target;
  }

  /** The names under which a request may carry the update date. */
  predicate IsUpdateField(name: string)
  {
    FieldIs(name, UpdateDateName) || FieldIs(name, UpdateDateNameJoined) || FieldIs(name, UpdateDateNameDashed)
  }

  /** `title_val`: `value1` when `field_name1` is "title", else `value2` when
      `field_name2` is, else empty; cut to `KEY_SIZE - 1` characters and trimmed. */
  function TitleOf(req: Request): string
  {
    if FieldIs(req.fieldName1, TitleName) then Copied(req.value1, KeySize)
    else if FieldIs(req.fieldName2, TitleName) then Copied(req.value2, KeySize)
    else []
  }

  /** `update_val`: the same choice for the update-date names, cut to 63 characters. */
  function UpdateOf(req: Request): string
  {
    if IsUpdateField(req.fieldName1) then Copied(req.value1, DateSize)
    else if IsUpdateField(req.fieldName2) then Copied(req.value2, DateSize)
    else []
  }

  lemma CopiedShape(src: string, size: nat)
    requires size >= 1
    ensures |Copied(src, size)| < size && Trim(Copied(src, size)) == Copied(src, size) && NulFree(Copied(src, size))
  {
    TrimIsMaximalStrip(Truncate(CStr(src), size - 1));
    TrimIdempotent(Truncate(CStr(src), size - 1));
  }

  /** The title and the date the worker works with are C strings that fit their
      buffers and carry no surrounding whitespace. */
  lemma TitleShape(req: Request)
    ensures |TitleOf(req)| < KeySize && Trim(TitleOf(req)) == TitleOf(req) && NulFree(TitleOf(req))
  {
    if FieldIs(req.fieldName1, TitleName) {
      CopiedShape(req.value1, KeySize);
    } else if FieldIs(req.fieldName2, TitleName) {
      CopiedShape(req.value2, KeySize);
    }
  }

  /** The same holds of the date, within `update_val`. */
  lemma UpdateShape(req: Request)
    ensures |UpdateOf(req)| < DateSize && Trim(UpdateOf(req)) == UpdateOf(req) && NulFree(UpdateOf(req))
  {
    if IsUpdateField(req.fieldName1) {
      CopiedShape(req.value1, DateSize);
    } else if IsUpdateField(req.fieldName2) {
      CopiedShape(req.value2, DateSize);
    }
  }

  // ---------------------------------------------------------------------------
  // Which entries are accepted
  // ---------------------------------------------------------------------------

  /** The bucket count the worker uses: the header's, or `N_BUCKETS` when that is not
      positive. */
  function TableSize(header: IndexHeader): int
  {
    if header.nBuckets <= 0 then NBuckets else header.nBuckets
  }

  /** The buckets probed for a title, in probing order. */
  function TitleWindow(hash: string -> nat, title: string, header: IndexHeader): seq<int>
  {
    Probe(hash(title) % TableSize(header), -Radius, Radius, TableSize(header))
  }

  /** At most `2 * BUCKET_RANGE + 1` buckets are probed, in ascending order: those
      within `BUCKET_RANGE` of the home bucket that the header's table holds. */
  lemma TitleWindowShape(hash: string -> nat, title: string, header: IndexHeader)
    ensures |TitleWindow(hash, title, header)| <= 2 * Radius + 1
    ensures Ascending(TitleWindow(hash, title, header))
    ensures forall b :: b in TitleWindow(hash, title, header) <==>
      0 <= b < TableSize(header) && -Radius <= b - hash(title) % TableSize(header) <= Radius
  {
    ProbeMembers(hash(title) % TableSize(header), -Radius, Radius, TableSize(header));
  }

  /** The update filter: with no date asked for every line passes; otherwise column
      12 must exist and equal the date up to case. */
  predicate DatePasses(line: string, update: string)
  {
    update == [] ||
    (Column(CStr(line), DateColumn, DateSize).Some? && CiEqual(Column(CStr(line), DateColumn, DateSize).value, update))
  }

  /** An entry is accepted when its stored key contains the title up to case, its
      CSV line can be read, and that line passes the update filter. */
  function Accept(csv: string, entries: seq<EntryDisk>, title: string, update: string): nat -> bool
  {
    (e: nat) => e < |entries| && CiStrStr(CStr(entries[e].key), title).Some? &&
      ReadLine(csv, entries[e].csvOffset).Some? && DatePasses(ReadLine(csv, entries[e].csvOffset).value, update)
  }

  /** The lines of the accepted entries, in the order the search meets them. */
  function Candidates(heads: seq<int>, entries: seq<EntryDisk>, csv: string, hash: string -> nat,
                      title: string, update: string, header: IndexHeader): seq<string>
    requires Linked(heads, entries)
  {
    Printed(csv, entries, Filter(Visit(heads, entries, TitleWindow(hash, title, header)), Accept(csv, entries, title, update)))
  }

  /** The update filter of one line: `csv_get_column` into `parsed_update`, then
      `strcasecmp` with the date asked for. */
  method DateMatches(line: string, update: string) returns (pass: bool)
    ensures pass == (Column(CStr(line), DateColumn, DateSize).Some? &&
                     CiEqual(Column(CStr(line), DateColumn, DateSize).value, update))
  {
    var parsed := new char[DateSize];
    var r := CsvGetColumn(CStr(line), DateColumn, parsed);
    pass := r != 0 && CiEqual(CStr(parsed[..]), update);
  }

  /** The tests one entry goes through: the substring test on its key, the read of
      its line and the update filter. The line to append, when it is accepted. */
  method AcceptEntry(csv: string, entries: seq<EntryDisk>, e: nat, title: string, update: string)
    returns (line: Option<string>)
    requires e < |entries|
    ensures line.Some? <==> Accept(csv, entries, title, update)(e)
    ensures line.Some? ==> RecordOf(csv, entries, e) == [line.value]
  {
    var entry := entries[e];
    line := None;
    if CiStrStr(CStr(entry.key), title).Some? {
      var got := ReadLine(csv, entry.csvOffset);
      if got.Some? {
        var pass := true;
        if update != [] {
          pass := DateMatches(got.value, update);
        }
        if pass {
          line := Some(CStr(got.value));
        }
      }
    }
  }

  // ---------------------------------------------------------------------------
  // Collecting the answer
  // ---------------------------------------------------------------------------

  /** The state of the collection: how many lines were appended, the text they
      make, and whether collecting has stopped. */
  datatype Collected = Collected(found: nat, text: string, stopped: bool)

  /** Appending candidate lines to a buffer of `size` bytes: a line goes in when it
      fits with the terminator; the first line that does not fit stops everything,
      and so does the fiftieth line appended. */
  function Collect(ls: seq<string>, size: nat): Collected
    decreases |ls|
  {
    if ls == [] then Collected(0, [], false)
    else
      var c := Collect(ls[..|ls| - 1], size);
      var l := ls[|ls| - 1];
      if c.stopped then c
      else if |c.text| + |l| + 1 < size then Collected(c.found + 1, c.text + l, c.found + 1 >= MaxResults)
      else Collected(c.found, c.text, true)
  }

  /** The lines `ls` one after the other. */
  function Concat(ls: seq<string>): string
    decreases |ls|
  {
    if ls == [] then [] else Concat(ls[..|ls| - 1]) + ls[|ls| - 1]
  }

  lemma CollectSnoc(ls: seq<string>, l: string, size: nat)
    ensures Collect(ls + [l], size) ==
      if Collect(ls, size).stopped then Collect(ls, size)
      else if |Collect(ls, size).text| + |l| + 1 < size then
        Collected(Collect(ls, size).found + 1, Collect(ls, size).text + l, Collect(ls, size).found + 1 >= MaxResults)
      else Collected(Collect(ls, size).found, Collect(ls, size).text, true)
  {
    assert (ls + [l])[..|ls|] == ls;
  }

  /** The collected text is the first `found` lines, at most fifty of them, and it
      fits the buffer with its terminator. */
  lemma {:induction false} CollectCounts(ls: seq<string>, size: nat)
    requires size >= 1
    ensures Collect(ls, size).found <= |ls| && Collect(ls, size).found <= MaxResults
    ensures Collect(ls, size).text == Concat(ls[..Collect(ls, size).found])
    ensures |Collect(ls, size).text| < size
    decreases |ls|
  {
    if ls != [] {
      var init := ls[..|ls| - 1];
      CollectCounts(init, size);
      var c := Collect(init, size);
      assert ls[..c.found] == init[..c.found];
      if !c.stopped && |c.text| + |ls[|ls| - 1]| + 1 < size {
        assert ls[..c.found + 1][..c.found] == ls[..c.found];
        assert c.found == |init| by {
          CollectStops(init, size);
        }
      }
    }
  }

  /** Collecting stops only for a reason: the fiftieth line was appended, or the next
      line did not fit. Until it stops, every line is appended. */
  lemma {:induction false} CollectStops(ls: seq<string>, size: nat)
    ensures !Collect(ls, size).stopped ==> Collect(ls, size).found == |ls| && Collect(ls, size).found < MaxResults
    ensures Collect(ls, size).stopped ==>
      (Collect(ls, size).found == MaxResults ||
       (Collect(ls, size).found < |ls| && |Collect(ls, size).text| + |ls[Collect(ls, size).found]| + 1 >= size))
    decreases |ls|
  {
    if ls != [] {
      var init := ls[..|ls| - 1];
      CollectStops(init, size);
      var c := Collect(init, size);
      if c.stopped && c.found != MaxResults {
        assert ls[c.found] == init[c.found];
      }
    }
  }

  /** Once collecting has stopped, later lines change nothing. */
  lemma {:induction false} CollectAbsorbs(xs: seq<string>, ys: seq<string>, size: nat)
    requires Collect(xs, size).stopped
    ensures Collect(xs + ys, size) == Collect(xs, size)
    decreases |ys|
  {
    if ys == [] {
      assert xs + ys == xs;
    } else {
      var init := ys[..|ys| - 1];
      CollectAbsorbs(xs, init, size);
      assert (xs + ys)[..|xs + ys| - 1] == xs + init;
    }
  }

  /** A stopped collection over some of the matches is the collection over all of
      them. */
  lemma StoppedTrace(csv: string, entries: seq<EntryDisk>, ms: seq<nat>, ns: seq<nat>, size: nat)
    requires ms <= ns && Collect(Printed(csv, entries, ms), size).stopped
    ensures Collect(Printed(csv, entries, ns), size) == Collect(Printed(csv, entries, ms), size)
  {
    assert ns == ms + ns[|ms|..];
    StoppedAppend(csv, entries, ms, ns[|ms|..], size);
  }

  /** Once the walk stops at bucket offset `offset`, the buckets after it change
      nothing in the reply. */
  lemma WindowStopped(heads: seq<int>, entries: seq<EntryDisk>, csv: string, acc: nat -> bool, h: int, offset: int, n: int,
                      ms: seq<nat>, size: nat)
    requires Linked(heads, entries) && offset <= Radius
    requires ms == Filter(Visit(heads, entries, Probe(h, -Radius, offset, n)), acc)
    requires Collect(Printed(csv, entries, ms), size).stopped
    ensures Collect(Printed(csv, entries, Filter(Visit(heads, entries, Probe(h, -Radius, Radius, n)), acc)), size)
      == Collect(Printed(csv, entries, ms), size)
  {
    WindowGrows(heads, entries, acc, h, -Radius, offset, Radius, n);
    StoppedTrace(csv, entries, ms, Filter(Visit(heads, entries, Probe(h, -Radius, Radius, n)), acc), size);
  }

  /** The same, with the later matches given as the extension. */
  lemma StoppedAppend(csv: string, entries: seq<EntryDisk>, ms: seq<nat>, rest: seq<nat>, size: nat)
    requires Collect(Printed(csv, entries, ms), size).stopped
    ensures Collect(Printed(csv, entries, ms + rest), size) == Collect(Printed(csv, entries, ms), size)
  {
    PrintedAppend(csv, entries, ms, rest);
    CollectAbsorbs(Printed(csv, entries, ms), Printed(csv, entries, rest), size);
  }

  /** The response buffer holds `text` as a C string, `used` bytes long. */
  predicate Holds(resp: array<char>, used: nat, text: string)
    reads resp
  {
    used < resp.Length && resp[..used] == text && resp[used] == '\0' && NulFree(text)
  }

  /** The response buffer holds a C string of `used` bytes. */
  predicate Terminated(resp: array<char>, used: nat)
    reads resp
  {
    used < resp.Length && Holds(resp, used, resp[..used])
  }

  /** A buffer that holds a C string of `used` bytes reads back as its first `used`
      bytes. */
  lemma TerminatedReads(resp: array<char>, used: nat)
    requires Terminated(resp, used)
    ensures '\0' in resp[..] && CStr(resp[..]) == resp[..used]
  {
    var s := resp[..];
    assert s[used] == '\0';
    forall i | 0 <= i < used
      ensures s[i] != '\0'
    {
      assert s[i] == resp[..used][i];
    }
    CStrOfTerminated(s, used);
  }

  /** `memcpy` of one line behind the text held so far and a new terminator, when
      the line fits with it. */
  method AppendLine(resp: array<char>, used: nat, line: string) returns (used': nat, appended: bool)
    requires used < resp.Length && NulFree(line)
    modifies resp
    ensures appended == (used + |line| + 1 < resp.Length)
    ensures appended ==> used' == used + |line| && resp[..used'] == old(resp[..used]) + line && resp[used'] == '\0'
    ensures !appended ==> used' == used && resp[..] == old(resp[..])
  {
    used' := used;
    appended := used + |line| + 1 < resp.Length;
    if appended {
      for i := 0 to |line|
        invariant resp[..used + i] == old(resp[..used]) + line[..i]
      {
        resp[used + i] := line[i];
        assert resp[..used + i + 1] == resp[..used + i] + [line[i]];
        assert line[..i + 1] == line[..i] + [line[i]];
      }
      assert line[..|line|] == line;
      used' := used + |line|;
      resp[used'] := '\0';
      assert resp[..used'] == old(resp[..used]) + line;
    }
  }

  /** One accepted line offered to the buffer: appended, counted and traced when it
      fits, and the collection stopped when it does not. */
  method Offer(resp: array<char>, used0: nat, found0: nat, line: string, ghost ls: seq<string>)
    returns (used: nat, found: nat, full: bool)
    requires Holds(resp, used0, Collect(ls, resp.Length).text) && NulFree(line)
    requires Collect(ls, resp.Length).found == found0 && !Collect(ls, resp.Length).stopped
    modifies resp
    ensures Holds(resp, used, Collect(ls + [line], resp.Length).text)
    ensures Collect(ls + [line], resp.Length) == Collected(found, resp[..used], full || found >= MaxResults)
  {
    CollectSnoc(ls, line, resp.Length);
    ghost var text := resp[..used0];
    var appended;
    used, appended := AppendLine(resp, used0, line);
    if appended {
      found, full := found0 + 1, false;
      assert NulFree(text + line);
    } else {
      found, full := found0, true;
    }
  }

  /** One entry of a chain: tested, and its line offered to the buffer when it is
      accepted. */
  method VisitEntry(entries: seq<EntryDisk>, csv: string, title: string, update: string, e: nat,
                    resp: array<char>, used0: nat, found0: nat, ghost done: seq<nat>)
    returns (used: nat, found: nat, full: bool)
    requires e < |entries| && Terminated(resp, used0)
    requires Collect(Printed(csv, entries, done), resp.Length) == Collected(found0, resp[..used0], false)
    modifies resp
    ensures Terminated(resp, used)
    ensures Accept(csv, entries, title, update)(e) ==>
      Collect(Printed(csv, entries, done + [e]), resp.Length) == Collected(found, resp[..used], full || found >= MaxResults)
    ensures !Accept(csv, entries, title, update)(e) ==>
      used == used0 && found == found0 && !full && resp[..] == old(resp[..])
  {
    used, found, full := used0, found0, false;
    var line := AcceptEntry(csv, entries, e, title, update);
    if line.Some? {
      PrintedSnoc(csv, entries, done, e);
      used, found, full := Offer(resp, used0, found0, line.value, Printed(csv, entries, done));
    }
  }

  /** The chain walk for one bucket: every entry from `start` to `-1` is tested and
      the accepted lines are offered to the buffer, until collecting stops. `full`
      tells whether it stopped because a line did not fit. */
  method WalkTitleChain(entries: seq<EntryDisk>, csv: string, title: string, update: string, start: int,
                        resp: array<char>, used0: nat, found0: nat, ghost done0: seq<nat>)
    returns (used: nat, found: nat, full: bool)
    requires LinkedEntries(entries) && IsRef(entries, start)
    requires Terminated(resp, used0)
    requires Collect(Printed(csv, entries, done0), resp.Length) == Collected(found0, resp[..used0], false)
    requires found0 < MaxResults
    modifies resp
    ensures Terminated(resp, used)
    ensures Collect(Printed(csv, entries, done0 + Filter(Chain(entries, start), Accept(csv, entries, title, update))), resp.Length)
      == Collected(found, resp[..used], full || found >= MaxResults)
  {
    ghost var acc := Accept(csv, entries, title, update);
    ChainMatchesIsFilter(entries, start, acc);
    ghost var whole := done0 + ChainMatches(entries, start, acc);
    ghost var ms := done0;
    used, found, full := used0, found0, false;
    var current := start;
    while current != NoEntry && found < MaxResults
      invariant IsRef(entries, current)
      invariant whole == ms + ChainMatches(entries, current, acc)
      invariant Terminated(resp, used)
      invariant Collect(Printed(csv, entries, ms), resp.Length) == Collected(found, resp[..used], found >= MaxResults)
      decreases if current == NoEntry then 0 else EntryIndex(entries, current).value + 1
    {
      WalkStep(entries, current, acc, ms);
      var e: nat := (current - EntryBase) / EntrySize;
      used, found, full := VisitEntry(entries, csv, title, update, e, resp, used, found, ms);
      if acc(e) {
        ms := ms + [e];
      }
      if full {
        StoppedAppend(csv, entries, ms, ChainMatches(entries, entries[e].nextEntry, acc), resp.Length);
        return;
      }
      current := entries[e].nextEntry;
    }
    if current == NoEntry {
      assert ms + [] == ms;
    } else {
      StoppedAppend(csv, entries, ms, ChainMatches(entries, current, acc), resp.Length);
    }
  }

  /** One bucket of the title's window: when it lies inside the table, its chain is
      walked and its accepted lines are offered to the buffer. A bucket past the end
      of the stored table reads as empty. */
  method ProbeTitleBucket(heads: seq<int>, entries: seq<EntryDisk>, csv: string, title: string, update: string,
                          h: int, n: int, offset: int, resp: array<char>, used0: nat, found0: nat, ghost ms0: seq<nat>)
    returns (used: nat, found: nat, full: bool, ghost ms: seq<nat>)
    requires Linked(heads, entries) && -Radius <= offset
    requires ms0 == Filter(Visit(heads, entries, Probe(h, -Radius, offset - 1, n)), Accept(csv, entries, title, update))
    requires Terminated(resp, used0) && found0 < MaxResults
    requires Collect(Printed(csv, entries, ms0), resp.Length) == Collected(found0, resp[..used0], false)
    modifies resp
    ensures ms == Filter(Visit(heads, entries, Probe(h, -Radius, offset, n)), Accept(csv, entries, title, update))
    ensures Terminated(resp, used)
    ensures Collect(Printed(csv, entries, ms), resp.Length) == Collected(found, resp[..used], full || found >= MaxResults)
  {
    ghost var acc := Accept(csv, entries, title, update);
    ghost var g := Filter(Visit(heads, entries, Probe(h, -Radius, offset, n)), acc);
    WindowStep(heads, entries, acc, h, -Radius, offset, n);
    used, found, full, ms := used0, found0, false, ms0;
    var bucketIndex := h + offset;
    if 0 <= bucketIndex < n {
      var head := if bucketIndex < |heads| then heads[bucketIndex] else NoEntry;
      assert head == HeadAt(heads, bucketIndex);
      assert g == ms0 + Filter(Chain(entries, head), acc);
      used, found, full := WalkTitleChain(entries, csv, title, update, head, resp, used0, found0, ms0);
      ms := ms0 + Filter(Chain(entries, head), acc);
    } else {
      assert g == ms0;
    }
  }

  /** The window loop of `search_by_title_and_update`: the buckets `h - RANGE` to
      `h + RANGE` in order, until collecting stops. The buffer ends up holding the
      collection of every accepted line of the window. */
  method WalkTitleWindow(heads: seq<int>, entries: seq<EntryDisk>, csv: string, title: string, update: string,
                         h: int, n: int, resp: array<char>)
    returns (used: nat, found: nat)
    requires Linked(heads, entries) && resp.Length >= 1
    modifies resp
    ensures Terminated(resp, used)
    ensures Collect(Printed(csv, entries, Filter(Visit(heads, entries, Probe(h, -Radius, Radius, n)), Accept(csv, entries, title, update))), resp.Length)
      == Collected(found, resp[..used], Collect(Printed(csv, entries, Filter(Visit(heads, entries, Probe(h, -Radius, Radius, n)), Accept(csv, entries, title, update))), resp.Length).stopped)
  {
    ghost var acc := Accept(csv, entries, title, update);
    found, used := 0, 0;
    resp[0] := '\0';
    ghost var ms: seq<nat> := [];
    assert ms == Filter(Visit(heads, entries, Probe(h, -Radius, -Radius - 1, n)), acc);
    var offset := -Radius;
    while offset <= Radius && found < MaxResults
      invariant -Radius <= offset <= Radius + 1
      invariant ms == Filter(Visit(heads, entries, Probe(h, -Radius, offset - 1, n)), acc)
      invariant Terminated(resp, used)
      invariant Collect(Printed(csv, entries, ms), resp.Length) == Collected(found, resp[..used], found >= MaxResults)
    {
      var full;
      used, found, full, ms := ProbeTitleBucket(heads, entries, csv, title, update, h, n, offset, resp, used, found, ms);
      if full {
        WindowStopped(heads, entries, csv, acc, h, offset, n, ms, resp.Length);
        return;
      }
      ghost var g := Filter(Visit(heads, entries, Probe(h, -Radius, offset, n)), acc);
      assert ms == g;
      offset := offset + 1;
    }
    if offset <= Radius {
      WindowStopped(heads, entries, csv, acc, h, offset - 1, n, ms, resp.Length);
    } else {
      assert offset - 1 == Radius;
    }
  }

  /** `search_by_title_and_update`, minus the file handling: the title's window is
      walked, and the answer buffer ends up holding the collection of the accepted
      lines as a C string; the result is the number of lines in it. */
  method SearchByTitleAndUpdate(idx: IndexFile, csv: string, hash: string -> nat, title: string, update: string,
                                resp: array<char>)
    returns (found: nat)
    requires Linked(idx.heads[..], idx.entries) && resp.Length >= 1
    modifies resp
    ensures found == Collect(Candidates(idx.heads[..], idx.entries, csv, hash, title, update, idx.header), resp.Length).found
    ensures '\0' in resp[..]
    ensures CStr(resp[..]) == Collect(Candidates(idx.heads[..], idx.entries, csv, hash, title, update, idx.header), resp.Length).text
  {
    var n := if idx.header.nBuckets <= 0 then NBuckets else idx.header.nBuckets;
    var h := hash(title) % n;
    var heads, entries := idx.heads[..], idx.entries;
    ghost var c := Collect(Printed(csv, entries, Filter(Visit(heads, entries, Probe(h, -Radius, Radius, n)), Accept(csv, entries, title, update))), resp.Length);
    assert c == Collect(Candidates(heads, entries, csv, hash, title, update, idx.header), resp.Length);
    var used;
    used, found := WalkTitleWindow(heads, entries, csv, title, update, h, n, resp);
    assert c == Collected(found, resp[..used], c.stopped);
    TerminatedReads(resp, used);
  }

  // ---------------------------------------------------------------------------
  // The answer to a request
  // ---------------------------------------------------------------------------

  /** What the worker answers: "NA" when the request names no title or no line was
      collected, and the collected lines otherwise. */
  function Answer(heads: seq<int>, entries: seq<EntryDisk>, header: IndexHeader, csv: string, hash: string -> nat,
                  req: Request): string
    requires Linked(heads, entries)
  {
    if TitleOf(req) == [] then "NA"
    else if Collect(Candidates(heads, entries, csv, hash, TitleOf(req), UpdateOf(req), header), ResultSize).found == 0 then "NA"
    else Collect(Candidates(heads, entries, csv, hash, TitleOf(req), UpdateOf(req), header), ResultSize).text
  }

  /** The request mapping of the worker's main loop: read the title and the date,
      search when there is a title, and turn the outcome into the response text. */
  method Respond(idx: IndexFile, csv: string, hash: string -> nat, req: Request) returns (result: string)
    requires Linked(idx.heads[..], idx.entries)
    ensures result == Answer(idx.heads[..], idx.entries, idx.header, csv, hash, req)
  {
    var title := TitleOf(req);
    var update := UpdateOf(req);
    if title == [] {
      return "NA";
    }
    var buf := new char[ResultSize](_ => '\0');
    var found := SearchByTitleAndUpdate(idx, csv, hash, title, update, buf);
    if found <= 0 {
      return "NA";
    }
    CollectCounts(Candidates(idx.heads[..], idx.entries, csv, hash, title, update, idx.header), ResultSize);
    result := Truncate(CStr(buf[..]), ResultSize - 1);
  }

  /** The answer is "NA", or the first lines of the candidates (one to fifty of
      them) one after the other, and it fits the response with its terminator. */
  lemma AnswerIsLeadingCandidates(heads: seq<int>, entries: seq<EntryDisk>, header: IndexHeader, csv: string,
                                  hash: string -> nat, req: Request)
    requires Linked(heads, entries)
    ensures |Answer(heads, entries, header, csv, hash, req)| < ResultSize
    ensures Answer(heads, entries, header, csv, hash, req) == "NA" ||
      exists k :: 1 <= k <= MaxResults && k <= |Candidates(heads, entries, csv, hash, TitleOf(req), UpdateOf(req), header)| &&
        Answer(heads, entries, header, csv, hash, req) == Concat(Candidates(heads, entries, csv, hash, TitleOf(req), UpdateOf(req), header)[..k])
  {
    if TitleOf(req) != [] {
      var cs := Candidates(heads, entries, csv, hash, TitleOf(req), UpdateOf(req), header);
      CollectCounts(cs, ResultSize);
    }
  }

  /** The secondary filter: when the request asks for a date that no readable line
      of the index carries in column 12, nothing is collected, however many keys
      contain the title, and the answer is "NA". */
  lemma DateMatchingNothingAnswersNA(heads: seq<int>, entries: seq<EntryDisk>, header: IndexHeader, csv: string,
                                     hash: string -> nat, req: Request)
    requires Linked(heads, entries)
    requires forall e :: 0 <= e < |entries| && ReadLine(csv, entries[e].csvOffset).Some? ==>
      !DatePasses(ReadLine(csv, entries[e].csvOffset).value, UpdateOf(req))
    ensures Answer(heads, entries, header, csv, hash, req) == "NA"
  {
    var title, update := TitleOf(req), UpdateOf(req);
    var v := Visit(heads, entries, TitleWindow(hash, title, header));
    var acc := Accept(csv, entries, title, update);
    FilterNone(v, acc);
    assert Candidates(heads, entries, csv, hash, title, update, header) == [];
  }

  /** A request with a title gets lines back whenever the first candidate fits the
      response: the answer then starts with that line. */
  lemma FirstFittingCandidateAnswered(heads: seq<int>, entries: seq<EntryDisk>, header: IndexHeader, csv: string,
                                      hash: string -> nat, req: Request)
    requires Linked(heads, entries) && TitleOf(req) != []
    requires Candidates(heads, entries, csv, hash, TitleOf(req), UpdateOf(req), header) != []
    requires |Candidates(heads, entries, csv, hash, TitleOf(req), UpdateOf(req), header)[0]| + 1 < ResultSize
    ensures Candidates(heads, entries, csv, hash, TitleOf(req), UpdateOf(req), header)[0] <= Answer(heads, entries, header, csv, hash, req)
  {
    var cs := Candidates(heads, entries, csv, hash, TitleOf(req), UpdateOf(req), header);
    CollectCounts(cs, ResultSize);
    CollectStops(cs, ResultSize);
    var c := Collect(cs, ResultSize);
    assert c.found >= 1;
    ConcatPrefix(cs, c.found);
  }

  /** The first line opens the concatenation of any non-empty prefix. */
  lemma {:induction false} ConcatPrefix(ls: seq<string>, k: nat)
    requires 1 <= k <= |ls|
    ensures ls[0] <= Concat(ls[..k])
    decreases k
  {
    if k == 1 {
      assert ls[..1][..0] == [];
      assert Concat(ls[..1]) == [] + ls[0];
    } else {
      ConcatPrefix(ls, k - 1);
      assert ls[..k][..k - 1] == ls[..k - 1];
    }
  }
}
