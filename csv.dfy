/** `csv_get_column` (p1-search.c): the value of one column of a CSV line, with the
    quoting of section 2 of RFC 4180 (a field may be enclosed in double quotes, and a
    double quote inside such a field is written twice), the value cut to fit the
    output buffer and trimmed. */
module Csv {
  import opened Wrappers
  import opened Text

  // ---------------------------------------------------------------------------
  // The reading of a line, as a specification
  // ---------------------------------------------------------------------------

  /** The contents of a C string: no character before the terminator is a NUL. */
  predicate NulFree(s: string)
  {
    forall i :: 0 <= i < |s| ==> s[i] != '\0'
  }

  /** The character at `i` of a C string, or the NUL that ends it. */
  function At(s: string, i: nat): char
  {
    if i < |s| then s[i] else '\0'
  }

  /** The characters that end the walk over the line: its NUL, or a line break. */
  predicate EndsLine(c: char)
  {
    c == '\0' || c == '\n' || c == '\r'
  }

  /** The characters that end an unquoted field. */
  predicate EndsField(c: char)
  {
    c == ',' || EndsLine(c)
  }

  /** What a scan of a quoted field yields: the decoded characters, and the position
      just past the closing quote (or the end of the line, when none closes it). */
  datatype Scan = Scan(text: string, end: nat)

  /** The quoted field whose first character, just after the opening quote, is at `p`:
      `""` stands for one `"`, and the first lone `"` closes the field. */
  function Unquote(s: string, p: nat): (r: Scan)
    requires p <= |s|
    ensures p <= r.end <= |s|
    ensures r.end > p || p == |s|
    decreases |s| - p
  {
    if p == |s| then Scan([], p)
    else if s[p] == '"' then
      if At(s, p + 1) == '"' then
        var r := Unquote(s, p + 2);
        Scan(['"'] + r.text, r.end)
      else Scan([], p + 1)
    else
      var r := Unquote(s, p + 1);
      Scan([s[p]] + r.text, r.end)
  }

  /** Decoding never produces a NUL from a C string. */
  lemma {:induction false} UnquoteNulFree(s: string, p: nat)
    requires NulFree(s) && p <= |s|
    ensures NulFree(Unquote(s, p).text)
    decreases |s| - p
  {
    if p < |s| {
      if s[p] == '"' {
        if At(s, p + 1) == '"' {
          UnquoteNulFree(s, p + 2);
        }
      } else {
        UnquoteNulFree(s, p + 1);
      }
    }
  }

  /** Where the unquoted field that starts at `p` ends. */
  function PlainEnd(s: string, p: nat): (q: nat)
    requires p <= |s|
    ensures p <= q <= |s|
    ensures forall i :: p <= i < q ==> !EndsField(s[i])
    ensures EndsField(At(s, q))
    decreases |s| - p
  {
    if p == |s| || EndsField(s[p]) then p else PlainEnd(s, p + 1)
  }

  /** The raw value of the field that starts at `p`. */
  function FieldValue(s: string, p: nat): string
    requires p < |s|
  {
    if s[p] == '"' then Unquote(s, p + 1).text else s[p..PlainEnd(s, p)]
  }

  /** Where the field that starts at `p` ends when it is not the one wanted: past
      its quoted part, or at the end of its unquoted run. Text after a closing quote
      is not a new field: the walk goes on over it with the same column number. */
  function FieldEnd(s: string, p: nat): (e: nat)
    requires p < |s| && !EndsLine(s[p])
    ensures p <= e <= |s|
    ensures p < e || At(s, e) == ','
  {
    if s[p] == '"' then Unquote(s, p + 1).end else PlainEnd(s, p)
  }

  /** A value that fits a buffer of `outSz` characters with its terminator, and is
      trimmed. */
  predicate FitsTrimmed(v: string, outSz: nat)
  {
    |v| < outSz && Trim(v) == v
  }

  /** A field value cut to `n` characters and trimmed is at most `n` long, and is its
      own trim. */
  lemma TrimTruncated(v: string, n: nat)
    ensures FitsTrimmed(Trim(Truncate(v, n)), n + 1)
  {
    TrimIdempotent(Truncate(v, n));
  }

  /** The value of the field that starts at `p`, as `csv_get_column` leaves it in a
      buffer of `outSz` characters: cut to fit with its terminator, then trimmed. */
  function FieldColumn(s: string, p: nat, outSz: nat): (v: string)
    requires p < |s| && outSz >= 1
    ensures FitsTrimmed(v, outSz)
  {
    TrimTruncated(FieldValue(s, p), outSz - 1);
    Trim(Truncate(FieldValue(s, p), outSz - 1))
  }

  /** The value of column `target`, when the walk that has reached column `col` at
      position `p` finds it before the end of the line: a comma after a field moves
      the walk to the next column. The value fits the output buffer with its
      terminator, and is trimmed. */
  function ColumnFrom(s: string, p: nat, col: int, target: int, outSz: nat): (r: Option<string>)
    requires p <= |s| && outSz >= 1
    ensures r.Some? ==> FitsTrimmed(r.value, outSz)
    decreases |s| - p
  {
    if EndsLine(At(s, p)) then None
    else if col == target then Some(FieldColumn(s, p, outSz))
    else
      var e := FieldEnd(s, p);
      if At(s, e) == ',' then ColumnFrom(s, e + 1, col + 1, target, outSz) else ColumnFrom(s, e, col, target, outSz)
  }

  /** `csv_get_column(line, target, out, outSz)` returns 1 and leaves this value in
      `out` when it is `Some`, and returns 0 with `out` empty when it is `None`. A
      column value fits the buffer with its terminator, and is trimmed. */
  function Column(line: string, target: int, outSz: nat): (r: Option<string>)
    requires outSz >= 1
    ensures r.Some? ==> |r.value| < outSz && Trim(r.value) == r.value
  {
    ColumnFrom(line, 0, 1, target, outSz)
  }

  // ---------------------------------------------------------------------------
  // The method
  // ---------------------------------------------------------------------------

  lemma TruncateSnoc(t: string, c: char, n: nat)
    ensures |t| < n ==> Truncate(t + [c], n) == Truncate(t, n) + [c]
    ensures |t| >= n ==> Truncate(t + [c], n) == Truncate(t, n)
  {
    if |t| >= n {
      assert (t + [c])[..n] == t[..n];
    }
  }

  /** How far one character of a quoted field takes the scan: two for a doubled
      quote, one otherwise. */
  function Step(s: string, p: nat): nat
    requires p < |s|
  {
    if s[p] == '"' then 2 else 1
  }

  /** Whether the scan of a quoted field stops at `p`: a lone quote. */
  predicate ClosesAt(s: string, p: nat)
    requires p < |s|
  {
    s[p] == '"' && At(s, p + 1) != '"'
  }

  /** Every other character is copied, a doubled quote as one quote. */
  lemma UnquoteStep(s: string, p: nat)
    requires p < |s| && !ClosesAt(s, p)
    ensures p + Step(s, p) <= |s|
    ensures Unquote(s, p).text == [s[p]] + Unquote(s, p + Step(s, p)).text
    ensures Unquote(s, p).end == Unquote(s, p + Step(s, p)).end
  {
  }

  /** Copies one more character of the value into `out` when there is room for it
      and the terminator (`if (pos + 1 < outSz) out[pos++] = c`). */
  method Put(out: array<char>, pos: nat, ghost soFar: string, c: char) returns (pos': nat)
    requires pos < out.Length && out[..pos] == Truncate(soFar, out.Length - 1)
    modifies out
    ensures pos' < out.Length && out[..pos'] == Truncate(soFar + [c], out.Length - 1)
  {
    TruncateSnoc(soFar, c, out.Length - 1);
    pos' := pos;
    if pos + 1 < out.Length {
      out[pos] := c;
      pos' := pos + 1;
    }
  }

  /** One character of a quoted field that does not close it, copied when there is
      room: a doubled quote is copied as one quote, any other character as itself. */
  method CopyOne(line: string, p: nat, out: array<char>, pos: nat, ghost soFar: string) returns (p': nat, pos': nat)
    requires p < |line| && !ClosesAt(line, p)
    requires pos < out.Length && out[..pos] == Truncate(soFar, out.Length - 1)
    modifies out
    ensures p < p' <= |line| && pos' < out.Length
    ensures soFar + Unquote(line, p).text == (soFar + [line[p]]) + Unquote(line, p').text
    ensures out[..pos'] == Truncate(soFar + [line[p]], out.Length - 1)
  {
    var c := line[p];
    UnquoteStep(line, p);
    ghost var rest := Unquote(line, p + Step(line, p)).text;
    assert soFar + ([c] + rest) == (soFar + [c]) + rest;
    pos' := Put(out, pos, soFar, c);
    p' := p + (if c == '"' then 2 else 1);
  }

  /** The copying loop for a quoted target field, from just after its opening quote:
      decoded characters go to `out` while there is room for them and a terminator. */
  method CopyQuoted(line: string, p0: nat, out: array<char>) returns (pos: nat)
    requires p0 <= |line| && out.Length >= 1
    modifies out
    ensures pos < out.Length
    ensures out[..pos] == Truncate(Unquote(line, p0).text, out.Length - 1)
  {
    var p := p0;
    pos := 0;
    ghost var soFar: string := [];
    while p < |line|
      invariant p0 <= p <= |line| && pos < out.Length
      invariant soFar + Unquote(line, p).text == Unquote(line, p0).text
      invariant out[..pos] == Truncate(soFar, out.Length - 1)
      decreases |line| - p
    {
      if line[p] == '"' && At(line, p + 1) != '"' {
        assert soFar + [] == soFar;
        return;
      }
      var c := line[p];
      p, pos := CopyOne(line, p, out, pos, soFar);
      soFar := soFar + [c];
    }
    assert soFar + [] == soFar;
  }

  /** The skipping loop over a quoted field that is not the target. */
  method SkipQuoted(line: string, p0: nat) returns (p: nat)
    requires p0 <= |line|
    ensures p == Unquote(line, p0).end
  {
    p := p0;
    while p < |line|
      invariant p0 <= p <= |line|
      invariant Unquote(line, p).end == Unquote(line, p0).end
      decreases |line| - p
    {
      if line[p] == '"' && At(line, p + 1) != '"' {
        p := p + 1;
        return;
      }
      if line[p] == '"' && At(line, p + 1) == '"' {
        p := p + 2;
      } else {
        p := p + 1;
      }
    }
  }

  /** The scanning loop over an unquoted field. */
  method SkipPlain(line: string, p0: nat) returns (p: nat)
    requires p0 <= |line|
    ensures p == PlainEnd(line, p0)
  {
    p := p0;
    while p < |line| && !EndsField(line[p])
      invariant p0 <= p <= |line|
      invariant PlainEnd(line, p) == PlainEnd(line, p0)
      decreases |line| - p
    {
      p := p + 1;
    }
  }

  /** `memcpy(out, line + start, len)` followed by a terminator. */
  method CopyPlain(line: string, start: nat, len: nat, out: array<char>)
    requires start + len <= |line| && len < out.Length
    modifies out
    ensures out[..len] == line[start..start + len] && out[len] == '\0'
  {
    for i := 0 to len
      invariant forall k :: 0 <= k < i ==> out[k] == line[start + k]
    {
      out[i] := line[start + i];
    }
    out[len] := '\0';
    assert out[..len] == line[start..start + len];
  }

  /** Terminates `out` after its first `pos` characters and trims it in place. */
  method Finish(out: array<char>, pos: nat)
    requires pos < out.Length && NulFree(out[..pos])
    modifies out
    ensures '\0' in out[..]
    ensures CStr(out[..]) == Trim(old(out[..pos]))
  {
    ghost var v := out[..pos];
    out[pos] := '\0';
    assert out[..][pos] == '\0';
    assert out[..pos] == v;
    CStrOfTerminated(out[..], pos);
    TrimInPlace(out);
  }

  /** The target column found at `p`: its value, quoted or not, copied to `out` as far
      as it fits, terminated and trimmed. */
  method ExtractField(line: string, p: nat, out: array<char>)
    requires NulFree(line) && p < |line| && out.Length >= 1
    modifies out
    ensures '\0' in out[..]
    ensures CStr(out[..]) == Trim(Truncate(FieldValue(line, p), out.Length - 1))
  {
    ghost var raw := Truncate(FieldValue(line, p), out.Length - 1);
    if line[p] == '"' {
      UnquoteNulFree(line, p + 1);
      var pos := CopyQuoted(line, p + 1, out);
      Finish(out, pos);
    } else {
      var q := SkipPlain(line, p);
      var len := q - p;
      if len >= out.Length {
        len := out.Length - 1;
      }
      CopyPlain(line, p, len, out);
      assert line[p..q][..len] == line[p..p + len];
      assert out[..len] == raw;
      Finish(out, len);
    }
  }

  /** `csv_get_column(line, targetCol, out, out.Length)` over the contents of a C string. */
  method CsvGetColumn(line: string, targetCol: int, out: array<char>) returns (r: int)
    requires NulFree(line) && out.Length >= 1
    modifies out
    ensures r == (if Column(line, targetCol, out.Length).Some? then 1 else 0)
    ensures '\0' in out[..]
    ensures CStr(out[..]) == Column(line, targetCol, out.Length).GetOr([])
  {
    var col := 1;
    var p := 0;
    while !EndsLine(At(line, p))
      invariant p <= |line|
      invariant ColumnFrom(line, p, col, targetCol, out.Length) == Column(line, targetCol, out.Length)
      decreases |line| - p
    {
      if col == targetCol {
        ExtractField(line, p, out);
        return 1;
      }
      var q;
      if line[p] == '"' {
        q := SkipQuoted(line, p + 1);
      } else {
        q := SkipPlain(line, p);
      }
      assert q == FieldEnd(line, p);
      if At(line, q) == ',' {
        q := q + 1;
        col := col + 1;
      }
      p := q;
    }
    out[0] := '\0';
    assert out[..][0] == '\0';
    CStrOfTerminated(out[..], 0);
    return 0;
  }

  // ---------------------------------------------------------------------------
  // Section 2 of RFC 4180: quoted fields read back
  // ---------------------------------------------------------------------------

  /** A value with every double quote written twice (rule 7). */
  function Escape(v: string): (e: string)
    ensures |e| >= |v|
  {
    if v == [] then [] else (if v[0] == '"' then "\"\"" else [v[0]]) + Escape(v[1..])
  }

  /** A field enclosed in double quotes (rules 5 and 6). */
  function Quote(v: string): string
  {
    "\"" + Escape(v) + "\""
  }

  /** A record of quoted fields separated by commas (rule 4). */
  function Record(fields: seq<string>): string
  {
    if fields == [] then []
    else if |fields| == 1 then Quote(fields[0])
    else Quote(fields[0]) + "," + Record(fields[1..])
  }

  /** Reading an escaped value back: the quote that follows it closes the field. */
  lemma {:induction false} UnquoteEscape(s: string, p: nat, v: string, rest: string)
    requires p <= |s| && s[p..] == Escape(v) + "\"" + rest && (rest == [] || rest[0] != '"')
    ensures Unquote(s, p) == Scan(v, p + |Escape(v)| + 1)
    decreases |v|
  {
    assert s[p..][..|Escape(v)|] == Escape(v);
    if v == [] {
      assert s[p] == '"';
      if rest != [] {
        assert s[p + 1] == s[p..][1] == rest[0];
      }
    } else if v[0] == '"' {
      assert Escape(v) == "\"\"" + Escape(v[1..]);
      assert s[p] == '"' && s[p + 1] == '"';
      assert s[p + 2..] == Escape(v[1..]) + "\"" + rest;
      UnquoteEscape(s, p + 2, v[1..], rest);
      assert v == ['"'] + v[1..];
    } else {
      assert Escape(v) == [v[0]] + Escape(v[1..]);
      assert s[p] == v[0];
      assert s[p + 1..] == Escape(v[1..]) + "\"" + rest;
      UnquoteEscape(s, p + 1, v[1..], rest);
      assert v == [v[0]] + v[1..];
    }
  }

  /** A quoted field followed by a comma or by the end of the line. */
  lemma QuotedFieldAt(s: string, p: nat, v: string, rest: string)
    requires p <= |s| && s[p..] == Quote(v) + rest && (rest == [] || rest[0] == ',')
    ensures p + |Quote(v)| <= |s| && s[p + |Quote(v)|..] == rest
    ensures p < |s| && !EndsLine(s[p])
    ensures FieldValue(s, p) == v && FieldEnd(s, p) == p + |Quote(v)|
  {
    assert s[p..] == "\"" + (Escape(v) + "\"" + rest);
    assert s[p] == '"';
    assert s[p + 1..] == Escape(v) + "\"" + rest;
    UnquoteEscape(s, p + 1, v, rest);
    assert s[p + |Quote(v)|..] == s[p..][|Quote(v)|..];
  }

  /** The walk steps over a field that is not the one wanted and its comma. */
  lemma ColumnFromNext(s: string, p: nat, col: int, target: int, outSz: nat)
    requires p < |s| && !EndsLine(s[p]) && col != target && outSz >= 1
    requires At(s, FieldEnd(s, p)) == ','
    ensures ColumnFrom(s, p, col, target, outSz) == ColumnFrom(s, FieldEnd(s, p) + 1, col + 1, target, outSz)
  {
  }

  /** The walk ends with a field that is not the one wanted and ends the line. */
  lemma ColumnFromLast(s: string, p: nat, col: int, target: int, outSz: nat)
    requires p < |s| && !EndsLine(s[p]) && col != target && outSz >= 1
    requires FieldEnd(s, p) == |s|
    ensures ColumnFrom(s, p, col, target, outSz) == None
  {
    assert ColumnFrom(s, |s|, col, target, outSz) == None;
  }

  /** A quoted field that ends the line. */
  lemma LastQuotedField(s: string, p: nat, v: string)
    requires p <= |s| && s[p..] == Quote(v)
    ensures p < |s| && !EndsLine(s[p]) && FieldValue(s, p) == v && FieldEnd(s, p) == |s|
  {
    assert s[p..] == Quote(v) + "";
    QuotedFieldAt(s, p, v, "");
  }

  /** A quoted field followed by a comma and more of the record. */
  lemma NextQuotedField(s: string, p: nat, v: string, tail: string)
    requires p <= |s| && s[p..] == Quote(v) + "," + tail
    ensures p < |s| && !EndsLine(s[p]) && FieldValue(s, p) == v
    ensures FieldEnd(s, p) < |s| && s[FieldEnd(s, p)] == ',' && s[FieldEnd(s, p) + 1..] == tail
  {
    QuotedFieldAt(s, p, v, "," + tail);
    var e := p + |Quote(v)|;
    assert s[e] == s[e..][0] == ',';
    assert s[e + 1..] == s[e..][1..];
  }

  /** The first field of a record of quoted fields, and where the rest begins. */
  lemma RecordHead(s: string, p: nat, fields: seq<string>)
    requires p <= |s| && s[p..] == Record(fields) && fields != []
    ensures p < |s| && !EndsLine(s[p]) && FieldValue(s, p) == fields[0]
    ensures |fields| == 1 ==> FieldEnd(s, p) == |s|
    ensures |fields| > 1 ==> FieldEnd(s, p) < |s| && s[FieldEnd(s, p)] == ',' && s[FieldEnd(s, p) + 1..] == Record(fields[1..])
  {
    if |fields| == 1 {
      LastQuotedField(s, p, fields[0]);
    } else {
      NextQuotedField(s, p, fields[0], Record(fields[1..]));
    }
  }

  /** The column `target` of a record whose first field is column `col`, as the
      record's writer meant it: the field written there, cut to the buffer and
      trimmed, or nothing before the first field or after the last. */
  function WrittenColumn(fields: seq<string>, col: int, target: int, outSz: nat): Option<string>
    requires outSz >= 1
  {
    if col <= target < col + |fields| then Some(Trim(Truncate(fields[target - col], outSz - 1))) else None
  }

  lemma WrittenColumnTail(fields: seq<string>, col: int, target: int, outSz: nat)
    requires outSz >= 1 && fields != [] && col != target
    ensures WrittenColumn(fields[1..], col + 1, target, outSz) == WrittenColumn(fields, col, target, outSz)
  {
    if col + 1 <= target < col + |fields| {
      assert fields[1..][target - (col + 1)] == fields[target - col];
    }
  }

  /** Columns of a record of quoted fields, from the column reached at `p` on. */
  lemma {:induction false} ColumnFromRecord(s: string, p: nat, fields: seq<string>, col: int, target: int, outSz: nat)
    requires p <= |s| && s[p..] == Record(fields) && outSz >= 1
    ensures ColumnFrom(s, p, col, target, outSz) == WrittenColumn(fields, col, target, outSz)
    decreases |fields|
  {
    if fields == [] {
      assert p == |s| && EndsLine(At(s, p));
    } else {
      RecordHead(s, p, fields);
      if col == target {
      } else if |fields| == 1 {
        ColumnFromLast(s, p, col, target, outSz);
      } else {
        ColumnFromNext(s, p, col, target, outSz);
        ColumnFromRecord(s, FieldEnd(s, p) + 1, fields[1..], col + 1, target, outSz);
        WrittenColumnTail(fields, col, target, outSz);
      }
    }
  }

  /** A record of quoted fields gives back, in each of its columns, the field written
      there, cut to the buffer and trimmed; there is no column before the first or
      after the last. */
  lemma ColumnOfRecord(fields: seq<string>, target: int, outSz: nat)
    requires outSz >= 1
    ensures Column(Record(fields), target, outSz) ==
      if 1 <= target <= |fields| then Some(Trim(Truncate(fields[target - 1], outSz - 1))) else None
  {
    ColumnFromRecord(Record(fields), 0, fields, 1, target, outSz);
  }

  // ---------------------------------------------------------------------------
  // Unquoted fields
  // ---------------------------------------------------------------------------

  /** Lines that show how the walk reads empty fields and text after a closing quote. */
  const TrailingComma: string := "a,"
  const DoubleComma: string := "a,,b"
  const TextAfterQuote: string := "\"ab\"cd,x"

  /** An empty last field is no column: the walk meets the end of the line where
      that field would start. */
  lemma EmptyLastField()
    ensures Column(TrailingComma, 2, 64) == None
  {
    var s := TrailingComma;
    assert s[0] == 'a' && s[1] == ',' && |s| == 2;
    assert PlainEnd(s, 1) == 1;
    assert PlainEnd(s, 0) == 1;
    assert ColumnFrom(s, 2, 2, 2, 64) == None;
  }

  /** The unquoted field at `p`, ending at `q`, read as the column wanted. */
  lemma PlainColumn(s: string, p: nat, q: nat, col: int, outSz: nat)
    requires p < |s| && !EndsLine(s[p]) && s[p] != '"' && outSz >= 1
    requires p <= q <= |s| && PlainEnd(s, p) == q
    ensures ColumnFrom(s, p, col, col, outSz) == Some(Trim(Truncate(s[p..q], outSz - 1)))
  {
  }

  /** Where the first field of `a,,b` ends, and where the second does. */
  lemma DoubleCommaEnds()
    ensures !EndsLine(DoubleComma[0]) && FieldEnd(DoubleComma, 0) == 1 && DoubleComma[1] == ','
    ensures !EndsLine(DoubleComma[2]) && DoubleComma[2] != '"' && PlainEnd(DoubleComma, 2) == 2 && DoubleComma[2] == ','
    ensures !EndsLine(DoubleComma[3]) && DoubleComma[3] != '"' && PlainEnd(DoubleComma, 3) == 4 && DoubleComma[3..4] == "b"
  {
    var s := DoubleComma;
    assert s[0] == 'a' && s[1] == ',' && s[2] == ',' && s[3] == 'b' && |s| == 4;
    assert PlainEnd(s, 1) == 1;
    assert PlainEnd(s, 0) == 1;
    assert PlainEnd(s, 2) == 2;
    assert PlainEnd(s, 4) == 4;
    assert PlainEnd(s, 3) == 4;
  }

  /** The walk for column 2 of `a,,b` steps over the first field and its comma. */
  lemma SkipOneField()
    ensures Column(DoubleComma, 2, 64) == ColumnFrom(DoubleComma, 2, 2, 2, 64)
  {
    var s := DoubleComma;
    DoubleCommaEnds();
    assert At(s, FieldEnd(s, 0)) == ',';
    ColumnFromNext(s, 0, 1, 2, 64);
  }

  /** The second field of `a,,b` is empty: it ends where it starts. */
  lemma SecondFieldEmpty()
    ensures !EndsLine(DoubleComma[2]) && DoubleComma[2] != '"' && PlainEnd(DoubleComma, 2) == 2
  {
    assert DoubleComma[2] == ',';
  }

  /** An empty field in the middle of a line is an empty column. */
  lemma EmptyMiddleField()
    ensures Column(DoubleComma, 2, 64) == Some("")
  {
    SkipOneField();
    SecondFieldEmpty();
    PlainColumn(DoubleComma, 2, 2, 2, 64);
    assert Truncate(DoubleComma[2..2], 63) == [];
    TrimUnchanged([]);
  }

  /** The walk for column 3 of `a,,b` steps over the first two fields and their
      commas. */
  lemma SkipTwoFields()
    ensures Column(DoubleComma, 3, 64) == ColumnFrom(DoubleComma, 3, 3, 3, 64)
  {
    var s := DoubleComma;
    DoubleCommaEnds();
    assert FieldEnd(s, 2) == 2 && At(s, 2) == ',';
    ColumnFromNext(s, 0, 1, 3, 64);
    ColumnFromNext(s, 2, 2, 3, 64);
  }

  /** The field after an empty one is the next column. */
  lemma FieldAfterEmpty()
    ensures Column(DoubleComma, 3, 64) == Some("b")
  {
    SkipTwoFields();
    DoubleCommaEnds();
    PlainColumn(DoubleComma, 3, 4, 3, 64);
    assert Truncate("b", 63) == "b";
    TrimUnchanged("b");
  }

  /** Where the scan of the quoted part of `"ab"cd,x` stops, and what it decodes. */
  lemma QuotedPartScan()
    ensures Unquote(TextAfterQuote, 1) == Scan("ab", 4)
  {
    var s := TextAfterQuote;
    assert s[1] == 'a' && s[2] == 'b' && s[3] == '"' && s[4] == 'c';
    assert Unquote(s, 3) == Scan([], 4);
    assert Unquote(s, 2) == Scan("b", 4);
  }

  /** The quoted part of a field with text after its closing quote is its value. */
  lemma QuotedPartIsValue()
    ensures Column(TextAfterQuote, 1, 64) == Some("ab")
  {
    var s := TextAfterQuote;
    assert s[0] == '"';
    QuotedPartScan();
    assert FieldValue(s, 0) == "ab";
    assert Truncate("ab", 63) == "ab";
    TrimUnchanged("ab");
  }

  /** The quoted part ends at the closing quote, before the text that follows it. */
  lemma QuotedPartEnd()
    ensures !EndsLine(TextAfterQuote[0]) && FieldEnd(TextAfterQuote, 0) == 4
  {
    assert TextAfterQuote[0] == '"';
    QuotedPartScan();
  }

  /** The text after the closing quote runs to the comma. */
  lemma TextAfterQuoteEnd()
    ensures !EndsLine(TextAfterQuote[4]) && FieldEnd(TextAfterQuote, 4) == 6 && TextAfterQuote[6] == ','
  {
    var s := TextAfterQuote;
    assert s[4] == 'c' && s[5] == 'd' && s[6] == ',';
    assert PlainEnd(s, 6) == 6;
    assert PlainEnd(s, 5) == 6;
    assert PlainEnd(s, 4) == 6;
  }

  /** The field after that comma, read as column 2. */
  lemma SecondField()
    ensures ColumnFrom(TextAfterQuote, 7, 2, 2, 64) == Some("x")
  {
    var s := TextAfterQuote;
    assert s[7] == 'x' && |s| == 8;
    assert PlainEnd(s, 8) == 8;
    assert PlainEnd(s, 7) == 8;
    assert FieldValue(s, 7) == s[7..8] == "x";
    assert Truncate("x", 63) == "x";
    TrimUnchanged("x");
  }

  /** Text after a closing quote stays in the same column: it is skipped together
      with the quoted part, and the next comma starts the next column. */
  lemma TextAfterClosingQuote()
    ensures Column(TextAfterQuote, 2, 64) == Some("x")
  {
    var s := TextAfterQuote;
    QuotedPartEnd();
    assert At(s, 4) == 'c';
    assert ColumnFrom(s, 0, 1, 2, 64) == ColumnFrom(s, 4, 1, 2, 64);
    TextAfterQuoteEnd();
    ColumnFromNext(s, 4, 1, 2, 64);
    SecondField();
  }
}
