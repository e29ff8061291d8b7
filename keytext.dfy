/** How `build_index` (index2.c) turns a CSV line into an index key: the fourth
    `strtok` token of the line, cleaned by `limpiar_texto`, stored in a fixed-size,
    zero-padded key buffer. */
module KeyText {
  import opened Wrappers
  import opened Text
  import opened IndexLayout

  // ---------------------------------------------------------------------------
  // limpiar_texto
  // ---------------------------------------------------------------------------

  function DropLeadingQuote(s: string): string
  {
    if s != [] && s[0] == '"' then s[1..] else s
  }

  function DropTrailingQuote(s: string): string
  {
    if s != [] && s[|s| - 1] == '"' then s[..|s| - 1] else s
  }

  /** What `limpiar_texto` leaves of a key: one leading quote dropped, then one
      trailing quote, then every trailing whitespace character. */
  function Cleaned(s: string): string
  {
    TrimRight(DropTrailingQuote(DropLeadingQuote(s)))
  }

  /** `limpiar_texto` never lengthens a key and never touches its leading whitespace:
      once a leading quote is gone, the result is a prefix of what remains, and what it
      cut off is whitespace possibly followed by one quote. */
  lemma CleanedShape(s: string)
    ensures var d := DropLeadingQuote(s); var c := Cleaned(s);
      |c| <= |d| <= |s| && d[..|c|] == c &&
      (s != [] && s[0] == '"' ==> d == s[1..]) &&
      (s == [] || s[0] != '"' ==> d == s) &&
      (forall i :: |c| <= i < |d| - 1 ==> IsSpace(d[i])) &&
      (|c| < |d| ==> IsSpace(d[|d| - 1]) || d[|d| - 1] == '"') &&
      (c != [] ==> !IsSpace(c[|c| - 1]))
  {
    var d := DropLeadingQuote(s);
    var t := DropTrailingQuote(d);
    var c := TrimRight(t);
    assert t == d[..|t|];
    if |t| < |d| {
      assert d[|d| - 1] == '"';
      forall i | |c| <= i < |d| - 1 ensures IsSpace(d[i]) {
        assert d[i] == t[i];
      }
    } else {
      assert t == d;
    }
  }

  /** Writes a NUL at `n`, ending the string there. */
  method Terminate(s: array<char>, n: nat)
    requires n < s.Length && forall i :: 0 <= i < n ==> s[i] != '\0'
    modifies s
    ensures '\0' in s[..]
    ensures CStr(s[..]) == old(s[..n])
  {
    s[n] := '\0';
    assert s[..][n] == '\0';
    CStrOfTerminated(s[..], n);
  }

  /** The opening-quote step: `memmove(s, s + 1, len)` and a NUL at `len - 1`. */
  method DropOpeningQuote(s: array<char>, len: nat)
    requires '\0' in s[..] && len == |CStr(s[..])|
    modifies s
    ensures '\0' in s[..]
    ensures CStr(s[..]) == DropLeadingQuote(old(CStr(s[..])))
  {
    if len > 0 && s[0] == '"' {
      DropFront(s, 1);
      Terminate(s, len - 1);
    }
  }

  /** The closing-quote step: a NUL over a final `"`. */
  method DropClosingQuote(s: array<char>)
    requires '\0' in s[..]
    modifies s
    ensures '\0' in s[..]
    ensures CStr(s[..]) == DropTrailingQuote(old(CStr(s[..])))
  {
    var len := StrLen(s, 0);
    CStrOfTerminated(s[..], len);
    if len > 0 && s[len - 1] == '"' {
      Terminate(s, len - 1);
    }
  }

  /** `limpiar_texto`: edits a NUL-terminated key buffer in place. */
  method LimpiarTexto(s: array<char>)
    requires '\0' in s[..]
    modifies s
    ensures '\0' in s[..]
    ensures CStr(s[..]) == Cleaned(old(CStr(s[..])))
  {
    var len := StrLen(s, 0);
    CStrOfTerminated(s[..], len);
    if len == 0 {
      return;
    }
    DropOpeningQuote(s, len);
    DropClosingQuote(s);
    ChopTrailingSpaces(s);
  }

  // ---------------------------------------------------------------------------
  // strtok(line, ",\n\r")
  // ---------------------------------------------------------------------------

  /** The delimiter set `",\n\r"` of the builder's `strtok` calls. */
  predicate IsDelim(c: char)
  {
    c == ',' || c == '\n' || c == '\r'
  }

  /** How many non-delimiters open `s`. */
  function RunLen(s: string): (k: nat)
    ensures k <= |s|
    ensures forall i :: 0 <= i < k ==> !IsDelim(s[i])
    ensures k < |s| ==> IsDelim(s[k])
    decreases |s|
  {
    if s == [] || IsDelim(s[0]) then 0 else 1 + RunLen(s[1..])
  }

  lemma RunLenIs(s: string, k: nat)
    requires k <= |s| && (forall i :: 0 <= i < k ==> !IsDelim(s[i])) && (k < |s| ==> IsDelim(s[k]))
    ensures RunLen(s) == k
  {
  }

  /** The successive tokens `strtok` returns: maximal runs of non-delimiters. Empty
      fields vanish and quotes are ordinary characters. */
  function Tokens(s: string): (t: seq<string>)
    ensures forall i :: 0 <= i < |t| ==> |t[i]| > 0
    ensures forall i, j :: 0 <= i < |t| && 0 <= j < |t[i]| ==> !IsDelim(t[i][j])
    decreases |s|
  {
    if s == [] then []
    else if IsDelim(s[0]) then Tokens(s[1..])
    else
      var k := RunLen(s);
      [s[..k]] + Tokens(s[k..])
  }

  /** The tokens of a C string are C strings: no token holds a NUL. */
  lemma {:induction false} TokensNulFree(s: string)
    requires forall k :: 0 <= k < |s| ==> s[k] != '\0'
    ensures forall i, j :: 0 <= i < |Tokens(s)| && 0 <= j < |Tokens(s)[i]| ==> Tokens(s)[i][j] != '\0'
    decreases |s|
  {
    if s != [] {
      if IsDelim(s[0]) {
        TokensNulFree(s[1..]);
      } else {
        var k := RunLen(s);
        TokensNulFree(s[k..]);
        assert Tokens(s) == [s[..k]] + Tokens(s[k..]);
      }
    }
  }

  /** A delimiter at `i` is skipped without producing a token. */
  lemma TokensSkip(s: string, i: nat)
    requires i < |s| && IsDelim(s[i])
    ensures Tokens(s[i..]) == Tokens(s[i + 1..])
  {
    assert s[i..][1..] == s[i + 1..];
  }

  /** A maximal run of non-delimiters from `i` to `j` is the next token. */
  lemma TokensRun(s: string, i: nat, j: nat)
    requires i < j <= |s| && (forall k :: i <= k < j ==> !IsDelim(s[k])) && (j < |s| ==> IsDelim(s[j]))
    ensures Tokens(s[i..]) == [s[i..j]] + Tokens(s[j..])
  {
    RunLenIs(s[i..], j - i);
    assert s[i..][..j - i] == s[i..j];
    assert s[i..][j - i..] == s[j..];
  }

  /** A delimiter splits the token stream in two: nothing crosses it. */
  lemma {:induction false} TokensSplitAtDelim(x: string, c: char, y: string)
    requires IsDelim(c)
    ensures Tokens(x + [c] + y) == Tokens(x) + Tokens(y)
    decreases |x|
  {
    var s := x + [c] + y;
    if x == [] {
      assert s[1..] == y;
    } else if IsDelim(x[0]) {
      assert s[1..] == x[1..] + [c] + y;
      TokensSplitAtDelim(x[1..], c, y);
    } else {
      var k := RunLen(x);
      RunLenIs(s, k);
      assert s[..k] == x[..k];
      assert s[k..] == x[k..] + [c] + y;
      TokensSplitAtDelim(x[k..], c, y);
    }
  }

  /** An empty field leaves no token behind, so every later field moves one column
      to the left: with an empty third field the key is taken from the fifth. */
  lemma EmptyFieldVanishes(x: string, y: string)
    ensures Tokens(x + ",," + y) == Tokens(x + "," + y)
  {
    TokensSplitAtDelim(x + ",", ',', y);
    assert x + ",," + y == (x + ",") + [','] + y;
    TokensSplitAtDelim(x, ',', []);
    assert x + [','] + [] == x + ",";
    assert Tokens([]) == [];
    TokensSplitAtDelim(x, ',', y);
    assert x + "," + y == x + [','] + y;
  }

  /** The scan `strtok` makes over leading delimiters: the first position from `p`
      on that is not a delimiter, or the end of the line. */
  method SkipDelims(s: string, p: nat) returns (i: nat)
    requires p <= |s|
    ensures p <= i <= |s| && (i < |s| ==> !IsDelim(s[i]))
    ensures Tokens(s[p..]) == Tokens(s[i..])
  {
    i := p;
    while i < |s| && IsDelim(s[i])
      invariant p <= i <= |s|
      invariant Tokens(s[p..]) == Tokens(s[i..])
    {
      TokensSkip(s, i);
      i := i + 1;
    }
  }

  /** The scan over a token: the first delimiter from `i` on, or the end of the line. */
  method TokenEnd(s: string, i: nat) returns (j: nat)
    requires i <= |s|
    ensures i <= j <= |s| && (j < |s| ==> IsDelim(s[j]))
    ensures forall k :: i <= k < j ==> !IsDelim(s[k])
  {
    j := i;
    while j < |s| && !IsDelim(s[j])
      invariant i <= j <= |s|
      invariant forall k :: i <= k < j ==> !IsDelim(s[k])
    {
      j := j + 1;
    }
  }

  /** One `strtok` call that resumes at position `p` of the line: the token found, if
      any, and the position just past the delimiter that ended it. */
  method Strtok(s: string, p: nat) returns (tok: Option<string>, q: nat)
    requires p <= |s|
    ensures q <= |s|
    ensures tok.None? ==> Tokens(s[p..]) == []
    ensures tok.Some? ==> p < q && Tokens(s[p..]) == [tok.value] + Tokens(s[q..])
  {
    var i := SkipDelims(s, p);
    if i == |s| {
      assert s[i..] == [];
      return None, i;
    }
    var j := TokenEnd(s, i);
    TokensRun(s, i, j);
    tok := Some(s[i..j]);
    if j < |s| {
      TokensSkip(s, j);
      q := j + 1;
    } else {
      q := j;
    }
  }

  /** The token loop of `build_index`: the fourth token of the line, if it has one. */
  method FourthToken(line: string) returns (key: Option<string>)
    ensures key == (if |Tokens(line)| >= 4 then Some(Tokens(line)[3]) else None)
  {
    assert line[0..] == line;
    var tok, p := Strtok(line, 0);
    var col := 1;
    ghost var before: seq<string> := [];
    while tok.Some?
      invariant 1 <= col <= 4 && p <= |line| && |before| == col - 1
      invariant tok.Some? ==> Tokens(line) == before + [tok.value] + Tokens(line[p..])
      invariant tok.None? ==> Tokens(line) == before
      decreases if tok.Some? then |line| + 1 - p else 0
    {
      ghost var rest := Tokens(line[p..]);
      if col == 4 {
        assert (before + [tok.value] + rest)[|before|] == tok.value;
        return tok;
      }
      before := before + [tok.value];
      assert Tokens(line) == before + rest;
      tok, p := Strtok(line, p);
      if tok.None? {
        assert rest == [];
        assert before + rest == before;
      } else {
        assert rest == [tok.value] + Tokens(line[p..]);
        assert before + rest == before + [tok.value] + Tokens(line[p..]);
      }
      col := col + 1;
    }
    return None;
  }

  // ---------------------------------------------------------------------------
  // The stored key
  // ---------------------------------------------------------------------------

  /** `memset` of the entry followed by `strncpy(entry.key, key, KEY_SIZE - 1)`. */
  function StoreKey(key: string): (k: seq<char>)
    ensures |k| == KeySize && k[KeySize - 1] == '\0'
  {
    var t := Truncate(CStr(key), KeySize - 1);
    t + seq(KeySize - |t|, _ => '\0')
  }

  /** The stored key buffer reads back as the key cut to `KEY_SIZE - 1` characters. */
  lemma StoredKeyReadsBack(key: string)
    ensures CStr(StoreKey(key)) == Truncate(CStr(key), KeySize - 1)
  {
    var t := Truncate(CStr(key), KeySize - 1);
    CStrOfTerminated(StoreKey(key), |t|);
    assert StoreKey(key)[..|t|] == t;
  }

  /** A copy of a NUL-free token in a fresh buffer, cleaned there by `limpiar_texto`. */
  method CleanKey(token: string) returns (key: string)
    requires forall i :: 0 <= i < |token| ==> token[i] != '\0'
    ensures key == Cleaned(token)
  {
    var buf := new char[|token| + 1](i => if 0 <= i < |token| then token[i] else '\0');
    assert buf[..][|token|] == '\0';
    CStrOfTerminated(buf[..], |token|);
    assert buf[..][..|token|] == token;
    LimpiarTexto(buf);
    key := CStr(buf[..]);
  }
}
