/** Character classes of the C locale, the case-insensitive comparisons built on
    `strcasecmp`/`strncasecmp`, whitespace trimming and NUL-terminated character
    buffers. Every C file of the program carries its own static copy of some of
    these helpers; the model defines each of them once. */
module Text {
  import opened Wrappers

  // ---------------------------------------------------------------------------
  // Character classes and case folding (C locale, ASCII)
  // ---------------------------------------------------------------------------

  /** `isspace` in the C locale: space, tab, line feed, vertical tab, form feed, carriage return. */
  predicate IsSpace(c: char)
  {
    c == ' ' || c == '\t' || c == '\n' || c == '\U{0B}' || c == '\U{0C}' || c == '\r'
  }

  /** `isdigit` in the C locale. */
  predicate IsDigit(c: char)
  {
    '0' <= c <= '9'
  }

  /** `tolower` in the C locale: only the 26 ASCII capitals change. */
  function Lower(c: char): char
  {
    if 'A' <= c <= 'Z' then (c as int + 32) as char else c
  }

  function LowerAll(s: string): (r: string)
    ensures |r| == |s| && forall i :: 0 <= i < |s| ==> r[i] == Lower(s[i])
  {
    seq(|s|, i requires 0 <= i < |s| => Lower(s[i]))
  }

  /** `strcasecmp(a, b) == 0` for two C strings. */
  predicate CiEqual(a: string, b: string)
  {
    |a| == |b| && forall i :: 0 <= i < |a| ==> Lower(a[i]) == Lower(b[i])
  }

  /** `strncasecmp(h + i, n, strlen(n)) == 0` when at least `strlen(n)` characters remain at `i`. */
  predicate MatchAt(h: string, n: string, i: nat)
  {
    i + |n| <= |h| && CiEqual(h[i..i + |n|], n)
  }

  // ---------------------------------------------------------------------------
  // ci_strcasestr
  // ---------------------------------------------------------------------------

  /** `ci_strcasestr(haystack, needle)`: the position of the first case-insensitive
      occurrence of `needle`, `None` for the NULL result. An empty needle is found
      at position 0 (it returns `haystack` itself). */
  function CiStrStr(haystack: string, needle: string): (r: Option<nat>)
    ensures r.Some? ==> MatchAt(haystack, needle, r.value)
    ensures r.Some? ==> forall j :: 0 <= j < r.value ==> !MatchAt(haystack, needle, j)
    ensures r.None? ==> forall j: nat :: !MatchAt(haystack, needle, j)
  {
    if |needle| == 0 then Some(0) else ScanFrom(haystack, needle, 0)
  }

  /** The `for (p = haystack; *p; ++p)` loop of `ci_strcasestr`, from position `p` on. */
  function ScanFrom(h: string, n: string, p: nat): (r: Option<nat>)
    requires |n| > 0 && p <= |h|
    ensures r.Some? ==> p <= r.value && MatchAt(h, n, r.value)
    ensures r.Some? ==> forall j :: p <= j < r.value ==> !MatchAt(h, n, j)
    ensures r.None? ==> forall j: nat :: p <= j ==> !MatchAt(h, n, j)
    decreases |h| - p
  {
    if p == |h| then None
    else if |h| - p < |n| then None
    else if CiEqual(h[p..p + |n|], n) then Some(p)
    else ScanFrom(h, n, p + 1)
  }

  /** An independent reference: the first EXACT occurrence of `n` in `h` (`strstr`). */
  function Find(h: string, n: string, p: nat): Option<nat>
    decreases |h| + 1 - p
  {
    if p + |n| > |h| then None
    else if h[p..p + |n|] == n then Some(p)
    else Find(h, n, p + 1)
  }

  lemma CiEqualIsLowerEqual(a: string, b: string)
    ensures CiEqual(a, b) <==> LowerAll(a) == LowerAll(b)
  {
    if LowerAll(a) == LowerAll(b) {
      assert forall i :: 0 <= i < |a| ==> Lower(a[i]) == LowerAll(a)[i] == LowerAll(b)[i] == Lower(b[i]);
    }
    if CiEqual(a, b) {
      assert forall i :: 0 <= i < |a| ==> LowerAll(a)[i] == LowerAll(b)[i];
    }
  }

  lemma {:induction false} ScanFromIsLowerFind(h: string, n: string, p: nat)
    requires |n| > 0 && p <= |h|
    ensures ScanFrom(h, n, p) == Find(LowerAll(h), LowerAll(n), p)
    decreases |h| - p
  {
    if p < |h| && |h| - p >= |n| {
      assert LowerAll(h)[p..p + |n|] == LowerAll(h[p..p + |n|]);
      CiEqualIsLowerEqual(h[p..p + |n|], n);
      if !CiEqual(h[p..p + |n|], n) {
        ScanFromIsLowerFind(h, n, p + 1);
      }
    }
  }

  /** `ci_strcasestr` is `strstr` applied to the lower-cased haystack and needle. */
  lemma CiStrStrIsLowerFind(haystack: string, needle: string)
    ensures CiStrStr(haystack, needle) == Find(LowerAll(haystack), LowerAll(needle), 0)
  {
    if |needle| > 0 {
      ScanFromIsLowerFind(haystack, needle, 0);
    } else {
      assert LowerAll(haystack)[0..0] == LowerAll(needle);
    }
  }

  // ---------------------------------------------------------------------------
  // Whitespace trimming (the specification of trim_inplace)
  // ---------------------------------------------------------------------------

  /** `s` without its maximal run of leading whitespace. */
  function TrimLeft(s: string): (r: string)
    ensures |r| <= |s| && r == s[|s| - |r|..]
    ensures forall i :: 0 <= i < |s| - |r| ==> IsSpace(s[i])
    ensures r != [] ==> !IsSpace(r[0])
    decreases |s|
  {
    if s != [] && IsSpace(s[0]) then TrimLeft(s[1..]) else s
  }

  /** `s` without its maximal run of trailing whitespace. */
  function TrimRight(s: string): (r: string)
    ensures |r| <= |s| && r == s[..|r|]
    ensures forall i :: |r| <= i < |s| ==> IsSpace(s[i])
    ensures r != [] ==> !IsSpace(r[|r| - 1])
    decreases |s|
  {
    if s != [] && IsSpace(s[|s| - 1]) then TrimRight(s[..|s| - 1]) else s
  }

  function Trim(s: string): string
  {
    TrimRight(TrimLeft(s))
  }

  /** `Trim(s)` is the middle of `s` once its whitespace prefix and suffix are cut away,
      both as long as possible: it neither starts nor ends with whitespace. */
  lemma TrimIsMaximalStrip(s: string)
    ensures |s| - |TrimLeft(s)| + |Trim(s)| <= |s|
    ensures Trim(s) == s[|s| - |TrimLeft(s)|..|s| - |TrimLeft(s)| + |Trim(s)|]
    ensures forall i :: 0 <= i < |s| - |TrimLeft(s)| ==> IsSpace(s[i])
    ensures forall i :: |s| - |TrimLeft(s)| + |Trim(s)| <= i < |s| ==> IsSpace(s[i])
    ensures Trim(s) != [] ==> !IsSpace(Trim(s)[0]) && !IsSpace(Trim(s)[|Trim(s)| - 1])
  {
    var a := |s| - |TrimLeft(s)|;
    var t := TrimLeft(s);
    var r := TrimRight(t);
    assert t == s[a..];
    assert r == t[..|r|];
    forall i | a + |r| <= i < |s| ensures IsSpace(s[i]) {
      assert s[i] == t[i - a];
    }
    if r != [] {
      assert r[0] == t[0];
    }
  }

  /** Trimming twice is trimming once. */
  lemma TrimIdempotent(s: string)
    ensures Trim(Trim(s)) == Trim(s)
  {
    var r := Trim(s);
    TrimIsMaximalStrip(s);
    if r != [] {
      assert TrimLeft(r) == r;
      assert TrimRight(r) == r;
    }
  }

  /** A string that neither starts nor ends with whitespace is its own trim. */
  lemma TrimUnchanged(s: string)
    requires s == [] || (!IsSpace(s[0]) && !IsSpace(s[|s| - 1]))
    ensures Trim(s) == s
  {
    if s != [] {
      assert TrimLeft(s) == s;
    }
  }

  /** Keeping at most `n` characters (`strncpy` into a buffer of `n + 1` followed by a NUL). */
  function Truncate(s: string, n: nat): (r: string)
    ensures |r| <= n && r <= s
    ensures |s| <= n ==> r == s
    ensures |s| > n ==> |r| == n
  {
    if |s| <= n then s else s[..n]
  }

  // ---------------------------------------------------------------------------
  // NUL-terminated character buffers
  // ---------------------------------------------------------------------------

  /** The C string held by a character buffer: everything before its first NUL
      (all of it when it holds none). */
  function CStr(a: seq<char>): (r: string)
    ensures |r| <= |a| && r == a[..|r|]
    ensures forall i :: 0 <= i < |r| ==> r[i] != '\0'
    ensures |r| < |a| ==> a[|r|] == '\0'
    ensures '\0' in a ==> |r| < |a|
    decreases |a|
  {
    if a == [] || a[0] == '\0' then [] else [a[0]] + CStr(a[1..])
  }

  lemma {:induction false} CStrOfTerminated(a: seq<char>, n: nat)
    requires n < |a| && a[n] == '\0'
    requires forall i :: 0 <= i < n ==> a[i] != '\0'
    ensures CStr(a) == a[..n]
    decreases n
  {
    if n > 0 {
      CStrOfTerminated(a[1..], n - 1);
      assert a[..n] == [a[0]] + a[1..][..n - 1];
    }
  }

  /** `strlen(s + from)`; the buffer must hold a NUL at or after `from`. */
  method StrLen(s: array<char>, from: nat) returns (n: nat)
    requires from <= s.Length && '\0' in s[from..]
    ensures from + n < s.Length && s[from + n] == '\0'
    ensures forall i :: from <= i < from + n ==> s[i] != '\0'
  {
    n := 0;
    while s[from + n] != '\0'
      invariant from + n < s.Length && '\0' in s[from + n..]
      invariant forall i :: from <= i < from + n ==> s[i] != '\0'
      decreases s.Length - (from + n)
    {
      assert s[from + n..] == [s[from + n]] + s[from + n + 1..];
      n := n + 1;
    }
  }

  /** `memmove(s, s + from, count)` towards the front of the buffer. */
  method MoveDown(s: array<char>, from: nat, count: nat)
    requires from + count <= s.Length
    modifies s
    ensures forall i :: 0 <= i < count ==> s[i] == old(s[from + i])
    ensures forall i :: count <= i < s.Length ==> s[i] == old(s[i])
  {
    var k := 0;
    while k < count
      invariant 0 <= k <= count
      invariant forall i :: 0 <= i < k ==> s[i] == old(s[from + i])
      invariant forall i :: k <= i < s.Length ==> s[i] == old(s[i])
    {
      s[k] := s[from + k];
      k := k + 1;
    }
  }

  /** The second half of `trim_inplace`: trailing whitespace is overwritten with NULs. */
  method ChopTrailingSpaces(s: array<char>)
    requires '\0' in s[..]
    modifies s
    ensures '\0' in s[..]
    ensures CStr(s[..]) == TrimRight(old(CStr(s[..])))
  {
    ghost var u := CStr(s[..]);
    var n := StrLen(s, 0);
    CStrOfTerminated(s[..], n);
    assert u[..n] == u;
    while n > 0 && IsSpace(s[n - 1])
      invariant 0 <= n <= |u| < s.Length
      invariant forall i :: 0 <= i < n ==> s[i] == u[i]
      invariant s[n] == '\0'
      invariant TrimRight(u) == TrimRight(u[..n])
    {
      assert u[..n][..n - 1] == u[..n - 1];
      s[n - 1] := '\0';
      n := n - 1;
    }
    assert TrimRight(u[..n]) == u[..n];
    CStrOfTerminated(s[..], n);
    assert s[..][..n] == u[..n];
  }

  /** The first loop of `trim_inplace`: how many whitespace characters open the string. */
  method LeadingSpaces(s: array<char>) returns (a: nat)
    requires '\0' in s[..]
    ensures a <= |CStr(s[..])|
    ensures TrimLeft(CStr(s[..])) == CStr(s[..])[a..]
  {
    ghost var str := CStr(s[..]);
    CStrOfTerminated(s[..], |str|);
    a := 0;
    while s[a] != '\0' && IsSpace(s[a])
      invariant 0 <= a <= |str|
      invariant TrimLeft(str) == TrimLeft(str[a..])
      decreases |str| - a
    {
      assert s[a] == str[a];
      assert str[a..][1..] == str[a + 1..];
      a := a + 1;
    }
    assert a < |str| ==> s[a] == str[a];
  }

  /** A buffer whose first `|CStr(before)| - a + 1` cells are those of `before` from `a`
      on holds the C string of `before` without its first `a` characters. */
  lemma ShiftedCStr(before: seq<char>, after: seq<char>, a: nat)
    requires a <= |CStr(before)| < |before| && |after| == |before|
    requires forall i :: 0 <= i <= |CStr(before)| - a ==> after[i] == before[a + i]
    ensures CStr(after) == CStr(before)[a..]
  {
    var str := CStr(before);
    var u := str[a..];
    assert forall i :: 0 <= i < |u| ==> after[i] == u[i];
    CStrOfTerminated(after, |u|);
    assert after[..|u|] == u;
  }

  /** `memmove(s, s + a, strlen(s + a) + 1)`: the C string loses its first `a` characters. */
  method DropFront(s: array<char>, a: nat)
    requires '\0' in s[..] && a <= |CStr(s[..])|
    modifies s
    ensures '\0' in s[..]
    ensures CStr(s[..]) == old(CStr(s[..]))[a..]
  {
    ghost var before := s[..];
    ghost var str := CStr(before);
    assert before[|str|] == '\0';
    assert s[a..][|str| - a] == '\0';
    var m := StrLen(s, a);
    assert a + m == |str| by {
      if a + m < |str| { assert false; }
    }
    MoveDown(s, a, m + 1);
    ShiftedCStr(before, s[..], a);
  }

  /** `trim_inplace`: removes leading whitespace by moving the rest of the string
      (terminator included) to the front, then overwrites trailing whitespace with NULs. */
  method TrimInPlace(s: array<char>)
    requires '\0' in s[..]
    modifies s
    ensures '\0' in s[..]
    ensures CStr(s[..]) == Trim(old(CStr(s[..])))
  {
    var a := LeadingSpaces(s);
    if a != 0 {
      DropFront(s, a);
    }
    ChopTrailingSpaces(s);
  }
}
