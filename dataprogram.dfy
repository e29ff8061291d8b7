/** The menu program (`p1-dataProgram.c`): the check it makes on the date criterion,
    and the two criterion buffers the menu edits and packs into a request. */
module DataProgram {
  import opened Wrappers
  import opened Text
  import opened IndexLayout
  import opened Csv
  import opened Common
  import Worker

  // ---------------------------------------------------------------------------
  // is_leap_year
  // ---------------------------------------------------------------------------

  /** `is_leap_year`: the Gregorian rule, tested as the three divisibility checks
      of the program, in its order. C's `%` and Dafny's differ for negative years,
      but only in the sign of a non-zero remainder, so every test here agrees. */
  function IsLeapYear(y: int): (leap: bool)
    ensures leap <==> (y % 4 == 0 && y % 100 != 0) || y % 400 == 0
  {
    if y % 4 != 0 then false
    else if y % 100 != 0 then true
    else if y % 400 != 0 then false
    else true
  }

  /** Centuries are leap years only every fourth time. */
  lemma LeapExamples()
    ensures IsLeapYear(2000) && IsLeapYear(2024)
    ensures !IsLeapYear(1900) && !IsLeapYear(2023)
  {
  }

  // ---------------------------------------------------------------------------
  // valid_ymd_format
  // ---------------------------------------------------------------------------

  /** The layout `valid_ymd_format` checks first: ten characters, `-` at indices 4
      and 7, and decimal digits everywhere else. */
  predicate YmdShape(s: string)
  {
    |s| == 10 && s[4] == '-' && s[7] == '-' &&
    forall i :: 0 <= i < 10 && i != 4 && i != 7 ==> IsDigit(s[i])
  }

  predicate AllDigits(s: string)
  {
    forall i :: 0 <= i < |s| ==> IsDigit(s[i])
  }

  function DigitValue(c: char): nat
    requires IsDigit(c)
  {
    c as int - '0' as int
  }

  /** `atoi` of a run of digits: its decimal value (leading zeros count for nothing). */
  function Decimal(s: string): nat
    requires AllDigits(s)
    decreases |s|
  {
    if s == [] then 0 else 10 * Decimal(s[..|s| - 1]) + DigitValue(s[|s| - 1])
  }

  function Year(s: string): nat
    requires YmdShape(s)
  {
    Decimal(s[..4])
  }

  function Month(s: string): nat
    requires YmdShape(s)
  {
    Decimal(s[5..7])
  }

  function Day(s: string): nat
    requires YmdShape(s)
  {
    Decimal(s[8..10])
  }

  /** `mdays`: 30 for April, June, September and November, 29 or 28 for February
      by the leap rule, 31 for the other months. */
  function MonthDays(y: int, m: int): int
  {
    if m == 2 then (if IsLeapYear(y) then 29 else 28)
    else if m == 4 || m == 6 || m == 9 || m == 11 then 30
    else 31
  }

  /** What `valid_ymd_format` accepts: a `YYYY-MM-DD` text whose month is 1 to 12 and
      whose day is 1 to the length of that month in that year. */
  predicate IsFullDate(s: string)
  {
    YmdShape(s) && 1 <= Month(s) <= 12 && 1 <= Day(s) <= MonthDays(Year(s), Month(s))
  }

  /** `valid_ymd_format` on a NUL-terminated buffer: the length, the dashes and the
      digits are checked in this order, then the three numbers are read with `atoi`
      and the month and the day are checked. */
  method ValidYmdFormat(s: array<char>) returns (ok: bool)
    requires '\0' in s[..]
    ensures ok == IsFullDate(CStr(s[..]))
  {
    var len := StrLen(s, 0);
    CStrOfTerminated(s[..], len);
    if len != 10 {
      return false;
    }
    if s[4] != '-' || s[7] != '-' {
      return false;
    }
    for i := 0 to 10
      invariant forall k :: 0 <= k < i && k != 4 && k != 7 ==> IsDigit(s[k])
    {
      if i != 4 && i != 7 && !IsDigit(s[i]) {
        assert !YmdShape(CStr(s[..]));
        return false;
      }
    }
    ghost var d := CStr(s[..]);
    assert d == s[..10] && YmdShape(d);
    assert d[..4] == s[..4] && d[5..7] == s[5..7] && d[8..10] == s[8..10];
    var y := Decimal(s[..4]);
    var m := Decimal(s[5..7]);
    var day := Decimal(s[8..10]);
    if m < 1 || m > 12 {
      return false;
    }
    if day < 1 {
      return false;
    }
    var mdays := 31;
    if m == 2 {
      mdays := if IsLeapYear(y) then 29 else 28;
    } else if m == 4 || m == 6 || m == 9 || m == 11 {
      mdays := 30;
    }
    if day > mdays {
      return false;
    }
    return true;
  }

  // ---------------------------------------------------------------------------
  // Dates written out
  // ---------------------------------------------------------------------------

  function Digit(n: nat): (c: char)
    requires n < 10
    ensures IsDigit(c) && DigitValue(c) == n
  {
    ('0' as int + n) as char
  }

  function Pow10(k: nat): nat
  {
    if k == 0 then 1 else 10 * Pow10(k - 1)
  }

  /** The last `w` decimal digits of `n`, zero-padded on the left. */
  function Padded(n: nat, w: nat): (s: string)
    ensures |s| == w && AllDigits(s)
  {
    if w == 0 then [] else Padded(n / 10, w - 1) + [Digit(n % 10)]
  }

  /** A number written in enough digits reads back as itself. */
  lemma {:induction false} PaddedReadsBack(n: nat, w: nat)
    requires n < Pow10(w)
    ensures Decimal(Padded(n, w)) == n
  {
    if w > 0 {
      PaddedReadsBack(n / 10, w - 1);
      var s := Padded(n, w);
      assert s[..|s| - 1] == Padded(n / 10, w - 1);
    }
  }

  /** A run of digits is the padded text of its value. */
  lemma {:induction false} DigitsArePadded(s: string)
    requires AllDigits(s)
    ensures Decimal(s) < Pow10(|s|) && Padded(Decimal(s), |s|) == s
  {
    if s != [] {
      var init := s[..|s| - 1];
      DigitsArePadded(init);
      var v := Decimal(s);
      assert v == 10 * Decimal(init) + DigitValue(s[|s| - 1]);
      assert v / 10 == Decimal(init) && v % 10 == DigitValue(s[|s| - 1]);
      assert s == init + [s[|s| - 1]];
    }
  }

  /** The `YYYY-MM-DD` text of a year, a month and a day, zero-padded. */
  function Ymd(y: nat, m: nat, d: nat): string
  {
    Padded(y, 4) + "-" + Padded(m, 2) + "-" + Padded(d, 2)
  }

  lemma YmdParts(y: nat, m: nat, d: nat)
    ensures var s := Ymd(y, m, d);
      |s| == 10 && s[..4] == Padded(y, 4) && s[4] == '-' && s[5..7] == Padded(m, 2) && s[7] == '-' && s[8..10] == Padded(d, 2)
  {
  }

  /** A written-out date has the layout and reads back as the numbers written,
      when they fit their four, two and two digits. */
  lemma YmdReadsBack(y: nat, m: nat, d: nat)
    requires y < 10000 && m < 100 && d < 100
    ensures YmdShape(Ymd(y, m, d))
    ensures Year(Ymd(y, m, d)) == y && Month(Ymd(y, m, d)) == m && Day(Ymd(y, m, d)) == d
  {
    YmdParts(y, m, d);
    assert Pow10(4) == 10000 && Pow10(2) == 100;
    PaddedReadsBack(y, 4);
    PaddedReadsBack(m, 2);
    PaddedReadsBack(d, 2);
  }

  /** Every text of the right layout is a written-out date: the layout check leaves
      exactly the four-, two- and two-digit numbers to the range checks. */
  lemma YmdCoversShape(s: string)
    requires YmdShape(s)
    ensures Year(s) < 10000 && Month(s) < 100 && Day(s) < 100
    ensures Ymd(Year(s), Month(s), Day(s)) == s
  {
    assert Pow10(4) == 10000 && Pow10(2) == 100;
    DigitsArePadded(s[..4]);
    DigitsArePadded(s[5..7]);
    DigitsArePadded(s[8..10]);
    YmdParts(Year(s), Month(s), Day(s));
    assert s == s[..4] + "-" + s[5..7] + "-" + s[8..10];
  }

  /** A written-out date is accepted exactly when it names a day of the Gregorian
      calendar. */
  lemma FullDateIsCalendarDay(y: nat, m: nat, d: nat)
    requires y < 10000 && m < 100 && d < 100
    ensures IsFullDate(Ymd(y, m, d)) <==> 1 <= m <= 12 && 1 <= d <= MonthDays(y, m)
  {
    YmdReadsBack(y, m, d);
  }

  lemma LeapDayDigits()
    ensures Padded(2, 2) == "02" && Padded(29, 2) == "29"
  {
  }

  lemma Padded2000() ensures Padded(2000, 4) == "2000" {}
  lemma Padded1900() ensures Padded(1900, 4) == "1900" {}
  lemma Padded2023() ensures Padded(2023, 4) == "2023" {}

  lemma LeapDayText2000()
    ensures Ymd(2000, 2, 29) == "2000-02-29"
  {
    Padded2000();
    LeapDayDigits();
    assert "2000-02-29" == "2000" + "-" + "02" + "-" + "29";
  }

  lemma LeapDayText1900()
    ensures Ymd(1900, 2, 29) == "1900-02-29"
  {
    Padded1900();
    LeapDayDigits();
    assert "1900-02-29" == "1900" + "-" + "02" + "-" + "29";
  }

  lemma LeapDayText2023()
    ensures Ymd(2023, 2, 29) == "2023-02-29"
  {
    Padded2023();
    LeapDayDigits();
    assert "2023-02-29" == "2023" + "-" + "02" + "-" + "29";
  }

  /** 29 February of a year is a day exactly in the leap years. */
  lemma LeapDay(y: nat)
    requires y < 10000
    ensures IsFullDate(Ymd(y, 2, 29)) <==> IsLeapYear(y)
  {
    FullDateIsCalendarDay(y, 2, 29);
  }

  /** 29 February 2000 is a day: 2000 is a leap year as a multiple of 400. */
  lemma LeapDayOf2000Accepted()
    ensures IsFullDate("2000-02-29")
  {
    LeapDayText2000();
    LeapDay(2000);
  }

  /** 29 February 1900 is not: 1900 is a century not divisible by 400. */
  lemma LeapDayOf1900Rejected()
    ensures !IsFullDate("1900-02-29")
  {
    LeapDayText1900();
    LeapDay(1900);
  }

  /** Nor is 29 February 2023: 2023 is not a multiple of 4. */
  lemma LeapDayOf2023Rejected()
    ensures !IsFullDate("2023-02-29")
  {
    LeapDayText2023();
    LeapDay(2023);
  }

  // ---------------------------------------------------------------------------
  // The criterion buffers of the menu
  // ---------------------------------------------------------------------------

  /** `title_buf[256]` and `date_buf[256]`, sized like the request's values. */
  const BufSize: nat := 256

  /** The prefix of `s` before its first `\r` or `\n`: what
      `input[strcspn(input, "\r\n")] = '\0'` leaves of a line. */
  function LineBody(s: string): (r: string)
    ensures r <= s
    ensures forall i :: 0 <= i < |r| ==> s[i] != '\r' && s[i] != '\n'
    ensures |r| < |s| ==> s[|r|] == '\r' || s[|r|] == '\n'
    decreases |s|
  {
    if s == [] || s[0] == '\r' || s[0] == '\n' then [] else [s[0]] + LineBody(s[1..])
  }

  lemma LineBodyIs(s: string, i: nat)
    requires i <= |s| && (forall k :: 0 <= k < i ==> s[k] != '\r' && s[k] != '\n')
    requires i < |s| ==> s[i] == '\r' || s[i] == '\n'
    ensures LineBody(s) == s[..i]
  {
  }

  /** What options 1 and 2 make of the line they read: cut at the line end, then
      trimmed. */
  function Entered(line: string): string
  {
    Trim(LineBody(line))
  }

  /** `input[strcspn(input, "\r\n")] = '\0'`. */
  method CutAtLineEnd(s: array<char>)
    requires '\0' in s[..]
    modifies s
    ensures '\0' in s[..]
    ensures CStr(s[..]) == LineBody(old(CStr(s[..])))
  {
    ghost var c := CStr(s[..]);
    var i := 0;
    while s[i] != '\0' && s[i] != '\r' && s[i] != '\n'
      invariant i <= |c| && c == s[..|c|] && s[|c|] == '\0'
      invariant forall k :: 0 <= k < i ==> c[k] != '\r' && c[k] != '\n'
      decreases |c| - i
    {
      i := i + 1;
    }
    LineBodyIs(c, i);
    s[i] := '\0';
    assert forall k :: 0 <= k < i ==> s[..][k] == c[k];
    CStrOfTerminated(s[..], i);
  }

  /** The first `n` bytes `strncpy(dst, src, n)` writes: the string cut to `n`
      characters, then NULs up to `n`. */
  function NCopied(s: string, n: nat): (r: seq<char>)
    ensures |r| == n
  {
    Truncate(s, n) + seq(n - |Truncate(s, n)|, _ => '\0')
  }

  /** A buffer that starts with `strncpy`'s bytes and has a NUL after them holds the
      string cut to `n` characters. */
  lemma NCopiedReadsBack(s: string, n: nat, a: seq<char>)
    requires NulFree(s) && n < |a| && a[..n] == NCopied(s, n) && a[n] == '\0'
    ensures CStr(a) == Truncate(s, n)
  {
    var t := Truncate(s, n);
    assert forall k :: 0 <= k < |t| ==> a[k] == a[..n][k] == t[k];
    if |t| < n {
      assert a[|t|] == a[..n][|t|];
    }
    CStrOfTerminated(a, |t|);
  }

  /** `strncpy(dst, src, n)`: the C string in `src`, cut to `n` characters, and NULs
      up to `n`; the bytes from `n` on are left alone. */
  method StrNCopy(dst: array<char>, src: array<char>, n: nat)
    requires n <= dst.Length && '\0' in src[..] && dst != src
    modifies dst
    ensures dst[..n] == NCopied(CStr(src[..]), n)
    ensures dst[n..] == old(dst[n..])
  {
    ghost var c := CStr(src[..]);
    ghost var t := Truncate(c, n);
    var i := 0;
    while i < n && src[i] != '\0'
      invariant i <= n && i <= |c| && c == src[..|c|] && src[|c|] == '\0'
      invariant forall k :: 0 <= k < i ==> dst[k] == c[k]
      invariant dst[n..] == old(dst[n..])
      decreases n - i
    {
      dst[i] := src[i];
      i := i + 1;
    }
    assert i == |t|;
    while i < n
      invariant |t| <= i <= n
      invariant forall k :: 0 <= k < |t| ==> dst[k] == t[k]
      invariant forall k :: |t| <= k < i ==> dst[k] == '\0'
      invariant dst[n..] == old(dst[n..])
    {
      dst[i] := '\0';
      i := i + 1;
    }
    assert forall k :: 0 <= k < n ==> dst[..n][k] == NCopied(c, n)[k];
  }

  /** The two steps options 1 and 2 share after their `fgets`: the line end is cut
      off and the rest trimmed in place. */
  method CleanEntry(input: array<char>)
    requires '\0' in input[..]
    modifies input
    ensures '\0' in input[..]
    ensures CStr(input[..]) == Entered(old(CStr(input[..])))
  {
    CutAtLineEnd(input);
    TrimInPlace(input);
  }

  /** `strncpy(buf, input, sizeof(buf) - 1)` and a NUL in the last byte: the buffer
      holds at most 255 characters of the input. */
  method StoreCriterion(buf: array<char>, input: array<char>)
    requires buf.Length == BufSize && buf != input && '\0' in input[..]
    modifies buf
    ensures buf[BufSize - 1] == '\0'
    ensures CStr(buf[..]) == Truncate(CStr(input[..]), BufSize - 1)
  {
    StrNCopy(buf, input, BufSize - 1);
    buf[BufSize - 1] := '\0';
    assert buf[..][..BufSize - 1] == NCopied(CStr(input[..]), BufSize - 1);
    NCopiedReadsBack(CStr(input[..]), BufSize - 1, buf[..]);
  }

  /** What option 2 leaves in `date_buf`: the entered text when it is empty or a
      valid date, and the previous date otherwise. */
  function DateAfter(before: string, entry: string): string
  {
    if entry == [] || IsFullDate(entry) then entry else before
  }

  /** The fields option 3 fills: `field_name1` is "title" and `value1` the title
      exactly when there is a title, `field_name2` is "update_date" and `value2` the
      date exactly when there is a date, and every unused field is empty. */
  predicate Carries(req: Request, title: string, date: string)
  {
    (if title != [] then req.fieldName1 == TitleName && req.value1 == title
     else req.fieldName1 == [] && req.value1 == []) &&
    (if date != [] then req.fieldName2 == UpdateDateName && req.value2 == date
     else req.fieldName2 == [] && req.value2 == [])
  }

  /** A NUL-free string shorter than the buffer, without surrounding whitespace,
      survives the worker's `strncpy` and `trim_inplace` unchanged. */
  lemma CopiedUnchanged(s: string, size: nat)
    requires size >= 1 && NulFree(s) && |s| < size
    requires s == [] || (!IsSpace(s[0]) && !IsSpace(s[|s| - 1]))
    ensures Worker.Copied(s, size) == s
  {
    assert |CStr(s)| == |s|;
    TrimUnchanged(s);
  }

  /** Two names that read back unchanged and differ in length are different names
      to `field_is`. */
  lemma NamesDiffer(a: string, b: string)
    requires Worker.Copied(a, Worker.NameSize) == a && Worker.Copied(b, Worker.NameSize) == b && |a| != |b|
    ensures !Worker.FieldIs(a, b)
  {
  }

  /** The worker reads the menu's field names as the program means them: "title"
      names the title, "update_date" the date, and an empty name neither. */
  lemma TitleNameIsTitle()
    ensures Worker.FieldIs(TitleName, TitleName)
  {
    CopiedUnchanged(TitleName, Worker.NameSize);
  }

  lemma DateNameIsNotTitle()
    ensures !Worker.FieldIs(UpdateDateName, TitleName)
  {
    CopiedUnchanged(TitleName, Worker.NameSize);
    CopiedUnchanged(UpdateDateName, Worker.NameSize);
    NamesDiffer(UpdateDateName, TitleName);
  }

  lemma EmptyNameIsNotTitle()
    ensures !Worker.FieldIs([], TitleName)
  {
    CopiedUnchanged(TitleName, Worker.NameSize);
    CopiedUnchanged([], Worker.NameSize);
    NamesDiffer([], TitleName);
  }

  lemma DateNameIsDate()
    ensures Worker.IsUpdateField(UpdateDateName)
  {
    CopiedUnchanged(UpdateDateName, Worker.NameSize);
    assert Worker.FieldIs(UpdateDateName, UpdateDateName);
  }

  /** The spellings of the date field read back unchanged. */
  lemma DateNameRead()
    ensures Worker.Copied(UpdateDateName, Worker.NameSize) == UpdateDateName
  {
    CopiedUnchanged(UpdateDateName, Worker.NameSize);
  }

  lemma JoinedDateNameRead()
    ensures Worker.Copied(UpdateDateNameJoined, Worker.NameSize) == UpdateDateNameJoined
  {
    CopiedUnchanged(UpdateDateNameJoined, Worker.NameSize);
  }

  lemma DashedDateNameRead()
    ensures Worker.Copied(UpdateDateNameDashed, Worker.NameSize) == UpdateDateNameDashed
  {
    CopiedUnchanged(UpdateDateNameDashed, Worker.NameSize);
  }

  lemma TitleNameIsNotDate()
    ensures !Worker.IsUpdateField(TitleName)
  {
    CopiedUnchanged(TitleName, Worker.NameSize);
    DateNameRead();
    JoinedDateNameRead();
    DashedDateNameRead();
    NamesDiffer(TitleName, UpdateDateName);
    NamesDiffer(TitleName, UpdateDateNameJoined);
    NamesDiffer(TitleName, UpdateDateNameDashed);
  }

  lemma EmptyNameIsNotDate()
    ensures !Worker.IsUpdateField([])
  {
    CopiedUnchanged([], Worker.NameSize);
    DateNameRead();
    JoinedDateNameRead();
    DashedDateNameRead();
    NamesDiffer([], UpdateDateName);
    NamesDiffer([], UpdateDateNameJoined);
    NamesDiffer([], UpdateDateNameDashed);
  }

  /** The title of a request built by option 3 is what the worker searches for,
      trimmed once more; without a title the worker finds none. */
  lemma TitleReachesWorker(req: Request, title: string, date: string)
    requires Carries(req, title, date) && NulFree(title) && |title| < BufSize
    ensures Worker.TitleOf(req) == Trim(title)
  {
    if title != [] {
      TitleNameIsTitle();
      assert Worker.FieldIs(req.fieldName1, TitleName);
      assert Worker.TitleOf(req) == Worker.Copied(title, KeySize);
      assert |CStr(title)| == |title|;
      assert CStr(title) == title;
    } else {
      EmptyNameIsNotTitle();
      DateNameIsNotTitle();
      assert !Worker.FieldIs(req.fieldName1, TitleName);
      assert !Worker.FieldIs(req.fieldName2, TitleName);
    }
  }

  /** A text of the date layout survives the worker's copy into `update_val`. */
  lemma DateCopied(date: string)
    requires YmdShape(date)
    ensures Worker.Copied(date, Worker.DateSize) == date
  {
    assert NulFree(date) && !IsSpace(date[0]) && !IsSpace(date[9]);
    CopiedUnchanged(date, Worker.DateSize);
  }

  /** The date of a request built by option 3 is the date the worker filters on:
      a text of the `YYYY-MM-DD` layout, such as every date option 2 stores, reads
      back unchanged. */
  lemma DateReachesWorker(req: Request, title: string, date: string)
    requires Carries(req, title, date) && (date == [] || YmdShape(date))
    ensures Worker.UpdateOf(req) == date
  {
    if req.fieldName1 == [] {
      EmptyNameIsNotDate();
      assert !Worker.IsUpdateField(req.fieldName1);
    } else {
      TitleNameIsNotDate();
      assert !Worker.IsUpdateField(req.fieldName1);
    }
    if date != [] {
      DateNameIsDate();
      assert Worker.IsUpdateField(req.fieldName2);
      assert Worker.UpdateOf(req) == Worker.Copied(date, Worker.DateSize);
      DateCopied(date);
    } else {
      EmptyNameIsNotDate();
      assert !Worker.IsUpdateField(req.fieldName2);
    }
  }

  /** The state `main` keeps across the iterations of its menu loop. */
  class Menu {
    /** `title_buf`: the first criterion. */
    const titleBuf: array<char>
    /** `date_buf`: the second criterion. */
    const dateBuf: array<char>

    /** Both buffers are 256 bytes with a NUL in the last one, and the date is empty
        or a valid date. */
    predicate Valid()
      reads this, titleBuf, dateBuf
    {
      titleBuf.Length == BufSize && dateBuf.Length == BufSize && titleBuf != dateBuf &&
      titleBuf[BufSize - 1] == '\0' && dateBuf[BufSize - 1] == '\0' &&
      (Date() == [] || IsFullDate(Date()))
    }

    function Title(): string
      reads this, titleBuf
    {
      CStr(titleBuf[..])
    }

    function Date(): string
      reads this, dateBuf
    {
      CStr(dateBuf[..])
    }

    /** `char title_buf[256] = {0}` and `char date_buf[256] = {0}`. */
    constructor()
      ensures Valid() && Title() == [] && Date() == []
      ensures fresh(titleBuf) && fresh(dateBuf)
    {
      titleBuf := new char[BufSize](_ => '\0');
      dateBuf := new char[BufSize](_ => '\0');
    }

    /** Option 1 after its `fgets`: the line in `input` is cut at its end and
        trimmed, and at most 255 characters of it become the title. */
    method EnterTitle(input: array<char>)
      requires Valid() && '\0' in input[..] && input != titleBuf && input != dateBuf
      modifies titleBuf, input
      ensures Valid()
      ensures Title() == Truncate(Entered(old(CStr(input[..]))), BufSize - 1)
      ensures dateBuf[..] == old(dateBuf[..])
    {
      CleanEntry(input);
      StoreCriterion(titleBuf, input);
    }

    /** Option 2 after its `fgets`: the line in `input` is cut at its end and
        trimmed; a non-empty text that is not a valid date is refused and leaves the
        date as it was, anything else becomes the date. */
    method EnterDate(input: array<char>) returns (stored: bool)
      requires Valid() && '\0' in input[..] && input != titleBuf && input != dateBuf
      modifies dateBuf, input
      ensures Valid()
      ensures stored <==> Entered(old(CStr(input[..]))) == [] || IsFullDate(Entered(old(CStr(input[..]))))
      ensures Date() == DateAfter(old(Date()), Entered(old(CStr(input[..]))))
      ensures !stored ==> dateBuf[..] == old(dateBuf[..])
      ensures titleBuf[..] == old(titleBuf[..])
    {
      CleanEntry(input);
      ghost var entry := CStr(input[..]);
      if input[0] != '\0' {
        var ok := ValidYmdFormat(input);
        if !ok {
          return false;
        }
      } else {
        assert entry == [];
      }
      StoreCriterion(dateBuf, input);
      return true;
    }

    /** Option 3 up to the sending: the request is zeroed and each criterion that is
        set goes in with its field name. */
    method BuildRequest() returns (req: Request)
      requires Valid()
      ensures Carries(req, Title(), Date())
      ensures Worker.TitleOf(req) == Trim(Title()) && Worker.UpdateOf(req) == Date()
    {
      var name1, value1, name2, value2 := "", "", "", "";
      if titleBuf[0] != '\0' {
        name1, value1 := TitleName, Truncate(CStr(titleBuf[..]), BufSize - 1);
      }
      if dateBuf[0] != '\0' {
        name2, value2 := UpdateDateName, Truncate(CStr(dateBuf[..]), BufSize - 1);
      }
      req := Request(name1, value1, name2, value2);
      TitleReachesWorker(req, Title(), Date());
      DateReachesWorker(req, Title(), Date());
    }

    /** One pass of the menu loop once the option number has been read: 1 and 2 edit
        their criterion from the line in `input`, 3 builds the request to send, 4
        ends the loop, and any other number changes nothing. */
    method Step(option: int, input: array<char>) returns (sent: Option<Request>, quit: bool)
      requires Valid() && '\0' in input[..] && input != titleBuf && input != dateBuf
      modifies titleBuf, dateBuf, input
      ensures Valid()
      ensures quit <==> option == 4
      ensures sent.Some? <==> option == 3
      ensures option == 1 ==> Title() == Truncate(Entered(old(CStr(input[..]))), BufSize - 1) && Date() == old(Date())
      ensures option == 2 ==> Title() == old(Title()) && Date() == DateAfter(old(Date()), Entered(old(CStr(input[..]))))
      ensures option != 1 && option != 2 ==> titleBuf[..] == old(titleBuf[..]) && dateBuf[..] == old(dateBuf[..])
      ensures sent.Some? ==> Carries(sent.value, Title(), Date())
    {
      sent, quit := None, false;
      if option == 1 {
        EnterTitle(input);
      } else if option == 2 {
        var _ := EnterDate(input);
      } else if option == 3 {
        var req := BuildRequest();
        sent := Some(req);
      } else if option == 4 {
        quit := true;
      }
    }
  }
}
