/** The string utilities of `com_util.js`: left and right padding, date
    formatting, thousands separators, the date and time validators, the
    own-bank test and account-number formatting. */
module ComUtil {
  import opened Optional
  import opened JsString
  import opened JsDate

  /* ------------------------------------------------------------------ */
  /* Padding                                                             */

  /** `fill` concatenated `n` times (nothing when `n <= 0`). */
  function Repeat(fill: string, n: int): (r: string)
    ensures n <= 0 ==> r == []
    ensures forall i :: 0 <= i < |r| ==> r[i] in fill
    ensures |fill| == 1 ==> |r| == (if n <= 0 then 0 else n) && forall i :: 0 <= i < |r| ==> r[i] == fill[0]
    ensures n > 0 ==> |r| == n * |fill|
    ensures forall i :: 0 <= i < |r| ==> r[i] == fill[i % |fill|]
    decreases if n <= 0 then 0 else n
  {
    if n <= 0 then []
    else
      var rest := Repeat(fill, n - 1);
      CopyThenRest(fill, rest, n);
      fill + rest
  }

  /** One more copy in front of `n - 1` copies makes `n` copies. */
  lemma CopyThenRest(fill: string, rest: string, n: int)
    requires n > 0 && |rest| == (n - 1) * |fill|
    requires forall i :: 0 <= i < |rest| ==> rest[i] == fill[i % |fill|]
    ensures |fill + rest| == n * |fill|
    ensures forall i :: 0 <= i < |fill + rest| ==> (fill + rest)[i] == fill[i % |fill|]
  {
    MulPred(n, |fill|);
    forall i | 0 <= i < |fill| + |rest| ensures (fill + rest)[i] == fill[i % |fill|] {
      if i < |fill| {
        ModUnique(i, |fill|, 0, i);
      } else {
        ShiftMod(i, |fill|);
        assert (fill + rest)[i] == rest[i - |fill|];
      }
    }
  }

  /** Multiplication distributes over the step from `n - 1` to `n`. */
  lemma MulPred(n: int, k: int)
    ensures (n - 1) * k + k == n * k
  {
  }

  /** Dropping one whole copy keeps the position within the copy. */
  lemma ShiftMod(i: int, k: int)
    requires 0 < k <= i
    ensures (i - k) % k == i % k
  {
    var q, m := (i - k) / k, (i - k) % k;
    assert i == (q + 1) * k + m;
    ModUnique(i, k, q + 1, m);
  }

  /** A quotient and remainder in range are the ones `/` and `%` give. */
  lemma ModUnique(a: int, k: int, q: int, m: int)
    requires 0 < k && 0 <= m < k && a == q * k + m
    ensures a % k == m
  {
    var q', m' := a / k, a % k;
    assert (q - q') * k == m' - m;
    if q > q' {
      MulAtLeast(q - q', k);
    } else if q < q' {
      MulAtLeast(q' - q, k);
    }
  }

  lemma MulAtLeast(x: int, k: int)
    requires x >= 1 && k > 0
    ensures x * k >= k
  {
  }

  /** `lpad(src, len, str)`: `str` is prepended once for every position `src`
      falls short of `len`; with a one-character filler the result is `len`
      long, with a longer one it overshoots. */
  function Lpad(src: string, len: int, fill: string): (r: string)
    ensures |src| >= len ==> r == src
    ensures |r| >= |src| && r[|r| - |src|..] == src
    ensures forall i :: 0 <= i < |r| - |src| ==> r[i] in fill
    ensures |fill| == 1 ==> |r| == (if len <= |src| then |src| else len)
    ensures |src| < len ==> |r| == |src| + (len - |src|) * |fill|
    ensures forall i :: 0 <= i < |r| - |src| ==> r[i] == fill[i % |fill|]
  {
    Repeat(fill, len - |src|) + src
  }

  /** `rpad(src, len, str)`: as `lpad`, but the filler goes after `src`. */
  function Rpad(src: string, len: int, fill: string): (r: string)
    ensures |src| >= len ==> r == src
    ensures |r| >= |src| && r[..|src|] == src
    ensures forall i :: |src| <= i < |r| ==> r[i] in fill
    ensures |fill| == 1 ==> |r| == (if len <= |src| then |src| else len)
    ensures |src| < len ==> |r| == |src| + (len - |src|) * |fill|
    ensures forall i :: |src| <= i < |r| ==> r[i] == fill[(i - |src|) % |fill|]
  {
    src + Repeat(fill, len - |src|)
  }

  /** With a one-character filler, `lpad` is the standard `padStart`. */
  lemma LpadIsPadStart(src: string, len: int, c: char)
    ensures Lpad(src, len, [c]) == PadStart(src, len, c)
  {
    var r := Lpad(src, len, [c]);
    var p := PadStart(src, len, c);
    assert |r| == |p|;
    forall i | 0 <= i < |r| ensures r[i] == p[i] {
      if i >= |r| - |src| {
        assert r[i] == src[i - (|r| - |src|)];
        assert p[i] == p[|p| - |src|..][i - (|p| - |src|)];
      }
    }
  }

  /* ------------------------------------------------------------------ */
  /* Date and time strings                                               */

  /** `date(dat)`: "mmdd" becomes "mm.dd", "yyyymm" becomes "yyyy.mm",
      "yyyymmdd" becomes "yyyy.mm.dd"; a falsy value or any other length is
      returned unchanged. */
  function DateText(dat: Option<string>): (r: Option<string>)
    ensures dat.None? ==> r.None?
    ensures dat.Some? ==> r.Some?
    ensures dat.Some? && |dat.value| !in {4, 6, 8} ==> r == dat
    ensures dat.Some? && |dat.value| == 4 ==> r.value == dat.value[..2] + "." + dat.value[2..]
    ensures dat.Some? && |dat.value| == 6 ==> r.value == dat.value[..4] + "." + dat.value[4..]
    ensures dat.Some? && |dat.value| == 8 ==>
      r.value == dat.value[..4] + "." + dat.value[4..6] + "." + dat.value[6..]
    ensures dat.Some? && |dat.value| in {4, 6, 8} ==>
      RemoveChar(r.value, '.') == RemoveChar(dat.value, '.')
      && |r.value| == |dat.value| + (if |dat.value| == 8 then 2 else 1)
  {
    match dat
    case None => None
    case Some(d) =>
      if |d| == 4 then
        DropInserted(d[..2], d[2..], '.');
        assert d[..2] + d[2..] == d;
        Some(d[..2] + "." + d[2..])
      else if |d| == 6 then
        DropInserted(d[..4], d[4..], '.');
        assert d[..4] + d[4..] == d;
        Some(d[..4] + "." + d[4..])
      else if |d| == 8 then
        DropInserted(d[..4] + "." + d[4..6], d[6..], '.');
        assert d[..4] + "." + d[4..6] + d[6..] == d[..4] + "." + d[4..];
        DropInserted(d[..4], d[4..], '.');
        assert d[..4] + d[4..] == d;
        Some(d[..4] + "." + d[4..6] + "." + d[6..])
      else dat
  }

  /** Removing every `c` also removes one inserted `c`. */
  lemma DropInserted(a: string, b: string, c: char)
    ensures RemoveChar(a + [c] + b, c) == RemoveChar(a + b, c)
  {
    RemoveCharConcat(a + [c], b, c);
    RemoveCharConcat(a, [c], c);
    RemoveCharConcat(a, b, c);
    assert RemoveChar([c], c) == [];
  }

  /** The text reads as a whole number from `lo` to `hi`. */
  predicate ReadsWithin(t: string, lo: int, hi: int) {
    ToNumber(t).Int? && lo <= ToNumber(t).v <= hi
  }

  /** `isValidMonth(mm)`: the number `mm` reads as lies in 1..12. */
  function IsValidMonth(mm: string): (ok: bool)
    ensures ok <==> ReadsWithin(mm, 1, 12)
  {
    match ToNumber(mm)
    case NaN => false
    case Int(m) => 1 <= m <= 12
  }

  /** `isValidDay(yyyy, mm, dd)`: `dd` is a day of month `mm` in year
      `yyyy`, by the table of month ends with February's end raised to 29 in
      a leap year. A month outside 1..12 has no entry in the table, so no
      day is valid in it; a year that does not read as a number fails every
      leap test and counts as a common year (1970 stands in for it). */
  function IsValidDay(yyyy: string, mm: string, dd: string): (ok: bool)
    ensures var m, d := ToNumber(mm), ToNumber(dd);
      ok <==> m.Int? && d.Int? && 1 <= m.v <= 12 && Valid(Date(YearOr1970(yyyy), m.v - 1, d.v))
  {
    var m, d := ToNumber(mm), ToNumber(dd);
    m.Int? && d.Int? && 1 <= m.v <= 12 && 1 <= d.v <= DaysInMonth(YearOr1970(yyyy), m.v - 1)
  }

  /** The year `isValidDay` reads its leap tests from. */
  function YearOr1970(yyyy: string): int {
    match ToNumber(yyyy) case NaN => 1970 case Int(v) => v
  }

  /** The day validator agrees with the calendar: for a numeric year,
      month and day it accepts exactly the dates that exist. */
  lemma IsValidDayMeansRealDate(yyyy: string, mm: string, dd: string)
    requires ToNumber(yyyy).Int? && ToNumber(mm).Int? && ToNumber(dd).Int?
    ensures IsValidDay(yyyy, mm, dd) <==>
      Valid(Date(ToNumber(yyyy).v, ToNumber(mm).v - 1, ToNumber(dd).v))
  {
  }

  /** `isValidDate(strDate)`: "yyyymmdd" naming an existing day, or "yyyymm"
      naming a month, from the year 1900 on; any other length is invalid. */
  function IsValidDate(s: string): (ok: bool)
    ensures ok ==> (|s| == 6 || |s| == 8) && ReadsWithin(s[4..6], 1, 12)
    ensures |s| == 6 ==> (ok <==> YearFrom1900(s[..4]) && IsValidMonth(s[4..6]))
    ensures |s| == 8 ==> (ok <==> YearFrom1900(s[..4]) && IsValidDay(s[..4], s[4..6], s[6..]))
  {
    if |s| == 8 then
      YearFrom1900(s[..4]) && IsValidMonth(s[4..6]) && IsValidDay(s[..4], s[4..6], s[6..])
    else if |s| == 6 then
      YearFrom1900(s[..4]) && IsValidMonth(s[4..6])
    else false
  }

  predicate YearFrom1900(yyyy: string) {
    match ToNumber(yyyy)
    case NaN => false
    case Int(y) => y >= 1900
  }

  /** For eight digits, `isValidDate` accepts exactly the existing dates
      from 1900 on. */
  lemma IsValidDateDigits(s: string)
    requires |s| == 8 && AllDigits(s)
    ensures IsValidDate(s) <==>
      DigitsValue(s[..4]) >= 1900
      && Valid(Date(DigitsValue(s[..4]), DigitsValue(s[4..6]) - 1, DigitsValue(s[6..])))
  {
    DateFields(s);
    YearDigits(s[..4]);
    MonthDigits(s[4..6]);
    DayDigits(s[..4], s[4..6], s[6..]);
    assert IsValidDate(s) <==> YearFrom1900(s[..4]) && IsValidMonth(s[4..6]) && IsValidDay(s[..4], s[4..6], s[6..]);
  }

  /** For digit strings, the day validator accepts exactly the existing
      dates. */
  lemma DayDigits(y: string, m: string, d: string)
    requires AllDigits(y) && AllDigits(m) && AllDigits(d) && y != [] && m != [] && d != []
    ensures IsValidDay(y, m, d) <==> Valid(Date(DigitsValue(y), DigitsValue(m) - 1, DigitsValue(d)))
  {
    DigitsNumber(y);
    DigitsNumber(m);
    DigitsNumber(d);
    DayNumbers(y, m, d, DigitsValue(y), DigitsValue(m), DigitsValue(d));
  }

  lemma DigitsNumber(t: string)
    requires AllDigits(t) && t != []
    ensures ToNumber(t) == Int(DigitsValue(t))
  {
  }

  /** The day validator in terms of the three numbers its fields read as. */
  lemma DayNumbers(y: string, m: string, d: string, yv: int, mv: int, dv: int)
    requires ToNumber(y) == Int(yv) && ToNumber(m) == Int(mv) && ToNumber(d) == Int(dv)
    ensures IsValidDay(y, m, d) <==> Valid(Date(yv, mv - 1, dv))
  {
  }

  /** The year, month and day fields of eight digits. */
  lemma DateFields(s: string)
    requires |s| == 8 && AllDigits(s)
    ensures AllDigits(s[..4]) && AllDigits(s[4..6]) && AllDigits(s[6..])
  {
    SliceDigits(s, 0, 4);
    SliceDigits(s, 4, 6);
    SliceDigits(s, 6, 8);
    assert s[0..4] == s[..4] && s[6..8] == s[6..];
  }

  lemma YearDigits(y: string)
    requires AllDigits(y) && y != []
    ensures YearFrom1900(y) <==> DigitsValue(y) >= 1900
  {
  }

  lemma MonthDigits(m: string)
    requires AllDigits(m) && m != []
    ensures IsValidMonth(m) <==> 1 <= DigitsValue(m) <= 12
  {
  }

  /** `isValidHour(hh)`: the number `hh` reads as lies in 0..23. */
  function IsValidHour(hh: string): (ok: bool)
    ensures ok <==> ReadsWithin(hh, 0, 23)
  {
    match ToNumber(hh)
    case NaN => false
    case Int(h) => 0 <= h <= 23
  }

  /** `isValidMin(mi)`: the number `mi` reads as lies in 0..59. */
  function IsValidMin(mi: string): (ok: bool)
    ensures ok <==> ReadsWithin(mi, 0, 59)
  {
    match ToNumber(mi)
    case NaN => false
    case Int(m) => 0 <= m <= 59
  }

  /** `isValidTime(hh24miss)`: hour, minute and second, two characters
      each. */
  function IsValidTime(s: string): (ok: bool)
    ensures ok <==> (ReadsWithin(Substring(s, 0, 2), 0, 23)
      && ReadsWithin(Substring(s, 2, 4), 0, 59) && ReadsWithin(Substring(s, 4, 6), 0, 59))
  {
    IsValidHour(Substring(s, 0, 2)) && IsValidMin(Substring(s, 2, 4)) && IsValidMin(Substring(s, 4, 6))
  }

  /** For six digits, `isValidTime` accepts exactly the times of a day. */
  lemma IsValidTimeDigits(s: string)
    requires |s| == 6 && AllDigits(s)
    ensures IsValidTime(s) <==>
      DigitsValue(s[..2]) < 24 && DigitsValue(s[2..4]) < 60 && DigitsValue(s[4..]) < 60
  {
    TimeFields(s);
    HourDigits(s[..2]);
    MinDigits(s[2..4]);
    MinDigits(s[4..]);
  }

  /** The three two-character fields of six digits. */
  lemma TimeFields(s: string)
    requires |s| == 6 && AllDigits(s)
    ensures Substring(s, 0, 2) == s[..2] && Substring(s, 2, 4) == s[2..4] && Substring(s, 4, 6) == s[4..]
    ensures AllDigits(s[..2]) && AllDigits(s[2..4]) && AllDigits(s[4..])
  {
    SliceDigits(s, 0, 2);
    SliceDigits(s, 2, 4);
    SliceDigits(s, 4, 6);
    assert s[0..2] == s[..2] && s[4..6] == s[4..];
  }

  lemma HourDigits(h: string)
    requires AllDigits(h) && h != []
    ensures IsValidHour(h) <==> DigitsValue(h) < 24
  {
  }

  lemma MinDigits(m: string)
    requires AllDigits(m) && m != []
    ensures IsValidMin(m) <==> DigitsValue(m) < 60
  {
  }

  /** Missing parts read as zero, so the empty string passes as midnight. */
  lemma IsValidTimeEmpty()
    ensures IsValidTime("")
    ensures IsValidTime("1230")
  {
    assert Substring("", 0, 2) == "";
    var s := "1230";
    assert Substring(s, 0, 2) == "12" && Substring(s, 2, 4) == "30" && Substring(s, 4, 6) == "";
    assert DigitsValue("12") == 12 by { assert "12"[..1] == "1"; }
    assert DigitsValue("30") == 30 by { assert "30"[..1] == "3"; }
  }

  /* ------------------------------------------------------------------ */
  /* Thousands separators                                                */

  /** An unsigned digit string with a comma before every group of three
      digits counted from the right. */
  function GroupThousands(a: string): (r: string)
    ensures |a| <= 3 ==> r == a
    decreases |a|
  {
    if |a| <= 3 then a else GroupThousands(a[..|a| - 3]) + "," + a[|a| - 3..]
  }

  /** One comma per complete group of three digits beyond the first. */
  lemma {:induction false} GroupThousandsLength(a: string)
    ensures |GroupThousands(a)| == |a| + (if |a| == 0 then 0 else (|a| - 1) / 3)
    decreases |a|
  {
    if |a| > 3 {
      GroupThousandsLength(a[..|a| - 3]);
    }
  }

  /** Removing the commas of a grouped number gives the number back. */
  lemma {:induction false} GroupThousandsStrip(a: string)
    requires forall i :: 0 <= i < |a| ==> a[i] != ','
    ensures RemoveChar(GroupThousands(a), ',') == a
    decreases |a|
  {
    if |a| > 3 {
      var h := a[..|a| - 3];
      var t := a[|a| - 3..];
      GroupThousandsStrip(h);
      StripSeparated(GroupThousands(h), t);
      assert h + t == a;
    }
  }

  /** Removing the commas of `x + "," + t` where `t` has none. */
  lemma StripSeparated(x: string, t: string)
    requires forall i :: 0 <= i < |t| ==> t[i] != ','
    ensures RemoveChar(x + "," + t, ',') == RemoveChar(x, ',') + t
  {
    var comma: string := ",";
    assert RemoveChar(comma, ',') == [] by {
      assert comma[1..] == [];
    }
    RemoveCharConcat(x, comma, ',');
    assert RemoveChar(x + comma, ',') == RemoveChar(x, ',');
    RemoveCharConcat(x + comma, t, ',');
    assert RemoveChar(t, ',') == t;
  }

  /** The digit grouping as `addComma` performs it: the leading `|a| % 3`
      digits, then a comma before every third digit of the rest. The loop
      produces the grouping defined by `GroupThousands`. */
  method GroupDigits(a: string) returns (r: string)
    ensures r == GroupThousands(a)
  {
    if |a| <= 3 {
      return a;
    }
    var lead := |a| % 3;
    var str1 := a[..lead];
    r := if |str1| != 0 then str1 + "," else str1;
    GroupInit(a, lead);
    ghost var j, p;
    r, j, p := GroupLoop(a, lead, r);
    GroupEnd(|a|, lead, j, p);
    GroupFinish(a, lead, j);
  }

  /** Before the loop: the leading digits and their comma, if any. */
  /** The loop of `GroupDigits` over the digits after the `lead` leading
      ones: a comma before every third of them, none before the first. */
  method GroupLoop(a: string, lead: nat, r0: string) returns (r: string, ghost j: nat, ghost p: nat)
    requires lead < 3 && lead <= |a| && r0 == GroupedSoFar(a, lead, 0, 0)
    ensures 3 * j + p == |a| - lead && p < 3
    ensures r == GroupedSoFar(a, lead, j, p)
  {
    var str2 := a[lead..];
    r := r0;
    var i := 0;
    j, p := 0, 0;
    while i < |str2|
      invariant 0 <= i <= |str2| && i == 3 * j + p && p < 3
      invariant r == GroupedSoFar(a, lead, j, p)
    {
      var sep := if i % 3 == 0 && i != 0 then "," else "";
      GroupStart(i, j, p);
      ghost var j', p' := if p < 2 then j else j + 1, if p < 2 then p + 1 else 0;
      GroupIteration(a, lead, j, p, sep, j', p');
      assert str2[i] == a[lead + 3 * j + p];
      r := r + sep + [str2[i]];
      i := i + 1;
      j, p := j', p';
    }
  }

  lemma GroupInit(a: string, lead: nat)
    requires lead < 3 && lead <= |a|
    ensures (if lead != 0 then a[..lead] + "," else a[..lead]) == GroupedSoFar(a, lead, 0, 0)
  {
  }

  /** One pass of the grouping loop appends the next digit, after a comma
      when it opens a group. */
  lemma GroupIteration(a: string, lead: nat, j: nat, p: nat, sep: string, j': nat, p': nat)
    requires lead < 3 && p < 3 && lead + 3 * j + p < |a|
    requires sep == if p == 0 && j != 0 then "," else ""
    requires j' == (if p < 2 then j else j + 1) && p' == (if p < 2 then p + 1 else 0)
    ensures GroupedSoFar(a, lead, j, p) + sep + [a[lead + 3 * j + p]] == GroupedSoFar(a, lead, j', p')
  {
    if p == 0 {
      GroupStepOpen(a, lead, j);
    } else {
      EmptyThen(GroupedSoFar(a, lead, j, p), sep, [a[lead + 3 * j + p]]);
      if p == 1 {
        GroupStepMiddle(a, lead, j);
      } else {
        GroupStepClose(a, lead, j);
      }
    }
  }

  lemma EmptyThen(x: string, sep: string, c: string)
    requires sep == ""
    ensures x + sep + c == x + c
  {
  }

  /** The loop stops at the end of a complete group. */
  lemma GroupEnd(n: nat, lead: nat, j: nat, p: nat)
    requires n > 3 && lead == n % 3 && 3 * j + p == n - lead && p < 3
    ensures p == 0 && j > 0 && lead + 3 * j == n
  {
    ThreeSplit(n / 3, lead);
    ThreeSplit(j, p);
  }

  /** After the last group the text is the grouped whole. */
  lemma GroupFinish(a: string, lead: nat, j: nat)
    requires j > 0 && lead < 3 && lead + 3 * j == |a|
    ensures GroupedSoFar(a, lead, j, 0) == GroupThousands(a)
  {
    GroupedPrefixIsGroup(a, |a|);
    GroupedPrefixWhole(a);
  }

  lemma GroupedPrefixWhole(a: string)
    ensures GroupedPrefix(a, |a|) == GroupThousands(a[..|a|]) ==> GroupedPrefix(a, |a|) == GroupThousands(a)
  {
    assert a[..|a|] == a;
  }

  /** The loop's `i % 3 == 0` test marks the start of a group after the first. */
  lemma GroupStart(i: nat, j: nat, p: nat)
    requires p < 3 && i == 3 * j + p
    ensures (i % 3 == 0 && i != 0) <==> (p == 0 && j != 0)
  {
    ThreeSplit(j, p);
  }

  lemma ThreeSplit(j: nat, p: nat)
    requires p < 3
    ensures (3 * j + p) % 3 == p && (3 * j + p) / 3 == j
  {
  }

  /** `GroupThousands` of the first `n` characters of `a`. */
  function GroupedPrefix(a: string, n: nat): string
    requires n <= |a|
  {
    if n <= 3 then a[..n] else GroupedPrefix(a, n - 3) + "," + a[n - 3..n]
  }

  lemma {:induction false} GroupedPrefixIsGroup(a: string, n: nat)
    requires n <= |a|
    ensures GroupedPrefix(a, n) == GroupThousands(a[..n])
  {
    if n > 3 {
      GroupedPrefixIsGroup(a, n - 3);
      assert a[..n][..n - 3] == a[..n - 3];
      assert a[..n][n - 3..] == a[n - 3..n];
    }
  }

  /** What the grouping loop has produced after `3 * j + p` digits of the
      part that follows the `lead` leading digits. */
  function GroupedSoFar(a: string, lead: nat, j: nat, p: nat): string
    requires lead + 3 * j + p <= |a| && p < 3
  {
    var n := lead + 3 * j;
    if p == 0 then (if n == 0 then [] else if j == 0 then a[..lead] + "," else GroupedPrefix(a, n))
    else (if n > 0 then GroupedPrefix(a, n) + "," else []) + a[n..n + p]
  }

  /** The second digit of a group. */
  lemma GroupStepMiddle(a: string, lead: nat, j: nat)
    requires lead < 3 && lead + 3 * j + 1 < |a|
    ensures GroupedSoFar(a, lead, j, 1) + [a[lead + 3 * j + 1]] == GroupedSoFar(a, lead, j, 2)
  {
    var n := lead + 3 * j;
    assert a[n..n + 1] + [a[n + 1]] == a[n..n + 2];
  }

  /** The first digit of a group. */
  lemma GroupStepOpen(a: string, lead: nat, j: nat)
    requires lead < 3 && lead + 3 * j < |a|
    ensures GroupedSoFar(a, lead, j, 0) + (if j != 0 then "," else []) + [a[lead + 3 * j]]
      == GroupedSoFar(a, lead, j, 1)
  {
    var n := lead + 3 * j;
    assert [a[n]] == a[n..n + 1];
    if j == 0 && lead > 0 {
      assert GroupedPrefix(a, lead) == a[..lead];
    }
  }

  /** The last digit of a group. */
  lemma GroupStepClose(a: string, lead: nat, j: nat)
    requires lead < 3 && lead + 3 * j + 2 < |a|
    ensures GroupedSoFar(a, lead, j, 2) + [a[lead + 3 * j + 2]] == GroupedSoFar(a, lead, j + 1, 0)
  {
    var n := lead + 3 * j;
    assert a[n..n + 2] + [a[n + 2]] == a[n..n + 3];
    if n == 0 {
      assert GroupedPrefix(a, 3) == a[..3];
    } else {
      assert GroupedPrefix(a, n + 3) == GroupedPrefix(a, n) + "," + a[n..n + 3];
    }
  }

  /** The position of the last `c` in `s`. */
  function LastIndexOfChar(s: string, c: char): (r: Option<nat>)
    ensures r.Some? ==> r.value < |s| && s[r.value] == c
    ensures r.Some? ==> forall k :: r.value < k < |s| ==> s[k] != c
    ensures r.None? ==> forall k :: 0 <= k < |s| ==> s[k] != c
  {
    if |s| == 0 then None
    else if s[|s| - 1] == c then Some(|s| - 1)
    else LastIndexOfChar(s[..|s| - 1], c)
  }

  /** The three parts `addComma` splits its comma-free input into: the
      minus sign, the integer digits, and the fraction from the last '.'. */
  datatype Amount = Amount(negative: bool, digits: string, fraction: string)

  function SplitAmount(s: string): (a: Amount)
    ensures (if a.negative then "-" else "") + a.digits + a.fraction == s
  {
    var pos := LastIndexOfChar(s, '.');
    var whole := if pos.Some? then s[..pos.value] else s;
    var fraction := if pos.Some? then s[pos.value..] else "";
    assert whole + fraction == s;
    if |whole| > 0 && whole[0] == '-' then
      assert "-" + whole[1..] == whole;
      Amount(true, whole[1..], fraction)
    else Amount(false, whole, fraction)
  }

  /** `addComma(num)`: existing commas are dropped, then commas are put
      between the thousands of the integer part; a minus sign and the part
      from the last '.' on are kept. Dropping the commas of the result gives
      the input without commas: only commas are added, and they only between
      digit groups; see also `AddCommaIdempotent` and `AddCommaLength`. */
  function AddComma(num: string): (r: string)
    ensures RemoveChar(r, ',') == RemoveChar(num, ',')
  {
    var a := SplitAmount(RemoveChar(num, ','));
    var sign: string := if a.negative then "-" else "";
    PartsFree(sign, a.digits, a.fraction, ',');
    GroupThousandsStrip(a.digits);
    RemoveChar3(sign, GroupThousands(a.digits), a.fraction, ',');
    sign + GroupThousands(a.digits) + a.fraction
  }

  lemma RemoveChar3(x: string, y: string, z: string, c: char)
    ensures RemoveChar(x + y + z, c) == RemoveChar(x, c) + RemoveChar(y, c) + RemoveChar(z, c)
  {
    RemoveCharConcat(x + y, z, c);
    RemoveCharConcat(x, y, c);
  }

  /** The parts of a string without `c` have no `c` either. */
  lemma PartsFree(x: string, y: string, z: string, c: char)
    requires forall i :: 0 <= i < |x + y + z| ==> (x + y + z)[i] != c
    ensures RemoveChar(x, c) == x && RemoveChar(z, c) == z
    ensures forall i :: 0 <= i < |y| ==> y[i] != c
  {
    var s := x + y + z;
    assert forall i :: 0 <= i < |x| ==> x[i] == s[i];
    assert forall i :: 0 <= i < |y| ==> y[i] == s[|x| + i];
    assert forall i :: 0 <= i < |z| ==> z[i] == s[|x| + |y| + i];
  }

  /** Formatting an already formatted amount changes nothing. */
  lemma AddCommaIdempotent(num: string)
    ensures AddComma(AddComma(num)) == AddComma(num)
  {
  }

  /** The grouped integer part holds one comma per complete group of three
      digits beyond the first. */
  lemma AddCommaLength(num: string)
    ensures |AddComma(num)| == |RemoveChar(num, ',')| +
      (if |SplitAmount(RemoveChar(num, ',')).digits| == 0 then 0
       else (|SplitAmount(RemoveChar(num, ',')).digits| - 1) / 3)
  {
    GroupThousandsLength(SplitAmount(RemoveChar(num, ',')).digits);
  }

  /* ------------------------------------------------------------------ */
  /* Bank accounts                                                       */

  /** `getJbBankYn(bankcd)`: whether the bank code is Jeonbuk Bank's, "037"
      or "37". */
  function GetJbBankYn(bankcd: string): (yes: bool)
    ensures yes ==> 2 <= |bankcd| <= 3 && bankcd[|bankcd| - 2..] == "37"
    ensures yes <==> bankcd in {"037", "37"}
  {
    bankcd == "037" || bankcd == "37"
  }

  /** The layout argument: anything that is not a string (an array, a
      number, null) is discarded, and so is the empty string. */
  datatype Layout = NotText | LayoutText(text: string)

  predicate UsesDefaultLayout(arg: Layout) {
    arg.NotText? || arg.text == ""
  }

  /** A bank code of three characters other than "037" marks another
      bank's account. */
  function OtherBank(bankcd: Option<string>): (other: bool)
    ensures other <==> bankcd.Some? && |bankcd.value| == 3 && bankcd.value != "037"
  {
    bankcd.Some? && |bankcd.value| == 3 && !GetJbBankYn(bankcd.value)
  }

  /** Of the own-bank codes only "037" has three characters, so every other
      three-character code is another bank's; "37" is own-bank but is never
      looked at, and "004" is another bank's. */
  lemma OtherBankCodes(c: string)
    ensures OtherBank(Some(c)) <==> |c| == 3 && c != "037"
    ensures GetJbBankYn("037") && GetJbBankYn("37") && !GetJbBankYn("004")
    ensures !OtherBank(Some("37")) && !OtherBank(None) && OtherBank(Some("004"))
  {
  }

  /** `account`'s mask: the three characters before the last one become
      "***". */
  function MaskTail(s: string): (r: string)
    ensures |s| >= 4 ==>
      (|r| == |s| && r[..|s| - 4] == s[..|s| - 4] && r[|s| - 4..|s| - 1] == "***" && r[|s| - 1] == s[|s| - 1])
  {
    Substring(s, 0, |s| - 4) + "***" + SubstringFrom(s, |s| - 1)
  }

  predicate AllZero(s: string) {
    forall i :: 0 <= i < |s| ==> s[i] == '0'
  }

  /** The default account layout. Sixteen characters are a new-style
      account ("000" + 4-2-7 or "0000" + 3-2-7) or otherwise a card number,
      shown with its middle eight digits hidden; twelve are 3-2-7 and
      thirteen 4-2-7. Other lengths lose a leading "000" or "0000" only;
      when `keepConvenient` holds, a "convenient account" (9 to 11
      characters starting with '0') is kept whole. */
  function DefaultLayout(d: string, keepConvenient: bool): (r: string)
    ensures |d| == 16 && d[..3] != "000" ==>
      |r| == 19 && r[..4] == d[..4] && r[4..15] == "-****-****-" && r[15..] == d[12..]
    ensures !(|d| == 16 && d[..3] != "000") ==>
      exists k :: 0 <= k <= 4 && k <= |d| && AllZero(d[..k]) && StripHyphens(r) == RemoveChar(d[k..], '-')
    ensures |d| == 16 && d[..3] == "000" && d[3] != '0' ==> r == d[3..7] + "-" + d[7..9] + "-" + d[9..]
    ensures |d| == 16 && d[..4] == "0000" ==> r == d[4..7] + "-" + d[7..9] + "-" + d[9..]
    ensures |d| == 12 ==> r == d[..3] + "-" + d[3..5] + "-" + d[5..]
    ensures |d| == 13 ==> r == d[..4] + "-" + d[4..6] + "-" + d[6..]
    ensures |d| != 12 && |d| != 13 && |d| != 16 ==>
      if keepConvenient && 9 <= |d| <= 11 && d[0] == '0' then r == d
      else if |d| >= 4 && d[..4] == "0000" then r == d[4..]
      else if |d| >= 3 && d[..3] == "000" then r == d[3..]
      else r == d
  {
    if |d| == 16 then SixteenLayout(d)
    else if |d| == 12 then
      assert AllZero(d[..0]) && d[0..] == d;
      HyphenThree(d, 0, 3, 5)
    else if |d| == 13 then
      assert AllZero(d[..0]) && d[0..] == d;
      HyphenThree(d, 0, 4, 6)
    else OtherLengthLayout(d, keepConvenient)
  }

  /** `d[a..b]-d[b..c]-d[c..]`, which loses only its two hyphens. */
  function HyphenThree(d: string, a: nat, b: nat, c: nat): (r: string)
    requires a <= b <= c <= |d|
    ensures r == d[a..b] + "-" + d[b..c] + "-" + d[c..]
    ensures StripHyphens(r) == RemoveChar(d[a..], '-')
  {
    ThreePieces(d, a, b, c, |d|);
    assert d[c..|d|] == d[c..];
    d[a..b] + "-" + d[b..c] + "-" + d[c..]
  }

  /** The sixteen-character branch of the default layout. */
  function SixteenLayout(d: string): (r: string)
    requires |d| == 16
    ensures d[..3] != "000" ==>
      |r| == 19 && r[..4] == d[..4] && r[4..15] == "-****-****-" && r[15..] == d[12..]
    ensures d[..3] == "000" && d[3] != '0' ==> r == d[3..7] + "-" + d[7..9] + "-" + d[9..]
    ensures d[..4] == "0000" ==> r == d[4..7] + "-" + d[7..9] + "-" + d[9..]
    ensures d[..3] == "000" ==>
      exists k :: 0 <= k <= 4 && AllZero(d[..k]) && StripHyphens(r) == RemoveChar(d[k..], '-')
  {
    if d[..3] == "000" then
      if d[3] != '0' then
        assert AllZero(d[..3]);
        HyphenThree(d, 3, 7, 9)
      else
        assert AllZero(d[..4]);
        HyphenThree(d, 4, 7, 9)
    else d[..4] + "-****-****-" + d[12..16]
  }

  /** The default layout of lengths other than 12, 13 and 16: no hyphens,
      a kept convenient number unchanged, otherwise a leading "0000" or
      "000" dropped. */
  function OtherLengthLayout(d: string, keepConvenient: bool): (r: string)
    ensures if keepConvenient && 9 <= |d| <= 11 && d[0] == '0' then r == d
      else if |d| >= 4 && d[..4] == "0000" then r == d[4..]
      else if |d| >= 3 && d[..3] == "000" then r == d[3..]
      else r == d
    ensures exists k :: 0 <= k <= 4 && k <= |d| && AllZero(d[..k]) && StripHyphens(r) == RemoveChar(d[k..], '-')
  {
    if keepConvenient && |d| >= 1 && d[0] == '0' && 9 <= |d| <= 11 then
      assert AllZero(d[..0]) && d[0..] == d;
      d
    else if |d| >= 3 && d[..3] == "000" then
      if |d| >= 4 && d[..4] == "0000" then
        assert AllZero(d[..4]);
        d[4..]
      else
        assert AllZero(d[..3]);
        d[3..]
    else
      assert AllZero(d[..0]) && d[0..] == d;
      d
  }

  function StripHyphens(s: string): string {
    RemoveChar(s, '-')
  }

  /** Three slices joined by hyphens lose exactly those hyphens. */
  lemma ThreePieces(d: string, a: int, b: int, c: int, e: int)
    requires 0 <= a <= b <= c <= e == |d|
    ensures StripHyphens(d[a..b] + "-" + d[b..c] + "-" + d[c..e]) == RemoveChar(d[a..], '-')
  {
    DropInserted(d[a..b] + "-" + d[b..c], d[c..e], '-');
    assert d[a..b] + "-" + d[b..c] + d[c..e] == d[a..b] + "-" + d[b..e];
    DropInserted(d[a..b], d[b..e], '-');
    assert d[a..b] + d[b..e] == d[a..];
  }

  /** The position `account` reads the `k`-th piece from. The running index
      starts as the number 0 and `+=` appends each layout character to it as
      text, so after `k` characters it is the string "0" followed by them,
      which `substr` reads as a number (zero when it is not one). */
  function StartAt(arg: string, k: nat): int
    requires k <= |arg|
  {
    if k == 0 then 0 else IntOrZero(ToNumber("0" + arg[..k]))
  }

  /** The width one layout character asks for: its digit, or zero. */
  function WidthOf(c: char): (w: int)
    ensures IsDigit(c) ==> w == DigitValue(c)
    ensures !IsDigit(c) ==> w == 0
  {
    SingleCharNumber(c);
    IntOrZero(ToNumber([c]))
  }

  lemma SingleCharNumber(c: char)
    ensures IsDigit(c) ==> ToNumber([c]) == Int(DigitValue(c))
    ensures !IsDigit(c) ==> IntOrZero(ToNumber([c])) == 0
  {
    var t := [c];
    assert t[0] == c;
    if IsDigit(c) {
      assert AllDigits(t) && t[..0] == [];
      assert DigitsValue(t) == DigitValue(c);
    } else if IsJsSpace(c) {
      assert AllSpace(t);
    } else {
      assert TrimStart(t) == t;
      assert TrimEnd(t) == t;
      assert !AllDigits(t);
    }
  }

  /** A slice of a string of digits is a string of digits. */
  lemma SliceDigits(d: string, a: nat, b: nat)
    requires a <= b <= |d|
    ensures AllDigits(d) ==> AllDigits(d[a..b])
  {
    assert forall i :: 0 <= i < b - a ==> d[a..b][i] == d[a + i];
  }

  /** The piece the layout loop cuts at step `k`: `substr(startIdx, width)`
      for a layout character, and `substr(startIdx)` after the last one. */
  function Piece(d: string, arg: string, k: nat): (p: string)
    requires k <= |arg|
    ensures AllDigits(d) ==> AllDigits(p)
  {
    var st := SubstrStart(|d|, StartAt(arg, k));
    if k == |arg| then
      SliceDigits(d, st, |d|);
      SubstrFrom(d, StartAt(arg, k))
    else
      var l := Clamp(WidthOf(arg[k]), 0, |d| - st);
      SliceDigits(d, st, st + l);
      Substr(d, StartAt(arg, k), WidthOf(arg[k]))
  }

  predicate AllDigitPieces(ps: seq<string>) {
    forall i :: 0 <= i < |ps| ==> AllDigits(ps[i])
  }

  /** Putting a non-empty piece in front keeps the pieces non-empty, and
      digit pieces in front of digit pieces are digit pieces. */
  lemma ConsPieces(p: string, rest: seq<string>, ps: seq<string>)
    requires ps == if p == [] then rest else [p] + rest
    ensures NonEmptyPieces(rest) ==> NonEmptyPieces(ps)
    ensures AllDigits(p) && AllDigitPieces(rest) ==> AllDigitPieces(ps)
  {
    if p != [] {
      forall i | 0 < i < |ps| ensures ps[i] == rest[i - 1] {}
    }
  }

  /** The non-empty pieces the layout loop collects from position `k` on,
      followed by the rest of the digits. */
  function TextPieces(d: string, arg: string, k: nat): (ps: seq<string>)
    requires k <= |arg|
    ensures NonEmptyPieces(ps)
    ensures AllDigits(d) ==> AllDigitPieces(ps)
    decreases |arg| - k
  {
    var p := Piece(d, arg, k);
    var rest := if k == |arg| then [] else TextPieces(d, arg, k + 1);
    var ps := if p == [] then rest else [p] + rest;
    ConsPieces(p, rest, ps);
    ps
  }

  /** `account(dat, arg, bankcd, isMask)` as written in `com_util.js`:
      another bank's account is returned as is, or with its tail masked when
      `isMask` is the boolean true; without a text layout the default layout
      applies (masked likewise); with a text layout the digits are cut into
      the pieces the layout loop collects and joined with hyphens, and the
      mask flag is ignored. */
  function Account(dat: Option<string>, arg: Layout, bankcd: Option<string>, isMask: Option<bool>): (r: Option<string>)
    ensures dat.None? || dat == Some("") ==> r == dat
    ensures dat.Some? && dat.value != "" ==> r.Some?
    ensures dat.Some? && dat.value != "" && OtherBank(bankcd) && isMask != Some(true) ==> r == dat
    ensures dat.Some? && |dat.value| >= 4 && OtherBank(bankcd) && isMask == Some(true) ==>
      |r.value| == |dat.value| && r.value[|dat.value| - 4..|dat.value| - 1] == "***"
    ensures dat.Some? && dat.value != "" && !OtherBank(bankcd) && !UsesDefaultLayout(arg) ==>
      forall i :: 0 <= i < |r.value| ==> IsDigit(r.value[i]) || r.value[i] == '-'
  {
    match dat
    case None => dat
    case Some(d) =>
      if d == "" then dat
      else if OtherBank(bankcd) then
        if isMask == Some(true) then Some(MaskTail(d)) else dat
      else if UsesDefaultLayout(arg) then
        var str := DefaultLayout(d, true);
        if isMask == Some(true) then Some(MaskTail(str)) else Some(str)
      else Some(TextLayout(d, arg.text))
  }

  /** The text-layout branch shared by `account` and `accountMask`: the
      digits of `d` are cut into the pieces the layout loop collects and
      joined with hyphens. */
  function TextLayout(d: string, text: string): (r: string)
    ensures forall i :: 0 <= i < |r| ==> IsDigit(r[i]) || r[i] == '-'
  {
    var ps := TextPieces(KeepDigits(d), text, 0);
    JoinDigitsHyphens(ps);
    Join(ps, "-")
  }

  lemma {:induction false} JoinDigitsHyphens(ps: seq<string>)
    requires AllDigitPieces(ps)
    ensures forall i :: 0 <= i < |Join(ps, "-")| ==> IsDigit(Join(ps, "-")[i]) || Join(ps, "-")[i] == '-'
  {
    if |ps| > 1 {
      JoinDigitsHyphens(ps[1..]);
      var j := Join(ps, "-");
      assert j == ps[0] + "-" + Join(ps[1..], "-");
      forall i | 0 <= i < |j| ensures IsDigit(j[i]) || j[i] == '-' {
        if i < |ps[0]| {
          assert j[i] == ps[0][i];
        } else if i > |ps[0]| {
          assert j[i] == Join(ps[1..], "-")[i - |ps[0]| - 1];
        }
      }
    } else if |ps| == 1 {
      assert AllDigits(ps[0]);
    }
  }

  /** Own-bank accounts in the default layout keep their digits: stripped of
      hyphens, the result is the input without some leading zeros (card
      numbers, which are masked, aside). */
  lemma AccountDefaultKeepsDigits(d: string)
    requires d != "" && !(|d| == 16 && d[..3] != "000")
    ensures exists k :: (0 <= k <= 4 && k <= |d| && AllZero(d[..k])
                         && StripHyphens(Account(Some(d), NotText, None, None).value) == RemoveChar(d[k..], '-'))
  {
    assert Account(Some(d), NotText, None, None) == Some(DefaultLayout(d, true));
  }

  /** The layout in an array, as documented, is not a string and is
      discarded: a convenient account such as "0123456789" comes back
      unformatted whatever widths were asked for. */
  lemma AccountArrayLayoutIgnored(d: string)
    requires 9 <= |d| <= 11 && d[0] == '0'
    ensures Account(Some(d), NotText, None, None) == Some(d)
  {
    assert DefaultLayout(d, true) == d;
  }

  lemma LayoutStart1()
    ensures StartAt("334", 1) == 3
  {
    assert "0" + "334"[..1] == "03";
    assert DigitsValue("03") == 3 by { assert "03"[..1] == "0"; }
    TrimDigits("03");
  }

  lemma LayoutStart2()
    ensures StartAt("334", 2) == 33
  {
    assert "0" + "334"[..2] == "033";
    assert DigitsValue("033") == 33 by { assert "033"[..2] == "03"; assert "03"[..1] == "0"; }
    TrimDigits("033");
  }

  lemma LayoutStart3()
    ensures StartAt("334", 3) == 334
  {
    assert "0" + "334"[..3] == "0334";
    assert DigitsValue("0334") == 334 by {
      assert "0334"[..3] == "033"; assert "033"[..2] == "03"; assert "03"[..1] == "0";
    }
    TrimDigits("0334");
  }

  /** A layout step whose start and width fall inside the digits cuts the
      slice they delimit. */
  lemma CutInside(d: string, arg: string, k: nat, st: nat, w: nat)
    requires k < |arg| && StartAt(arg, k) == st && WidthOf(arg[k]) == w && st + w <= |d|
    ensures Piece(d, arg, k) == d[st..st + w]
  {
  }

  /** A layout step that starts past the digits cuts nothing. */
  lemma CutPast(d: string, arg: string, k: nat)
    requires k <= |arg| && StartAt(arg, k) >= |d|
    ensures Piece(d, arg, k) == []
  {
  }

  /** The pieces the layout "334" cuts from ten digits, step by step. */
  lemma LayoutCut0(d: string)
    requires |d| == 10
    ensures Piece(d, "334", 0) == d[..3]
  {
    assert WidthOf("334"[0]) == 3 by { assert "334"[0] == '3'; }
    CutInside(d, "334", 0, 0, 3);
  }

  lemma LayoutCut1(d: string)
    requires |d| == 10
    ensures Piece(d, "334", 1) == d[3..6]
  {
    LayoutStart1();
    assert WidthOf("334"[1]) == 3 by { assert "334"[1] == '3'; }
    CutInside(d, "334", 1, 3, 3);
  }

  lemma LayoutCut2(d: string)
    requires |d| == 10
    ensures Piece(d, "334", 2) == []
  {
    LayoutStart2();
    CutPast(d, "334", 2);
  }

  lemma LayoutCut3(d: string)
    requires |d| == 10
    ensures Piece(d, "334", 3) == []
  {
    LayoutStart3();
    CutPast(d, "334", 3);
  }

  /** One step of the layout loop: a non-empty piece is kept, an empty
      one is dropped. */
  lemma TextPiecesStep(d: string, arg: string, k: nat)
    requires k < |arg|
    ensures Piece(d, arg, k) != [] ==> TextPieces(d, arg, k) == [Piece(d, arg, k)] + TextPieces(d, arg, k + 1)
    ensures Piece(d, arg, k) == [] ==> TextPieces(d, arg, k) == TextPieces(d, arg, k + 1)
  {
  }

  lemma TextPiecesLast(d: string, arg: string)
    ensures Piece(d, arg, |arg|) == [] ==> TextPieces(d, arg, |arg|) == []
  {
  }

  lemma LayoutPiece2(d: string)
    requires |d| == 10
    ensures TextPieces(d, "334", 2) == []
  {
    LayoutCut2(d);
    LayoutCut3(d);
    TextPiecesLast(d, "334");
    TextPiecesStep(d, "334", 2);
  }

  lemma LayoutPiece1(d: string)
    requires |d| == 10
    ensures TextPieces(d, "334", 1) == [d[3..6]]
  {
    LayoutCut1(d);
    LayoutPiece2(d);
    TextPiecesStep(d, "334", 1);
  }

  lemma LayoutPieces(d: string)
    requires |d| == 10
    ensures TextPieces(d, "334", 0) == [d[..3], d[3..6]]
  {
    LayoutCut0(d);
    LayoutPiece1(d);
    TextPiecesStep(d, "334", 0);
  }

  /** The text layout "334" cuts the first three and the next three digits,
      then reads from position 33 (the running index having become the text
      "033") and from 334, so the last four digits of a ten-digit account are
      lost. */
  lemma AccountTextLayoutLosesTail(d: string)
    requires |d| == 10 && AllDigits(d)
    ensures Account(Some(d), LayoutText("334"), None, None) == Some(d[..3] + "-" + d[3..6])
  {
    AccountTextLayout(d, "334");
    LayoutPieces(d);
    JoinCons(d[..3], [d[3..6]], "-");
    assert [d[..3]] + [d[3..6]] == [d[..3], d[3..6]];
  }

  /** An own-bank account with a text layout joins the layout's pieces of
      its digits. */
  lemma AccountTextLayout(d: string, t: string)
    requires d != "" && t != ""
    ensures Account(Some(d), LayoutText(t), None, None) == Some(Join(TextPieces(KeepDigits(d), t, 0), "-"))
  {
  }

  /** The pieces the layout evidently intends: consecutive slices of the
      given widths, counted from position `start`, then the rest. */
  function WidthPieces(d: string, widths: seq<nat>, start: nat): (ps: seq<string>)
    requires start <= |d|
    ensures NonEmptyPieces(ps)
    ensures AllDigits(d) ==> AllDigitPieces(ps)
    decreases |widths|
  {
    if |widths| == 0 then
      SliceDigits(d, start, |d|);
      if start == |d| then [] else [d[start..]]
    else
      var end := if start + widths[0] > |d| then |d| else start + widths[0];
      var p := d[start..end];
      var rest := WidthPieces(d, widths[1..], end);
      SliceDigits(d, start, end);
      var ps := if p == [] then rest else [p] + rest;
      ConsPieces(p, rest, ps);
      ps
  }

  predicate NonEmptyPieces(ps: seq<string>) {
    forall i :: 0 <= i < |ps| ==> ps[i] != []
  }

  function Concat(ps: seq<string>): string {
    if |ps| == 0 then [] else ps[0] + Concat(ps[1..])
  }

  lemma ConcatCons(p: string, rest: seq<string>)
    ensures Concat([p] + rest) == p + Concat(rest)
  {
    assert ([p] + rest)[1..] == rest;
  }

  /** The width pieces are consecutive and cover the digits from `start`. */
  lemma {:induction false} WidthPiecesCover(d: string, widths: seq<nat>, start: nat)
    requires start <= |d|
    ensures Concat(WidthPieces(d, widths, start)) == d[start..]
    decreases |widths|
  {
    if |widths| > 0 {
      var end := if start + widths[0] > |d| then |d| else start + widths[0];
      WidthPiecesCover(d, widths[1..], end);
      var rest := WidthPieces(d, widths[1..], end);
      ConcatCons(d[start..end], rest);
      assert d[start..] == d[start..end] + d[end..];
    } else if start < |d| {
      ConcatCons(d[start..], []);
    }
  }

  /** A string of digits holds no hyphen. */
  lemma DigitsNoHyphen(p: string)
    requires AllDigits(p)
    ensures RemoveChar(p, '-') == p
  {
    assert forall i :: 0 <= i < |p| ==> IsDigit(p[i]);
  }

  /** Joining pieces of digits with hyphens and stripping the hyphens again
      concatenates the pieces. */
  lemma {:induction false} JoinStrip(ps: seq<string>)
    requires AllDigitPieces(ps)
    ensures StripHyphens(Join(ps, "-")) == Concat(ps)
  {
    if |ps| == 1 {
      assert Concat(ps) == ps[0] + Concat([]);
      DigitsNoHyphen(ps[0]);
    } else if |ps| > 1 {
      assert AllDigitPieces(ps[1..]) by {
        assert forall i :: 0 <= i < |ps| - 1 ==> ps[1..][i] == ps[i + 1];
      }
      JoinStrip(ps[1..]);
      RemoveCharConcat(ps[0] + "-", Join(ps[1..], "-"), '-');
      RemoveCharConcat(ps[0], "-", '-');
      assert RemoveChar("-", '-') == [];
      DigitsNoHyphen(ps[0]);
    }
  }

  /** The account formatting the documentation describes: widths such as
      `[3, 3, 4]` cut consecutive pieces of the digits, the rest forms a
      last piece, and the pieces are joined with hyphens. */
  function AccountWithWidths(dat: string, widths: seq<nat>): (r: string)
    ensures StripHyphens(r) == KeepDigits(dat)
    ensures forall i :: 0 <= i < |r| ==> IsDigit(r[i]) || r[i] == '-'
  {
    var digits := KeepDigits(dat);
    var ps := WidthPieces(digits, widths, 0);
    WidthPiecesCover(digits, widths, 0);
    JoinStrip(ps);
    JoinDigitsHyphens(ps);
    Join(ps, "-")
  }

  /** One step of the intended formatting: a width that fits cuts the next
      slice. */
  lemma WidthStep(d: string, widths: seq<nat>, start: nat)
    requires |widths| > 0 && 0 < widths[0] && start + widths[0] <= |d|
    ensures WidthPieces(d, widths, start) ==
      [d[start..start + widths[0]]] + WidthPieces(d, widths[1..], start + widths[0])
  {
  }

  lemma WidthsExamplePieces(d: string)
    requires |d| == 10
    ensures WidthPieces(d, [3, 3, 4], 0) == [d[..3], d[3..6], d[6..]]
  {
    assert WidthPieces(d, [], 10) == [];
    WidthStep(d, [4], 6);
    assert [4][1..] == [];
    assert d[6..10] == d[6..];
    assert WidthPieces(d, [4], 6) == [d[6..]];
    WidthStep(d, [3, 4], 3);
    assert [3, 4][1..] == [4];
    assert WidthPieces(d, [3, 4], 3) == [d[3..6], d[6..]];
    WidthStep(d, [3, 3, 4], 0);
    assert [3, 3, 4][1..] == [3, 4];
  }

  /** With the documented example, the intended formatting splits ten digits
      as 3-3-4 and keeps all of them, where the text layout "334" loses the
      last four. */
  lemma AccountWithWidthsExample(d: string)
    requires |d| == 10 && AllDigits(d)
    ensures AccountWithWidths(d, [3, 3, 4]) == d[..3] + "-" + d[3..6] + "-" + d[6..]
  {
    assert KeepDigits(d) == d;
    WidthsExamplePieces(d);
    JoinCons(d[3..6], [d[6..]], "-");
    assert [d[3..6]] + [d[6..]] == [d[3..6], d[6..]];
    JoinCons(d[..3], [d[3..6], d[6..]], "-");
    assert [d[..3]] + [d[3..6], d[6..]] == [d[..3], d[3..6], d[6..]];
  }
}
