/** The display formatters of `formatter.js`: times, month-day dates in
    Korean, masked account numbers, phone numbers, card numbers, postal
    codes, security-medium serial numbers and e-mail addresses. */
module Formatter {
  import opened Optional
  import opened JsString
  import ComUtil

  /* ------------------------------------------------------------------ */
  /* Times and dates                                                     */

  /** `time(dat)`: "hhmm" becomes "hh:mm", "hhmmss" becomes "hh:mm:ss" and
      eight characters become "hh:mm:ss.xx"; a falsy value and every other
      length come back unchanged. The three rewrites are tried in turn, but a
      rewritten text never has the length a later test looks for, so at most
      one applies. */
  function Time(dat: Option<string>): (r: Option<string>)
    ensures dat.None? <==> r.None?
    ensures dat.Some? && |dat.value| !in {4, 6, 8} ==> r == dat
    ensures dat.Some? && |dat.value| in {4, 6, 8} ==>
      |r.value| == |dat.value| + |dat.value| / 2 - 1 && r.value[2] == ':'
    ensures dat.Some? && |dat.value| in {6, 8} ==> r.value[5] == ':'
    ensures dat.Some? && |dat.value| == 8 ==> r.value[8] == '.'
  {
    match dat
    case None => None
    case Some(d) =>
      if |d| == 8 then Some(d[..2] + ":" + d[2..4] + ":" + d[4..6] + "." + d[6..])
      else if |d| == 6 then Some(d[..2] + ":" + d[2..4] + ":" + d[4..])
      else if |d| == 4 then Some(d[..2] + ":" + d[2..])
      else dat
  }

  /** Reads a formatted time back: "hh:mm", "hh:mm:ss" and "hh:mm:ss.xx"
      lose their separators; any other text is not a formatted time. */
  function TimeDigits(t: string): (r: Option<string>)
    ensures r.Some? ==> |r.value| in {4, 6, 8} && |t| == |r.value| + |r.value| / 2 - 1
  {
    if |t| == 5 && t[2] == ':' then Some(t[..2] + t[3..])
    else if |t| == 8 && t[2] == ':' && t[5] == ':' then Some(t[..2] + t[3..5] + t[6..])
    else if |t| == 11 && t[2] == ':' && t[5] == ':' && t[8] == '.' then
      Some(t[..2] + t[3..5] + t[6..8] + t[9..])
    else None
  }

  /** Formatting a time and reading it back gives the original characters. */
  lemma TimeRoundTrip(d: string)
    requires |d| in {4, 6, 8}
    ensures TimeDigits(Time(Some(d)).value) == Some(d)
  {
    var t := Time(Some(d)).value;
    if |d| == 8 {
      TimePieces8(d, t);
    } else if |d| == 6 {
      assert t[..2] == d[..2] && t[3..5] == d[2..4] && t[6..] == d[4..];
      assert d == d[..2] + d[2..4] + d[4..];
    } else {
      assert t[..2] + t[3..] == d;
    }
  }

  lemma TimePieces8(d: string, t: string)
    requires |d| == 8 && t == d[..2] + ":" + d[2..4] + ":" + d[4..6] + "." + d[6..]
    ensures t[..2] + t[3..5] + t[6..8] + t[9..] == d
  {
    assert t[..2] == d[..2] && t[3..5] == d[2..4] && t[6..8] == d[4..6] && t[9..] == d[6..];
    assert d == d[..2] + d[2..4] + d[4..6] + d[6..];
  }

  /** Every formatted time is what `time` makes of its digits. */
  lemma TimeDigitsRoundTrip(t: string)
    requires TimeDigits(t).Some?
    ensures Time(TimeDigits(t)) == Some(t)
  {
    var d := TimeDigits(t).value;
    if |t| == 11 {
      assert d[..2] == t[..2] && d[2..4] == t[3..5] && d[4..6] == t[6..8] && d[6..] == t[9..];
      assert t == t[..2] + [t[2]] + t[3..5] + [t[5]] + t[6..8] + [t[8]] + t[9..];
    } else if |t| == 8 {
      assert d[..2] == t[..2] && d[2..4] == t[3..5] && d[4..] == t[6..];
      assert t == t[..2] + [t[2]] + t[3..5] + [t[5]] + t[6..];
    } else {
      assert d[..2] + ":" + d[2..] == t;
    }
  }

  /** `date1(dat)`: "yyyymm" becomes "mm월" and "yyyymmdd" becomes
      "mm월dd일"; a falsy value and every other length come back unchanged. */
  function Date1(dat: Option<string>): (r: Option<string>)
    ensures dat.None? <==> r.None?
    ensures dat.Some? && |dat.value| !in {6, 8} ==> r == dat
    ensures dat.Some? && |dat.value| == 6 ==> |r.value| == 3 && r.value[2] == '월'
    ensures dat.Some? && |dat.value| == 8 ==> |r.value| == 6 && r.value[2] == '월' && r.value[5] == '일'
    ensures dat.Some? && |dat.value| == 6 ==> r.value == dat.value[4..6] + "월"
    ensures dat.Some? && |dat.value| == 8 ==> r.value == dat.value[4..6] + "월" + dat.value[6..8] + "일"
  {
    match dat
    case None => None
    case Some(d) =>
      if |d| == 6 then Some(d[4..6] + "월")
      else if |d| == 8 then Some(d[4..6] + "월" + d[6..8] + "일")
      else dat
  }

  /** `date1` shows the month and day fields that `date` separates with
      dots, without the year. */
  lemma Date1FromDateText(d: string)
    requires |d| in {6, 8}
    ensures |d| == 6 ==> Date1(Some(d)).value == ComUtil.DateText(Some(d)).value[5..] + "월"
    ensures |d| == 8 ==> (Date1(Some(d)).value ==
      ComUtil.DateText(Some(d)).value[5..7] + "월" + ComUtil.DateText(Some(d)).value[8..] + "일")
  {
    var t := ComUtil.DateText(Some(d)).value;
    if |d| == 8 {
      assert t == d[..4] + "." + d[4..6] + "." + d[6..];
      assert t[5..7] == d[4..6] && t[8..] == d[6..8];
    } else {
      assert t == d[..4] + "." + d[4..];
      assert t[5..] == d[4..6];
    }
  }

  /* ------------------------------------------------------------------ */
  /* Account numbers                                                     */

  /** `accountMask`'s mask: the three characters at distance 7 to 5 from
      the end become "***". Shorter texts grow: the part before is empty and
      the last four characters (or all of them) follow the stars. */
  function MaskMiddle(s: string): (r: string)
    ensures |s| >= 7 ==> (|r| == |s| && r[..|s| - 7] == s[..|s| - 7]
      && r[|s| - 7..|s| - 4] == "***" && r[|s| - 4..] == s[|s| - 4..])
    ensures |s| < 7 ==> |r| >= 3 && r[..3] == "***" && r[3..] == s[|s| - (if |s| < 4 then |s| else 4)..]
  {
    Substring(s, 0, |s| - 7) + "***" + SubstringFrom(s, |s| - 4)
  }

  /** `accountMask(dat, arg, bankcd)`: `account` with the mask always on
      and moved three places to the left. Another bank's account is masked
      as it is; an own-bank account without a text layout gets the default
      layout (without the convenient-account exception) and is masked; a text
      layout is applied unmasked. */
  function AccountMask(dat: Option<string>, arg: ComUtil.Layout, bankcd: Option<string>): (r: Option<string>)
    ensures dat.None? || dat == Some("") ==> r == dat
    ensures dat.Some? && dat.value != "" ==> r.Some?
    ensures dat.Some? && |dat.value| >= 7 && ComUtil.OtherBank(bankcd) ==>
      |r.value| == |dat.value| && r.value[|dat.value| - 7..|dat.value| - 4] == "***"
  {
    match dat
    case None => dat
    case Some(d) =>
      if d == "" then dat
      else if ComUtil.OtherBank(bankcd) then Some(MaskMiddle(d))
      else if ComUtil.UsesDefaultLayout(arg) then Some(MaskMiddle(ComUtil.DefaultLayout(d, false)))
      else Some(ComUtil.TextLayout(d, arg.text))
  }

  /** The masked text of another bank's account differs from what `account`
      shows unmasked in exactly the three hidden places. */
  lemma AccountMaskOtherBank(d: string, arg: ComUtil.Layout, bankcd: Option<string>)
    requires |d| >= 7 && ComUtil.OtherBank(bankcd)
    ensures ComUtil.Account(Some(d), arg, bankcd, None) == Some(d)
    ensures forall i :: 0 <= i < |d| ==>
      (AccountMask(Some(d), arg, bankcd).value[i] == d[i] <==> !(|d| - 7 <= i < |d| - 4 && d[i] != '*'))
  {
    var m := AccountMask(Some(d), arg, bankcd).value;
    forall i | 0 <= i < |d|
      ensures m[i] == d[i] <==> !(|d| - 7 <= i < |d| - 4 && d[i] != '*')
    {
      if i < |d| - 7 {
        assert m[i] == m[..|d| - 7][i];
      } else if i < |d| - 4 {
        assert m[i] == m[|d| - 7..|d| - 4][i - (|d| - 7)];
      } else {
        assert m[i] == m[|d| - 4..][i - (|d| - 4)];
      }
    }
  }

  /** With a text layout `accountMask` and `account` agree: neither masks. */
  lemma AccountMaskTextLayout(d: string, t: string, bankcd: Option<string>, isMask: Option<bool>)
    requires d != "" && t != "" && !ComUtil.OtherBank(bankcd)
    ensures AccountMask(Some(d), ComUtil.LayoutText(t), bankcd) ==
      ComUtil.Account(Some(d), ComUtil.LayoutText(t), bankcd, isMask)
  {
  }

  /* ------------------------------------------------------------------ */
  /* Phone numbers                                                       */

  /** Where `phone` cuts a number of 9 to 12 characters: after the area
      code and before the last four characters. Seoul numbers ("02") of 9 or
      10 characters, "0505" numbers of 11 or 12 and other numbers of 10 or 11
      have cuts; every other combination has none. */
  function PhoneCuts(d: string): (r: Option<(nat, nat)>)
    requires 9 <= |d| <= 12
    ensures r.Some? ==> r.value.0 < r.value.1 == |d| - 4
    ensures r.Some? && d[..2] == "02" ==> r.value.0 == 2
    ensures r.Some? && d[..2] != "02" && d[..4] == "0505" ==> r.value.0 == 4
    ensures r.Some? && d[..2] != "02" && d[..4] != "0505" ==> r.value.0 == 3
    ensures r.None? <==>
      if d[..2] == "02" then |d| > 10 else if d[..4] == "0505" then |d| < 11 else |d| !in {10, 11}
  {
    if d[..2] == "02" then
      if |d| == 9 then Some((2, 5)) else if |d| == 10 then Some((2, 6)) else None
    else if d[..4] == "0505" then
      if |d| == 11 then Some((4, 7)) else if |d| == 12 then Some((4, 8)) else None
    else
      if |d| == 11 then Some((3, 7)) else if |d| == 10 then Some((3, 6)) else None
  }

  /** `phone(dat, donMask)`: null and "" give ""; fewer than 9 or more than
      12 characters come back unchanged; otherwise the number is cut into
      area code, exchange and line number, and without `donMask` the line
      number shows as "****". A number without cuts falls through every
      branch and the result is `undefined`, here `None`. */
  function Phone(dat: Option<string>, donMask: bool): (r: Option<string>)
    ensures dat.None? || dat == Some("") ==> r == Some("")
    ensures dat.Some? && dat.value != "" && !(9 <= |dat.value| <= 12) ==> r == dat
    ensures r.None? <==> dat.Some? && 9 <= |dat.value| <= 12 && PhoneCuts(dat.value).None?
    ensures dat.Some? && 9 <= |dat.value| <= 12 && r.Some? ==>
      |r.value| == |dat.value| + 2 && r.value[|r.value| - 5] == '-'
    ensures dat.Some? && 9 <= |dat.value| <= 12 && r.Some? && !donMask ==>
      r.value[|r.value| - 4..] == "****"
    ensures dat.Some? && 9 <= |dat.value| <= 12 && PhoneCuts(dat.value).Some? ==>
      var (a, b) := PhoneCuts(dat.value).value;
      r == Some(dat.value[..a] + "-" + dat.value[a..b] + "-" + (if donMask then dat.value[b..] else "****"))
  {
    match dat
    case None => Some("")
    case Some(d) =>
      if d == "" then Some("")
      else if |d| > 12 || |d| < 9 then dat
      else
        match PhoneCuts(d)
        case None => None
        case Some((a, b)) =>
          if donMask then Some(d[..a] + "-" + d[a..b] + "-" + d[b..])
          else
            assert d[..a] + "-" + d[a..b] + "-****" == d[..a] + "-" + d[a..b] + "-" + "****";
            Some(d[..a] + "-" + d[a..b] + "-****")
  }

  /** Unmasked, the formatted number is the number with two hyphens
      inserted. */
  lemma PhoneKeepsDigits(d: string)
    requires 9 <= |d| <= 12 && Phone(Some(d), true).Some?
    ensures ComUtil.StripHyphens(Phone(Some(d), true).value) == ComUtil.StripHyphens(d)
  {
    var (a, b) := PhoneCuts(d).value;
    ThreeCuts(d, a, b);
  }

  /** Cutting a text twice and joining the pieces with hyphens adds only
      hyphens. */
  lemma ThreeCuts(d: string, a: nat, b: nat)
    requires a <= b <= |d|
    ensures ComUtil.StripHyphens(d[..a] + "-" + d[a..b] + "-" + d[b..]) == ComUtil.StripHyphens(d)
  {
    var x, y, z := d[..a], d[a..b], d[b..];
    StripJoined(x + "-" + y, z);
    StripJoined(x, y);
    assert x + y + z == d;
    RemoveCharConcat(x + y, z, '-');
    RemoveCharConcat(x, y, '-');
  }

  /** Stripping the hyphens of two texts joined by one. */
  lemma StripJoined(a: string, b: string)
    ensures ComUtil.StripHyphens(a + "-" + b) == ComUtil.StripHyphens(a) + ComUtil.StripHyphens(b)
  {
    ComUtil.DropInserted(a, b, '-');
    RemoveCharConcat(a, b, '-');
  }

  /** The masked number is the unmasked one with its last four characters
      replaced by "****"; both are defined for the same numbers. */
  lemma PhoneMaskHidesLineNumber(d: string)
    ensures Phone(Some(d), false).Some? <==> Phone(Some(d), true).Some?
    ensures 9 <= |d| <= 12 && Phone(Some(d), true).Some? ==>
      var u := Phone(Some(d), true).value;
      Phone(Some(d), false).value == u[..|u| - 4] + "****"
  {
    if 9 <= |d| <= 12 && PhoneCuts(d).Some? {
      var (a, b) := PhoneCuts(d).value;
      var u := d[..a] + "-" + d[a..b] + "-" + d[b..];
      assert u[..|u| - 4] == d[..a] + "-" + d[a..b] + "-";
    }
  }

  /* ------------------------------------------------------------------ */
  /* Cards, postal codes, serial numbers                                 */

  /** `card(dat, ismask)`: null gives ""; hyphens are removed; sixteen
      digits are shown in groups of four, the middle two groups as "****"
      when `ismask` holds; any other length is returned without hyphens. */
  function Card(dat: Option<string>, ismask: bool): (r: string)
    ensures dat.None? ==> r == ""
    ensures dat.Some? && |ComUtil.StripHyphens(dat.value)| != 16 ==> r == ComUtil.StripHyphens(dat.value)
    ensures dat.Some? && |ComUtil.StripHyphens(dat.value)| == 16 ==>
      |r| == 19 && r[4] == '-' && r[9] == '-' && r[14] == '-'
    ensures dat.Some? && |ComUtil.StripHyphens(dat.value)| == 16 && ismask ==>
      r[5..9] == "****" && r[10..14] == "****"
  {
    match dat
    case None => ""
    case Some(d) =>
      var s := ComUtil.StripHyphens(d);
      if |s| == 16 then
        var (b, c) := if ismask then ("****", "****") else (s[4..8], s[8..12]);
        GroupedShape(s[..4], b, c, s[12..16]);
        s[..4] + "-" + b + "-" + c + "-" + s[12..16]
      else s
  }

  /** Four groups of four joined by hyphens. */
  lemma GroupedShape(a: string, b: string, c: string, d: string)
    requires |a| == |b| == |c| == |d| == 4
    ensures var r := a + "-" + b + "-" + c + "-" + d;
      |r| == 19 && r[4] == '-' && r[9] == '-' && r[14] == '-' && r[5..9] == b && r[10..14] == c
  {
    var r := a + "-" + b + "-" + c + "-" + d;
    assert r[5..9] == b && r[10..14] == c;
  }

  /** The unmasked card text loses nothing but hyphens, so formatting it
      again gives the same text. */
  lemma CardIdempotent(d: string)
    ensures ComUtil.StripHyphens(Card(Some(d), false)) == ComUtil.StripHyphens(d)
    ensures Card(Some(Card(Some(d), false)), false) == Card(Some(d), false)
  {
    var s := ComUtil.StripHyphens(d);
    assert ComUtil.StripHyphens(s) == s;
    if |s| == 16 {
      FourGroups(s);
    }
  }

  /** Stripping the three hyphens of four groups. */
  lemma FourGroups(s: string)
    requires |s| == 16
    ensures ComUtil.StripHyphens(s[..4] + "-" + s[4..8] + "-" + s[8..12] + "-" + s[12..16]) == ComUtil.StripHyphens(s)
  {
    var a, b, c, d := s[..4], s[4..8], s[8..12], s[12..16];
    StripJoined(a + "-" + b + "-" + c, d);
    StripJoined(a + "-" + b, c);
    StripJoined(a, b);
    StripFour(a, b, c, d);
    assert a + b + c + d == s;
  }

  lemma StripFour(a: string, b: string, c: string, d: string)
    ensures ComUtil.StripHyphens(a + b + c + d)
      == ComUtil.StripHyphens(a) + ComUtil.StripHyphens(b) + ComUtil.StripHyphens(c) + ComUtil.StripHyphens(d)
  {
    RemoveCharConcat(a + b + c, d, '-');
    RemoveCharConcat(a + b, c, '-');
    RemoveCharConcat(a, b, '-');
  }

  /** Masking a card changes exactly the two middle groups. */
  lemma CardMaskHidesMiddle(d: string)
    requires |ComUtil.StripHyphens(d)| == 16
    ensures forall i :: 0 <= i < 19 && !(5 <= i < 9 || 10 <= i < 14) ==>
      Card(Some(d), true)[i] == Card(Some(d), false)[i]
  {
  }

  /** `adrsNo(dat)`: a falsy value comes back unchanged; otherwise the
      hyphens are removed and the first three characters, a hyphen and the
      next three are shown. */
  function AdrsNo(dat: Option<string>): (r: Option<string>)
    ensures dat.None? || dat == Some("") ==> r == dat
    ensures dat.Some? && dat.value != "" ==>
      var s := ComUtil.StripHyphens(dat.value);
      var k := if |s| < 3 then |s| else 3;
      r.Some? && |r.value| > k && r.value[k] == '-' && ComUtil.StripHyphens(r.value) == s[..if |s| < 6 then |s| else 6]
      && |r.value| == (if |s| < 6 then |s| else 6) + 1
  {
    match dat
    case None => None
    case Some(d) =>
      if d == "" then dat
      else
        var s := ComUtil.StripHyphens(d);
        var k := if |s| < 3 then |s| else 3;
        var e := if |s| < 6 then |s| else 6;
        assert Substring(s, 0, 3) == s[..k] && Substring(s, 3, 6) == s[k..e];
        ComUtil.DropInserted(s[..k], s[k..e], '-');
        assert s[..k] + s[k..e] == s[..e];
        assert forall i :: 0 <= i < e ==> s[..e][i] == s[i];
        Some(Substring(s, 0, 3) + "-" + Substring(s, 3, 6))
  }

  /** Formatting a postal code twice is formatting it once. */
  lemma AdrsNoIdempotent(d: string)
    requires d != ""
    ensures AdrsNo(AdrsNo(Some(d))) == AdrsNo(Some(d))
  {
    var s := ComUtil.StripHyphens(d);
    var r := AdrsNo(Some(d)).value;
    var s2 := ComUtil.StripHyphens(r);
    var e := if |s| < 6 then |s| else 6;
    assert s2 == s[..e];
    var k := if |s| < 3 then |s| else 3;
    assert r == s[..k] + "-" + s[k..e];
    assert r != "";
    assert Substring(s2, 0, 3) == s[..k];
    assert Substring(s2, 3, 6) == s[k..e];
  }

  /** `secumedianomasking(dat)`: null gives ""; up to six characters come
      back unchanged; a longer serial number keeps its first two and last
      four characters and shows '*' for each one between. */
  function SecuMediaNoMasking(dat: Option<string>): (r: string)
    ensures dat.None? ==> r == ""
    ensures dat.Some? && |dat.value| <= 6 ==> r == dat.value
    ensures dat.Some? && |dat.value| > 6 ==>
      var d := dat.value;
      |r| == |d| && r[..2] == d[..2] && r[|d| - 4..] == d[|d| - 4..]
      && forall i :: 2 <= i < |d| - 4 ==> r[i] == '*'
  {
    match dat
    case None => ""
    case Some(d) =>
      if |d| > 6 then
        var stars := ComUtil.Repeat("*", |d| - 6);
        var r := d[..2] + stars + d[|d| - 4..];
        assert forall i :: 2 <= i < |d| - 4 ==> r[i] == stars[i - 2];
        r
      else d
  }

  /** Masking a masked serial number changes nothing. */
  lemma SecuMediaNoMaskingIdempotent(d: string)
    ensures SecuMediaNoMasking(Some(SecuMediaNoMasking(Some(d)))) == SecuMediaNoMasking(Some(d))
  {
    if |d| > 6 {
      var r := SecuMediaNoMasking(Some(d));
      var r2 := SecuMediaNoMasking(Some(r));
      assert |r2| == |r|;
      forall i | 0 <= i < |r| ensures r2[i] == r[i] {
        if i < 2 {
          assert r2[i] == r2[..2][i] && r[i] == r[..2][i];
        } else if i >= |r| - 4 {
          assert r2[i] == r2[|r| - 4..][i - (|r| - 4)] && r[i] == r[|r| - 4..][i - (|r| - 4)];
        }
      }
    }
  }

  /* ------------------------------------------------------------------ */
  /* E-mail addresses                                                    */

  /** `emailMasking(email)`: a missing or blank address, or one without
      '@', gives ""; otherwise the part before the first '@' keeps its first
      two characters and shows '*' for the others, followed by '@' and the
      part between the first and the second '@'. */
  function EmailMasking(email: Option<string>): (r: string)
    ensures email.None? || AllSpace(email.value) || !Includes(email.value, "@") ==> r == ""
  {
    match email
    case None => ""
    case Some(e) =>
      if Trim(e) == "" then ""
      else if !Includes(e, "@") then ""
      else
        var parts := Split(e, "@");
        SplitHasTwo(e);
        var front := parts[0];
        Substring(front, 0, 2) + ComUtil.Repeat("*", |front| - 2) + "@" + parts[1]
  }

  /** Splitting at a separator that occurs gives the text before its first
      occurrence and at least one more part, the first part of the rest. */
  lemma SplitHasTwo(e: string)
    requires Includes(e, "@")
    ensures |Split(e, "@")| >= 2
    ensures Split(e, "@")[0] == e[..IndexOf(e, "@").value]
    ensures Split(e, "@")[1] == Split(e[IndexOf(e, "@").value + 1..], "@")[0]
  {
  }

  /** The first part of a split holds no separator and starts the text. */
  lemma {:induction false} SplitFirst(s: string)
    ensures |Split(s, "@")[0]| <= |s| && Split(s, "@")[0] == s[..|Split(s, "@")[0]|]
    ensures forall i :: 0 <= i < |Split(s, "@")[0]| ==> s[i] != '@'
  {
    match IndexOf(s, "@")
    case None =>
      forall i | 0 <= i < |s| ensures s[i] != '@' {
        assert !OccursAt(s, "@", i);
        assert s[i..i + 1] == [s[i]];
      }
    case Some(j) =>
      forall i | 0 <= i < j ensures s[i] != '@' {
        assert !OccursAt(s, "@", i);
        assert s[i..i + 1] == [s[i]];
      }
  }

  /** For an address with '@' at position `j` (its first), the mask keeps
      the length of the local part, shows its first two characters and
      stars for the rest, and then '@' and the domain up to any second '@'. */
  lemma EmailMaskingShape(e: string)
    requires !AllSpace(e) && Includes(e, "@")
    ensures var j := IndexOf(e, "@").value;
      var r := EmailMasking(Some(e));
      var k := if j < 2 then j else 2;
      j < |r| && r[j] == '@' && r[..k] == e[..k] && (forall i :: k <= i < j ==> r[i] == '*')
      && |r| - j - 1 <= |e| - j - 1 && r[j + 1..] == e[j + 1..][..|r| - j - 1]
      && (forall i :: j < i < |r| ==> r[i] != '@')
  {
    var j := IndexOf(e, "@").value;
    var k := if j < 2 then j else 2;
    var stars, rest := ComUtil.Repeat("*", j as int - 2), Split(e[j + 1..], "@")[0];
    EmailMaskingParts(e);
    SplitFirst(e[j + 1..]);
    MaskedShape(e, j, e[j + 1..], e[..k], stars, rest, EmailMasking(Some(e)));
  }

  /** The shape of `keep + stars + "@" + rest` for an address `e` whose first
      '@' is at `j`, `keep` its first characters and `rest` a prefix of the
      text after that '@'. */
  lemma MaskedShape(e: string, j: nat, tail: string, keep: string, stars: string, rest: string, r: string)
    requires j < |e| && tail == e[j + 1..] && keep == e[..if j < 2 then j else 2]
    requires |stars| == j - |keep| && forall i :: 0 <= i < |stars| ==> stars[i] == '*'
    requires |rest| <= |tail| && rest == tail[..|rest|]
    requires forall i :: 0 <= i < |rest| ==> tail[i] != '@'
    requires r == keep + stars + "@" + rest
    ensures var k := if j < 2 then j else 2;
      j < |r| && r[j] == '@' && r[..k] == e[..k] && (forall i :: k <= i < j ==> r[i] == '*')
      && |r| - j - 1 <= |e| - j - 1 && r[j + 1..] == e[j + 1..][..|r| - j - 1]
      && (forall i :: j < i < |r| ==> r[i] != '@')
  {
    forall i | 0 <= i < |rest| ensures rest[i] != '@' {
      assert rest[i] == tail[i];
    }
    MaskedParts(keep, stars, rest, j);
  }

  /** The three parts a masked address is made of. */
  lemma EmailMaskingParts(e: string)
    requires !AllSpace(e) && Includes(e, "@")
    ensures var j := IndexOf(e, "@").value;
      var k := if j < 2 then j else 2;
      EmailMasking(Some(e)) == e[..k] + ComUtil.Repeat("*", j as int - 2) + "@" + Split(e[j + 1..], "@")[0]
  {
    var j := IndexOf(e, "@").value;
    SplitHasTwo(e);
    var k := if j < 2 then j else 2;
    assert Substring(e[..j], 0, 2) == e[..k];
  }

  /** The facts about a masked address that follow from its three parts. */
  lemma MaskedParts(keep: string, stars: string, rest: string, j: nat)
    requires |keep| + |stars| == j && |keep| <= 2
    requires forall i :: 0 <= i < |stars| ==> stars[i] == '*'
    requires forall i :: 0 <= i < |rest| ==> rest[i] != '@'
    ensures var r := keep + stars + "@" + rest;
      j < |r| && r[j] == '@' && r[..|keep|] == keep && (forall i :: |keep| <= i < j ==> r[i] == '*')
      && r[j + 1..] == rest && (forall i :: j < i < |r| ==> r[i] != '@')
  {
    var r := keep + stars + "@" + rest;
    forall i | |keep| <= i < j ensures r[i] == '*' {
      assert r[i] == stars[i - |keep|];
    }
    forall i | j < i < |r| ensures r[i] != '@' {
      assert r[i] == rest[i - j - 1];
    }
    assert r[j + 1..] == rest;
  }
}
