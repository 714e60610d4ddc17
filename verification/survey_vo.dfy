/** The survey value objects of the backend (`SurveyMasterVO`,
    `SurveyResponseVO`, `SurveyQuestionVO`, `SurveyResponseDetailVO`,
    `SurveyChoiceVO`, `SurveyStatisticsVO`, `SurveyTargetVO`) and their
    derived predicates. A Java reference that may be null is an `Option`;
    only the fields the predicates read are kept. */
module SurveyVo {
  import opened Optional

  /* ------------------------------------------------------------------ */
  /* Codes and flags                                                     */

  /** `CODE.equals(field)`: false for null and for any other string. */
  predicate CodeIs(field: Option<string>, code: string) {
    field == Some(code)
  }

  /** A `Y/N` flag: `"Y".equals(field)`. */
  predicate Flag(field: Option<string>) {
    CodeIs(field, "Y")
  }

  /** Two different codes never hold together, and neither holds for null. */
  lemma CodesExclusive(field: Option<string>, a: string, b: string)
    requires a != b
    ensures !(CodeIs(field, a) && CodeIs(field, b))
    ensures !CodeIs(None, a)
  {
  }

  /** Only the exact string "Y" sets a flag: null, "N", "y" and " Y" do not. */
  lemma FlagOnlyY(field: Option<string>)
    ensures Flag(field) <==> field.Some? && |field.value| == 1 && field.value[0] == 'Y'
    ensures !Flag(None) && !Flag(Some("N")) && !Flag(Some("y")) && !Flag(Some(" Y"))
  {
    if field.Some? && |field.value| == 1 && field.value[0] == 'Y' {
      assert field.value == "Y";
    }
  }

  /* ------------------------------------------------------------------ */
  /* SurveyMasterVO                                                      */

  datatype SurveyMaster = SurveyMaster(
    survSeq: Option<int>, survStsCd: Option<string>,
    anonYn: Option<string>, duplYn: Option<string>, fileAttYn: Option<string>)

  function IsActive(m: SurveyMaster): (b: bool)
    ensures b <==> StatusOf(m.survStsCd) == Some(Active)
    ensures b <==> m.survStsCd == Some("ACTIVE")
  { CodeIs(m.survStsCd, "ACTIVE") }
  function IsDraft(m: SurveyMaster): (b: bool)
    ensures b <==> StatusOf(m.survStsCd) == Some(Draft)
    ensures b <==> m.survStsCd == Some("DRAFT")
  { CodeIs(m.survStsCd, "DRAFT") }
  function IsClosed(m: SurveyMaster): (b: bool)
    ensures b <==> StatusOf(m.survStsCd) == Some(Closed)
    ensures b <==> m.survStsCd == Some("CLOSED")
  { CodeIs(m.survStsCd, "CLOSED") }
  function IsAnonymousSurvey(m: SurveyMaster): (b: bool)
    ensures b <==> m.anonYn == Some("Y")
  { Flag(m.anonYn) }
  function IsDuplicateAllowed(m: SurveyMaster): (b: bool)
    ensures b <==> m.duplYn == Some("Y")
  { Flag(m.duplYn) }
  function HasFileAttachment(m: SurveyMaster): (b: bool)
    ensures b <==> m.fileAttYn == Some("Y")
  { Flag(m.fileAttYn) }

  /** The lifecycle states the status predicates recognise. */
  datatype SurveyStatus = Draft | Active | Closed

  /** The state a status code names, if it names one of the three. */
  function StatusOf(code: Option<string>): (s: Option<SurveyStatus>)
    ensures s.Some? ==> code.Some?
  {
    match code
    case None => None
    case Some(c) =>
      if c == "DRAFT" then Some(Draft)
      else if c == "ACTIVE" then Some(Active)
      else if c == "CLOSED" then Some(Closed)
      else None
  }

  /** Each status predicate holds exactly when the code names its state, so
      at most one holds; "ARCHIVED", null and any other code give none. */
  lemma MasterStatus(m: SurveyMaster)
    ensures IsActive(m) <==> StatusOf(m.survStsCd) == Some(Active)
    ensures IsDraft(m) <==> StatusOf(m.survStsCd) == Some(Draft)
    ensures IsClosed(m) <==> StatusOf(m.survStsCd) == Some(Closed)
    ensures !(IsActive(m) && IsDraft(m)) && !(IsActive(m) && IsClosed(m)) && !(IsDraft(m) && IsClosed(m))
    ensures m.survStsCd == Some("ARCHIVED") || m.survStsCd.None? ==> !IsActive(m) && !IsDraft(m) && !IsClosed(m)
  {
  }

  /** Each flag of a survey reads its own field and nothing else. */
  lemma MasterFlagsIndependent(m: SurveyMaster, code: Option<string>, flag: Option<string>)
    ensures IsAnonymousSurvey(m.(survStsCd := code, duplYn := flag, fileAttYn := flag)) == IsAnonymousSurvey(m)
    ensures IsDuplicateAllowed(m.(survStsCd := code, anonYn := flag, fileAttYn := flag)) == IsDuplicateAllowed(m)
    ensures HasFileAttachment(m.(survStsCd := code, anonYn := flag, duplYn := flag)) == HasFileAttachment(m)
    ensures IsActive(m.(anonYn := flag, duplYn := flag, fileAttYn := flag)) == IsActive(m)
  {
  }

  /* ------------------------------------------------------------------ */
  /* SurveyResponseVO                                                    */

  /** A `LocalDateTime` as nanoseconds on the local time line. */
  type Instant = int

  const NanosPerSecond: int := 1000000000

  datatype SurveyResponse = SurveyResponse(
    respSeq: Option<int>, respSttDt: Option<Instant>, respEndDt: Option<Instant>,
    respDurMin: Option<int>, respStsCd: Option<string>, anonYn: Option<string>, delYn: Option<string>)

  function IsInProgress(r: SurveyResponse): (b: bool)
    ensures b <==> r.respStsCd == Some("IN_PROGRESS")
  { CodeIs(r.respStsCd, "IN_PROGRESS") }
  function IsCompleted(r: SurveyResponse): (b: bool)
    ensures b <==> r.respStsCd == Some("COMPLETED")
  { CodeIs(r.respStsCd, "COMPLETED") }
  function IsAbandoned(r: SurveyResponse): (b: bool)
    ensures b <==> r.respStsCd == Some("ABANDONED")
  { CodeIs(r.respStsCd, "ABANDONED") }
  function IsAnonymousResponse(r: SurveyResponse): (b: bool)
    ensures b <==> r.anonYn == Some("Y")
  { Flag(r.anonYn) }
  function IsDeletedResponse(r: SurveyResponse): (b: bool)
    ensures b <==> r.delYn == Some("Y")
  { Flag(r.delYn) }

  /** At most one response status holds; null and unknown codes give none. */
  lemma ResponseStatusExclusive(r: SurveyResponse)
    ensures !(IsInProgress(r) && IsCompleted(r)) && !(IsInProgress(r) && IsAbandoned(r)) && !(IsCompleted(r) && IsAbandoned(r))
    ensures r.respStsCd.None? ==> !IsInProgress(r) && !IsCompleted(r) && !IsAbandoned(r)
  {
  }

  /** Java's `/` on integers: the quotient truncated toward zero. */
  function JavaDiv(a: int, b: int): (q: int)
    requires b > 0
    ensures a >= 0 ==> q == a / b
    ensures a < 0 ==> q == -((-a) / b)
  {
    if a >= 0 then a / b else -((-a) / b)
  }

  /** The `(int)` cast of a `long`: the low 32 bits, as a signed value. */
  function ToInt32(x: int): (r: int)
    ensures -0x8000_0000 <= r < 0x8000_0000
    ensures -0x8000_0000 <= x < 0x8000_0000 ==> r == x
  {
    var m := x % 0x1_0000_0000;
    if m >= 0x8000_0000 then m - 0x1_0000_0000 else m
  }

  /** `(int) Duration.between(start, end).toMinutes()`: the duration keeps
      whole seconds rounded down and the nanoseconds apart; `toMinutes`
      divides the seconds by 60 as Java does. */
  function DurationMinutes(start: Instant, end: Instant): (m: int)
    ensures -0x8000_0000 <= m < 0x8000_0000
    ensures 0 <= end - start < NanosPerMinute ==> m == 0
  {
    var seconds := (end - start) / NanosPerSecond;
    ToInt32(JavaDiv(seconds, 60))
  }

  /** `getDurationMinutes()`: with both times, the minutes between them and
      `respDurMin` ignored; otherwise `respDurMin`, or 0 when it is null. */
  function GetDurationMinutes(r: SurveyResponse): (m: int)
    ensures r.respSttDt.Some? && r.respEndDt.Some? ==> -0x8000_0000 <= m < 0x8000_0000
    ensures r.respSttDt.Some? && r.respEndDt.Some? && r.respSttDt == r.respEndDt ==> m == 0
    ensures r.respSttDt.None? || r.respEndDt.None? ==> m == r.respDurMin.GetOr(0)
  {
    if r.respSttDt.Some? && r.respEndDt.Some? then DurationMinutes(r.respSttDt.value, r.respEndDt.value)
    else r.respDurMin.GetOr(0)
  }

  /** One minute in nanoseconds. */
  const NanosPerMinute: int := 60 * NanosPerSecond

  /** For a forward span that fits an `int` of minutes, the result is the
      number of whole minutes elapsed. */
  lemma DurationIsWholeMinutes(start: Instant, end: Instant)
    requires start <= end && end - start < 0x8000_0000 * NanosPerMinute
    ensures var m := DurationMinutes(start, end);
      0 <= m && m * NanosPerMinute <= end - start < (m + 1) * NanosPerMinute
  {
    var d := end - start;
    var s := d / NanosPerSecond;
    var m := s / 60;
    assert s * NanosPerSecond <= d < (s + 1) * NanosPerSecond;
    assert m * 60 <= s < (m + 1) * 60;
    assert m * NanosPerMinute == (m * 60) * NanosPerSecond;
    assert (m + 1) * NanosPerMinute == ((m + 1) * 60) * NanosPerSecond;
    assert m < 0x8000_0000;
  }

  /** An end before the start gives a negative or zero count: nothing keeps
      the two in order. A whole number of seconds reversed gives the
      negated count. */
  lemma DurationReversed(start: Instant, end: Instant)
    requires start <= end && end - start < 0x8000_0000 * NanosPerMinute
    requires (end - start) % NanosPerSecond == 0
    ensures DurationMinutes(end, start) == -DurationMinutes(start, end) <= 0
  {
    var d := end - start;
    var s := d / NanosPerSecond;
    assert d == s * NanosPerSecond;
    assert (start - end) / NanosPerSecond == -s by {
      assert start - end == (-s) * NanosPerSecond;
    }
    DurationIsWholeMinutes(start, end);
  }

  /** The two sources of the duration: the times win when both are there. */
  lemma DurationSources(r: SurveyResponse, other: Option<int>)
    ensures r.respSttDt.Some? && r.respEndDt.Some? ==>
      GetDurationMinutes(r.(respDurMin := other)) == GetDurationMinutes(r)
    ensures r.respSttDt.None? || r.respEndDt.None? ==>
      GetDurationMinutes(r) == (if r.respDurMin.Some? then r.respDurMin.value else 0)
  {
  }

  /* ------------------------------------------------------------------ */
  /* SurveyQuestionVO                                                    */

  datatype SurveyQuestion = SurveyQuestion(
    qstSeq: Option<int>, qstTyCd: Option<string>,
    reqYn: Option<string>, skipLgcYn: Option<string>, scrYn: Option<string>)

  function IsSingleChoice(q: SurveyQuestion): (b: bool)
    ensures b <==> q.qstTyCd == Some("SINGLE_CHOICE")
  { CodeIs(q.qstTyCd, "SINGLE_CHOICE") }
  function IsMultipleChoice(q: SurveyQuestion): (b: bool)
    ensures b <==> q.qstTyCd == Some("MULTIPLE_CHOICE")
  { CodeIs(q.qstTyCd, "MULTIPLE_CHOICE") }
  function IsText(q: SurveyQuestion): (b: bool)
    ensures b <==> q.qstTyCd == Some("TEXT")
  { CodeIs(q.qstTyCd, "TEXT") }
  function IsScale(q: SurveyQuestion): (b: bool)
    ensures b <==> q.qstTyCd == Some("SCALE")
  { CodeIs(q.qstTyCd, "SCALE") }
  function IsRequired(q: SurveyQuestion): (b: bool)
    ensures b <==> q.reqYn == Some("Y")
  { Flag(q.reqYn) }
  function HasSkipLogic(q: SurveyQuestion): (b: bool)
    ensures b <==> q.skipLgcYn == Some("Y")
  { Flag(q.skipLgcYn) }
  function QuestionHasScore(q: SurveyQuestion): (b: bool)
    ensures b <==> q.scrYn == Some("Y")
  { Flag(q.scrYn) }

  /** The number of type predicates that hold. */
  function TypeCount(q: SurveyQuestion): (n: nat)
    ensures n <= 4
  {
    (if IsSingleChoice(q) then 1 else 0) + (if IsMultipleChoice(q) then 1 else 0)
    + (if IsText(q) then 1 else 0) + (if IsScale(q) then 1 else 0)
  }

  /** At most one type holds, and exactly one for the four known codes;
      "ETC" and null give none. The flags do not depend on the type. */
  lemma QuestionTypes(q: SurveyQuestion, code: Option<string>)
    ensures TypeCount(q) <= 1
    ensures TypeCount(q) == 1 <==> q.qstTyCd in {Some("SINGLE_CHOICE"), Some("MULTIPLE_CHOICE"), Some("TEXT"), Some("SCALE")}
    ensures q.qstTyCd == Some("ETC") || q.qstTyCd.None? ==> TypeCount(q) == 0
    ensures IsRequired(q.(qstTyCd := code)) == IsRequired(q)
    ensures HasSkipLogic(q.(qstTyCd := code)) == HasSkipLogic(q)
    ensures QuestionHasScore(q.(qstTyCd := code)) == QuestionHasScore(q)
  {
  }

  /* ------------------------------------------------------------------ */
  /* SurveyResponseDetailVO                                              */

  datatype SurveyResponseDetail = SurveyResponseDetail(
    chcSeq: Option<int>, textResp: Option<string>, respScr: Option<int>, delYn: Option<string>)

  /** `String.trim()`: removes every character up to U+0020 at both ends. */
  predicate Low(c: char) {
    c <= ' '
  }

  predicate AllLow(s: string) {
    forall i :: 0 <= i < |s| ==> Low(s[i])
  }

  function StripLeading(s: string): (r: string)
    ensures |r| <= |s| && r == s[|s| - |r|..]
    ensures |r| > 0 ==> !Low(r[0])
  {
    if |s| > 0 && Low(s[0]) then StripLeading(s[1..]) else s
  }

  function StripTrailing(s: string): (r: string)
    ensures |r| <= |s| && r == s[..|r|]
    ensures |r| > 0 ==> !Low(r[|r| - 1])
  {
    if |s| > 0 && Low(s[|s| - 1]) then StripTrailing(s[..|s| - 1]) else s
  }

  /** The trimmed text is a slice of the text that neither starts nor ends
      with a character up to a space. */
  function JavaTrim(s: string): (r: string)
    ensures exists k :: 0 <= k <= |s| - |r| && r == s[k..][..|r|]
    ensures |r| > 0 ==> !Low(r[0]) && !Low(r[|r| - 1])
  {
    var l := StripLeading(s);
    var r := StripTrailing(l);
    assert r == s[|s| - |l|..][..|r|];
    r
  }

  lemma {:induction false} StripLeadingEmpty(s: string)
    ensures StripLeading(s) == [] <==> AllLow(s)
    decreases |s|
  {
    if |s| > 0 && Low(s[0]) {
      StripLeadingEmpty(s[1..]);
      assert AllLow(s) <==> AllLow(s[1..]) by {
        assert forall i :: 1 <= i < |s| ==> s[i] == s[1..][i - 1];
      }
    }
  }

  lemma {:induction false} StripTrailingEmpty(s: string)
    ensures StripTrailing(s) == [] <==> AllLow(s)
    decreases |s|
  {
    if |s| > 0 && Low(s[|s| - 1]) {
      var t := s[..|s| - 1];
      StripTrailingEmpty(t);
      assert AllLow(s) <==> AllLow(t) by {
        assert forall i :: 0 <= i < |t| ==> s[i] == t[i];
      }
    }
  }

  /** `trim()` leaves nothing exactly when every character is at most a
      space. */
  lemma JavaTrimEmpty(s: string)
    ensures JavaTrim(s) == [] <==> AllLow(s)
  {
    var l := StripLeading(s);
    StripLeadingEmpty(s);
    StripTrailingEmpty(l);
  }

  /** A text response is one whose text holds a character above a space;
      null, "" and blank text are not. */
  function IsTextResponse(d: SurveyResponseDetail): (b: bool)
    ensures b <==> d.textResp.Some? && exists i :: 0 <= i < |d.textResp.value| && !Low(d.textResp.value[i])
  {
    match d.textResp
    case None => false
    case Some(t) =>
      JavaTrimEmpty(t);
      JavaTrim(t) != []
  }

  function IsChoiceResponse(d: SurveyResponseDetail): (b: bool)
    ensures b <==> d.chcSeq.Some?
  { d.chcSeq.Some? }

  /** A missing score counts as zero, and only a positive score counts. */
  function DetailHasScore(d: SurveyResponseDetail): (b: bool)
    ensures b <==> d.respScr.GetOr(0) > 0
  { d.respScr.Some? && d.respScr.value > 0 }

  function IsDeletedDetail(d: SurveyResponseDetail): (b: bool)
    ensures b <==> d.delYn == Some("Y")
  { Flag(d.delYn) }

  /** The detail predicates: a score counts only when positive, and text and
      choice may both hold. */
  lemma DetailPredicates()
    ensures !DetailHasScore(SurveyResponseDetail(None, None, Some(0), None))
    ensures !DetailHasScore(SurveyResponseDetail(None, None, Some(-2), None))
    ensures DetailHasScore(SurveyResponseDetail(None, None, Some(1), None))
    ensures var both := SurveyResponseDetail(Some(3), Some("x"), None, None);
      IsTextResponse(both) && IsChoiceResponse(both)
  {
    assert JavaTrim("x") == "x";
  }

  /* ------------------------------------------------------------------ */
  /* SurveyChoiceVO                                                      */

  datatype SurveyChoice = SurveyChoice(chcSeq: Option<int>, chcScr: Option<int>, etcYn: Option<string>)

  function IsEtcChoice(c: SurveyChoice): (b: bool)
    ensures b <==> c.etcYn == Some("Y")
  { Flag(c.etcYn) }

  /** A missing score counts as zero, and only a positive score counts. */
  function ChoiceHasScore(c: SurveyChoice): (b: bool)
    ensures b <==> c.chcScr.GetOr(0) > 0
  { c.chcScr.Some? && c.chcScr.value > 0 }

  /** The "other" choice is marked only by "Y"; a score of 0, a negative one
      or none does not count. */
  lemma ChoicePredicates(c: SurveyChoice)
    ensures IsEtcChoice(c) <==> c.etcYn == Some("Y")
    ensures !IsEtcChoice(c.(etcYn := None))
    ensures ChoiceHasScore(c) <==> exists s :: s > 0 && c.chcScr == Some(s)
    ensures c.chcScr.Some? && c.chcScr.value <= 0 ==> !ChoiceHasScore(c)
  {
    if ChoiceHasScore(c) {
      assert c.chcScr == Some(c.chcScr.value);
    }
  }

  /* ------------------------------------------------------------------ */
  /* SurveyStatisticsVO                                                  */

  /** A `BigDecimal`: an unscaled integer and a scale, worth
      `unscaled * 10^-scale`. */
  datatype Decimal = Decimal(unscaled: int, scale: int)

  function Pow10(n: nat): (p: nat)
    ensures p >= 1
  {
    if n == 0 then 1 else 10 * Pow10(n - 1)
  }

  /** The value of a decimal as a real number. */
  function Value(d: Decimal): real {
    if d.scale >= 0 then d.unscaled as real / Pow10(d.scale) as real
    else (d.unscaled * Pow10(-d.scale)) as real
  }

  /** `BigDecimal.ZERO`. */
  const Zero: Decimal := Decimal(0, 0)

  /** `a.multiply(b)`: exact, the unscaled values multiplied and the scales
      added. */
  function Multiply(a: Decimal, b: Decimal): Decimal {
    Decimal(a.unscaled * b.unscaled, a.scale + b.scale)
  }

  datatype SurveyStatistics = SurveyStatistics(
    chcSeq: Option<int>, respRate: Option<Decimal>,
    avgScr: Option<Decimal>, minScr: Option<Decimal>, maxScr: Option<Decimal>, stdDevScr: Option<Decimal>)

  function HasChoice(s: SurveyStatistics): (b: bool)
    ensures b <==> s.chcSeq.Some?
  { s.chcSeq.Some? }

  /** Any of the mean, the minimum and the maximum makes a score statistic;
      the standard deviation plays no part. */
  function StatisticsHasScore(s: SurveyStatistics): (b: bool)
    ensures !b <==> s.avgScr == s.minScr == s.maxScr == None
  {
    s.avgScr.Some? || s.minScr.Some? || s.maxScr.Some?
  }

  /** `getResponseRatePercentage()`: the rate times `new BigDecimal("100")`,
      or zero when there is no rate. */
  function ResponseRatePercentage(s: SurveyStatistics): (d: Decimal)
    ensures s.respRate.None? ==> d == Zero
    ensures s.respRate.Some? ==> d.scale == s.respRate.value.scale && d.unscaled == 100 * s.respRate.value.unscaled
  {
    match s.respRate
    case None => Zero
    case Some(rate) => Multiply(rate, Decimal(100, 0))
  }

  /** A scale-preserving product by 100 is worth 100 times as much. */
  lemma TimesHundred(d: Decimal)
    ensures Value(Decimal(d.unscaled * 100, d.scale)) == 100.0 * Value(d)
  {
    if d.scale < 0 {
      assert d.unscaled * 100 * Pow10(-d.scale) == 100 * (d.unscaled * Pow10(-d.scale));
    }
  }

  /** The percentage is exactly 100 times the rate and keeps its scale, so
      0.5 gives 50.0; no rate gives zero. */
  lemma PercentageMeaning(s: SurveyStatistics)
    ensures s.respRate.Some? ==> Value(ResponseRatePercentage(s)) == 100.0 * Value(s.respRate.value)
    ensures s.respRate.Some? ==> ResponseRatePercentage(s).scale == s.respRate.value.scale
    ensures s.respRate.None? ==> Value(ResponseRatePercentage(s)) == 0.0
    ensures ResponseRatePercentage(s.(respRate := Some(Decimal(5, 1)))) == Decimal(500, 1)
  {
    if s.respRate.Some? {
      TimesHundred(s.respRate.value);
    }
  }

  /** A score statistic is any of the mean, the minimum and the maximum; the
      standard deviation alone does not count. */
  lemma StatisticsScore(s: SurveyStatistics, sd: Option<Decimal>)
    ensures StatisticsHasScore(s.(stdDevScr := sd)) == StatisticsHasScore(s)
    ensures !StatisticsHasScore(SurveyStatistics(s.chcSeq, s.respRate, None, None, None, Some(Zero)))
    ensures HasChoice(s) <==> s.chcSeq.Some?
  {
  }

  /* ------------------------------------------------------------------ */
  /* SurveyTargetVO                                                      */

  datatype SurveyTarget = SurveyTarget(tgtSeq: Option<int>, tgtTyCd: Option<string>, tgtValue: Option<string>)

  function IsAllEmployees(t: SurveyTarget): (b: bool)
    ensures b <==> TargetKindOf(t) == Some(AllEmployees)
    ensures b <==> t.tgtTyCd == Some("ALL")
  { CodeIs(t.tgtTyCd, "ALL") }
  function IsIndividualEmployee(t: SurveyTarget): (b: bool)
    ensures b <==> TargetKindOf(t) == Some(Employee)
    ensures b <==> t.tgtTyCd == Some("EMP_ID")
  { CodeIs(t.tgtTyCd, "EMP_ID") }
  function IsDepartment(t: SurveyTarget): (b: bool)
    ensures b <==> TargetKindOf(t) == Some(Department)
    ensures b <==> t.tgtTyCd == Some("DEPT_CD")
  { CodeIs(t.tgtTyCd, "DEPT_CD") }
  function IsPosition(t: SurveyTarget): (b: bool)
    ensures b <==> TargetKindOf(t) == Some(Position)
    ensures b <==> t.tgtTyCd == Some("POSITION_CD")
  { CodeIs(t.tgtTyCd, "POSITION_CD") }

  /** The kinds of target the predicates recognise. */
  datatype TargetKind = AllEmployees | Employee | Department | Position

  function TargetKindOf(t: SurveyTarget): (k: Option<TargetKind>)
    ensures k.Some? ==> t.tgtTyCd.Some?
  {
    if t.tgtTyCd == Some("ALL") then Some(AllEmployees)
    else if t.tgtTyCd == Some("EMP_ID") then Some(Employee)
    else if t.tgtTyCd == Some("DEPT_CD") then Some(Department)
    else if t.tgtTyCd == Some("POSITION_CD") then Some(Position)
    else None
  }

  /** Each target predicate holds exactly when the code names its kind, so
      at most one holds; the value of the target plays no part. */
  lemma TargetKinds(t: SurveyTarget, v: Option<string>)
    ensures IsAllEmployees(t) <==> TargetKindOf(t) == Some(AllEmployees)
    ensures IsIndividualEmployee(t) <==> TargetKindOf(t) == Some(Employee)
    ensures IsDepartment(t) <==> TargetKindOf(t) == Some(Department)
    ensures IsPosition(t) <==> TargetKindOf(t) == Some(Position)
    ensures TargetKindOf(t.(tgtValue := v)) == TargetKindOf(t)
  {
  }
}
