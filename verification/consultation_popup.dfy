/** The consultation request form of `ConsultationPopup.js`: its fields, the
    handlers that edit them, the ordered validation run before a request,
    the multipart payload that is sent, and what each server answer does to
    the form. */
module ConsultationPopup {
  import opened Optional
  import opened JsString

  /** The `formData` state. */
  datatype Form = Form(
    ttl: string,
    cntn: string,
    categoryCd: string,
    anonymousYn: string,
    nickname: string,
    priorityCd: string)

  /** The form with its attached files (named by their file names) and the
      `loading` flag. */
  datatype Popup = Popup(form: Form, files: seq<string>, loading: bool)

  /** The form as first shown and after every reset: all fields empty and
      the request not anonymous. */
  function EmptyForm(): (f: Form)
    ensures f.anonymousYn == "N"
    ensures f.ttl == f.cntn == f.categoryCd == f.nickname == f.priorityCd == ""
  {
    Form("", "", "", "N", "", "")
  }

  function Initial(): Popup {
    Popup(EmptyForm(), [], false)
  }

  /** `resetForm()`: every field back to its default and no files. */
  function ResetForm(p: Popup): (r: Popup)
    ensures r.form == EmptyForm() && r.files == []
    ensures r.loading == p.loading
  {
    p.(form := EmptyForm(), files := [])
  }

  /** `handleAnonymousChange(value)`: stores the choice, and keeps the
      nickname only when the request becomes anonymous. */
  function HandleAnonymousChange(f: Form, value: string): (r: Form)
    ensures r.anonymousYn == value
    ensures r.nickname == (if value == "Y" then f.nickname else "")
    ensures r.(anonymousYn := f.anonymousYn, nickname := f.nickname) == f
  {
    f.(anonymousYn := value, nickname := if value == "Y" then f.nickname else "")
  }

  /** `handlePriorityChange(value)`: only the priority changes. */
  function HandlePriorityChange(f: Form, value: string): (r: Form)
    ensures r.priorityCd == value
    ensures r.(priorityCd := f.priorityCd) == f
  {
    f.(priorityCd := value)
  }

  /** What the user can do to the open form. The nickname field is rendered
      only for an anonymous request, so typing into it is possible only
      then. */
  datatype Edit =
    | TypeTitle(v: string)
    | TypeContent(v: string)
    | ChooseCategory(v: string)
    | ChooseAnonymous(v: string)
    | TypeNickname(v: string)
    | ChoosePriority(v: string)
    | ChooseFiles(names: seq<string>)
    | Close

  function ApplyEdit(p: Popup, e: Edit): Popup {
    match e
    case TypeTitle(v) => p.(form := p.form.(ttl := v))
    case TypeContent(v) => p.(form := p.form.(cntn := v))
    case ChooseCategory(v) => p.(form := p.form.(categoryCd := v))
    case ChooseAnonymous(v) => p.(form := HandleAnonymousChange(p.form, v))
    case TypeNickname(v) => if p.form.anonymousYn == "Y" then p.(form := p.form.(nickname := v)) else p
    case ChoosePriority(v) => p.(form := HandlePriorityChange(p.form, v))
    case ChooseFiles(names) => p.(files := names)
    case Close => ResetForm(p)
  }

  /** A nickname is held only by an anonymous request. */
  predicate NicknameOnlyIfAnonymous(f: Form) {
    f.anonymousYn != "Y" ==> f.nickname == ""
  }

  /** Every edit keeps a non-anonymous form free of a nickname, so a
      request that is not anonymous never sends one. */
  lemma EditKeepsNicknameRule(p: Popup, e: Edit)
    requires NicknameOnlyIfAnonymous(p.form)
    ensures NicknameOnlyIfAnonymous(ApplyEdit(p, e).form)
  {
  }

  /* ------------------------------------------------------------------ */
  /* Validation                                                          */
  /* ------------------------------------------------------------------ */

  /** The four input errors, in the order they are checked. */
  datatype InputError = BlankTitle | BlankContent | NoCategory | NoNickname

  /** The alert text of each input error. */
  function Message(e: InputError): string {
    match e
    case BlankTitle => "제목을 입력해주세요."
    case BlankContent => "내용을 입력해주세요."
    case NoCategory => "카테고리를 선택해주세요."
    case NoNickname => "익명 상담의 경우 닉네임을 입력해주세요."
  }

  /** A field holding only white space counts as blank. */
  predicate Blank(s: string) {
    Trim(s) == ""
  }

  /** The checks at the start of `createConsultation`: the first one that
      fails is reported. */
  function Validate(f: Form): Option<InputError> {
    if Blank(f.ttl) then Some(BlankTitle)
    else if Blank(f.cntn) then Some(BlankContent)
    else if f.categoryCd == "" then Some(NoCategory)
    else if f.anonymousYn == "Y" && Blank(f.nickname) then Some(NoNickname)
    else None
  }

  /** A form the server is sent: a title, a content and a category, and a
      nickname when anonymous, whatever order they are checked in. */
  predicate Complete(f: Form) {
    !AllSpace(f.ttl) && !AllSpace(f.cntn) && f.categoryCd != ""
    && (f.anonymousYn == "Y" ==> !AllSpace(f.nickname))
  }

  /** Each error is reported exactly when its check fails and every earlier
      one passes, and no error is reported exactly for a complete form. */
  lemma ValidateMeaning(f: Form)
    ensures Validate(f) == Some(BlankTitle) <==> AllSpace(f.ttl)
    ensures Validate(f) == Some(BlankContent) <==> !AllSpace(f.ttl) && AllSpace(f.cntn)
    ensures Validate(f) == Some(NoCategory) <==> !AllSpace(f.ttl) && !AllSpace(f.cntn) && f.categoryCd == ""
    ensures Validate(f) == Some(NoNickname) <==>
      !AllSpace(f.ttl) && !AllSpace(f.cntn) && f.categoryCd != "" && f.anonymousYn == "Y" && AllSpace(f.nickname)
    ensures Validate(f).None? <==> Complete(f)
  {
  }

  /** A reset form fails on its title first. */
  lemma ResetFormIsIncomplete(p: Popup)
    ensures Validate(ResetForm(p).form) == Some(BlankTitle)
  {
    assert AllSpace("");
  }

  /* ------------------------------------------------------------------ */
  /* Submission                                                          */
  /* ------------------------------------------------------------------ */

  /** `urgentYn`: 'Y' for the urgent priority code, 'N' otherwise. */
  function UrgentYn(priorityCd: string): (r: string)
    ensures r == "Y" <==> priorityCd == "PRI001"
    ensures r == "N" <==> priorityCd != "PRI001"
  {
    if priorityCd == "PRI001" then "Y" else "N"
  }

  /** The fixed part of the body. */
  function Fields(f: Form): (r: seq<(string, string)>)
    ensures |r| == 7
  {
    [("ttl", f.ttl), ("cntn", f.cntn), ("categoryCd", f.categoryCd), ("anonymousYn", f.anonymousYn),
     ("nickname", f.nickname), ("priorityCd", f.priorityCd), ("urgentYn", UrgentYn(f.priorityCd))]
  }

  /** The multipart body: the six fields, the urgency flag, then one
      `files` entry per file. */
  function Payload(f: Form, files: seq<string>): (r: seq<(string, string)>)
    ensures |r| == 7 + |files|
  {
    Fields(f) + seq(|files|, i requires 0 <= i < |files| => ("files", files[i]))
  }

  /** `formData.get(name)`: the first entry of that name. */
  function Get(body: seq<(string, string)>, name: string): Option<string> {
    if body == [] then None
    else if body[0].0 == name then Some(body[0].1)
    else Get(body[1..], name)
  }

  /** `formData.getAll(name)`: every entry of that name, in order. */
  function GetAll(body: seq<(string, string)>, name: string): seq<string> {
    if body == [] then []
    else (if body[0].0 == name then [body[0].1] else []) + GetAll(body[1..], name)
  }

  /** The form read back from a body. */
  function FormOf(body: seq<(string, string)>): Form {
    Form(Get(body, "ttl").GetOr(""), Get(body, "cntn").GetOr(""), Get(body, "categoryCd").GetOr(""),
         Get(body, "anonymousYn").GetOr(""), Get(body, "nickname").GetOr(""), Get(body, "priorityCd").GetOr(""))
  }

  lemma {:induction false} GetAllFiles(files: seq<string>)
    ensures GetAll(seq(|files|, i requires 0 <= i < |files| => ("files", files[i])), "files") == files
    decreases |files|
  {
    if files != [] {
      var body := seq(|files|, i requires 0 <= i < |files| => ("files", files[i]));
      GetAllFiles(files[1..]);
      assert body[1..] == seq(|files| - 1, i requires 0 <= i < |files| - 1 => ("files", files[1..][i]));
      assert files == [files[0]] + files[1..];
    }
  }

  lemma {:induction false} GetAllConcat(a: seq<(string, string)>, b: seq<(string, string)>, name: string)
    ensures GetAll(a + b, name) == GetAll(a, name) + GetAll(b, name)
    decreases |a|
  {
    if a == [] {
      assert a + b == b;
    } else {
      GetAllConcat(a[1..], b, name);
      assert (a + b)[1..] == a[1..] + b;
      var h := if a[0].0 == name then [a[0].1] else [];
      assert h + (GetAll(a[1..], name) + GetAll(b, name)) == h + GetAll(a[1..], name) + GetAll(b, name);
    }
  }

  /** The first entry of a name is the one `Get` finds. */
  lemma {:induction false} GetAt(body: seq<(string, string)>, i: nat, name: string)
    requires i < |body| && body[i].0 == name
    requires forall j :: 0 <= j < i ==> body[j].0 != name
    ensures Get(body, name) == Some(body[i].1)
    decreases i
  {
    if i > 0 {
      GetAt(body[1..], i - 1, name);
    }
  }

  lemma {:induction false} GetAllAbsent(body: seq<(string, string)>, name: string)
    requires forall j :: 0 <= j < |body| ==> body[j].0 != name
    ensures GetAll(body, name) == []
    decreases |body|
  {
    if body != [] {
      GetAllAbsent(body[1..], name);
    }
  }

  /** The body carries the whole form and the urgency of its priority:
      reading the fields back gives the form. */
  lemma FormReadsBack(f: Form, files: seq<string>)
    ensures FormOf(Payload(f, files)) == f
    ensures Get(Payload(f, files), "urgentYn") == Some(if f.priorityCd == "PRI001" then "Y" else "N")
  {
    ReadField(f, files, 0, "ttl");
    ReadField(f, files, 1, "cntn");
    ReadField(f, files, 2, "categoryCd");
    ReadField(f, files, 3, "anonymousYn");
    ReadField(f, files, 4, "nickname");
    ReadField(f, files, 5, "priorityCd");
    ReadField(f, files, 6, "urgentYn");
  }

  /** Reading the field at position `i` of the fixed part. */
  lemma ReadField(f: Form, files: seq<string>, i: nat, name: string)
    requires i < 7 && Fields(f)[i].0 == name
    requires forall j :: 0 <= j < i ==> Fields(f)[j].0 != name
    ensures Get(Payload(f, files), name) == Some(Fields(f)[i].1)
  {
    var body := Payload(f, files);
    assert body[..7] == Fields(f);
    GetAt(body, i, name);
  }

  /** The files entries of the body are the files, in order. */
  lemma FilesReadBack(f: Form, files: seq<string>)
    ensures GetAll(Payload(f, files), "files") == files
  {
    var tail := seq(|files|, i requires 0 <= i < |files| => ("files", files[i]));
    assert Payload(f, files) == Fields(f) + tail;
    GetAllConcat(Fields(f), tail, "files");
    GetAllFiles(files);
    GetAllAbsent(Fields(f), "files");
  }

  /** The answer of `consultationAPI.createConsultation`: success, a
      failure with an optional message, or a thrown error. */
  datatype Answer = Succeeded | Refused(message: Option<string>) | Threw

  /** The outcome of pressing the submit button: the popup afterwards, the
      alert shown (title and text), the body sent if any, and whether
      `onClose` and `onSuccess` are called. */
  datatype Outcome = Outcome(
    popup: Popup,
    alert: (string, string),
    sent: Option<seq<(string, string)>>,
    closes: bool,
    callsOnSuccess: bool)

  /** `createConsultation()`. An incomplete form shows its input error and
      sends nothing. Otherwise the body is sent; a success resets the form,
      closes the popup and calls `onSuccess` when there is one; a refusal
      shows the server's message, or a default one when it is empty; an
      error shows a fixed text. `loading` is down again at the end. */
  function CreateConsultation(p: Popup, hasOnSuccess: bool, answer: Answer): Outcome
  {
    match Validate(p.form)
    case Some(e) => Outcome(p, ("입력 오류", Message(e)), None, false, false)
    case None =>
      var body := Payload(p.form, p.files);
      match answer
      case Succeeded =>
        Outcome(ResetForm(p).(loading := false), ("상담 신청 완료", "상담이 성공적으로 신청되었습니다."), Some(body), true, hasOnSuccess)
      case Refused(m) =>
        var text := if m.Some? && m.value != "" then m.value else "상담 신청에 실패했습니다.";
        Outcome(p.(loading := false), ("상담 신청 실패", text), Some(body), false, false)
      case Threw =>
        Outcome(p.(loading := false), ("상담 신청 오류", "상담 신청 중 오류가 발생했습니다."), Some(body), false, false)
  }

  /** An incomplete form sends nothing and changes nothing, whatever the
      server would have answered; the alert names the first failing
      check. */
  lemma IncompleteSendsNothing(p: Popup, hasOnSuccess: bool, answer: Answer)
    requires !Complete(p.form)
    ensures var o := CreateConsultation(p, hasOnSuccess, answer);
      o.sent.None? && o.popup == p && !o.closes && !o.callsOnSuccess
      && o.alert == ("입력 오류", Message(Validate(p.form).value))
  {
    ValidateMeaning(p.form);
  }

  /** A complete form is sent as its payload whatever the answer; only a
      success clears and closes the form, and it calls `onSuccess` exactly
      when there is one. Otherwise the user's input is kept for another
      try. */
  lemma CompleteIsSent(p: Popup, hasOnSuccess: bool, answer: Answer)
    requires Complete(p.form)
    ensures var o := CreateConsultation(p, hasOnSuccess, answer);
      o.sent == Some(Payload(p.form, p.files)) && !o.popup.loading
      && (o.closes <==> answer.Succeeded?)
      && (o.callsOnSuccess <==> answer.Succeeded? && hasOnSuccess)
      && (answer.Succeeded? ==> o.popup.form == EmptyForm() && o.popup.files == [])
      && (!answer.Succeeded? ==> o.popup.form == p.form && o.popup.files == p.files)
  {
    ValidateMeaning(p.form);
  }

  /** A refusal with an empty or missing message falls back to the default
      text. */
  lemma RefusalText(p: Popup, hasOnSuccess: bool, m: string)
    requires Complete(p.form)
    ensures CreateConsultation(p, hasOnSuccess, Refused(Some(m))).alert.1 == (if m == "" then "상담 신청에 실패했습니다." else m)
    ensures CreateConsultation(p, hasOnSuccess, Refused(None)) == CreateConsultation(p, hasOnSuccess, Refused(Some("")))
  {
    CompletePasses(p.form);
  }

  lemma CompletePasses(f: Form)
    requires Complete(f)
    ensures Validate(f).None?
  {
    ValidateMeaning(f);
  }

  /** Closing the popup and a successful request leave the same form. */
  lemma CloseIsReset(p: Popup)
    ensures ApplyEdit(p, Close).form == EmptyForm() && ApplyEdit(p, Close).files == []
    ensures ResetForm(ResetForm(p)) == ResetForm(p)
  {
  }
}
