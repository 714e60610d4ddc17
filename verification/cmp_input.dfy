/** The input component of `CmpInput.js`: a character filter chosen by an
    input-type name, the change and clear handlers, and the password
    visibility toggle. */
module CmpInput {
  import opened Optional

  /** The `inputType` prop. `Other` is any name the pattern table does not
      know; `Custom` carries the `allowedPattern` prop when it is a RegExp,
      seen through the one-character test the filter applies. */
  datatype InputType =
    | Eng
    | Kor
    | Num
    | EngNum
    | KorEngNum
    | All
    | Custom(pattern: Option<char -> bool>)
    | Other

  predicate IsLatin(c: char) {
    ('A' <= c <= 'Z') || ('a' <= c <= 'z')
  }

  predicate IsDecimal(c: char) {
    '0' <= c <= '9'
  }

  /** A precomposed Hangul syllable, U+AC00 to U+D7A3. */
  predicate IsHangul(c: char) {
    '\U{AC00}' <= c <= '\U{D7A3}'
  }

  /** The characters `.` does not match without the `s` flag. */
  predicate IsLineTerminator(c: char) {
    c == '\n' || c == '\r' || c == '\U{2028}' || c == '\U{2029}'
  }

  /** Whether the pattern of `inputTypePatterns` selected by `t` accepts the
      one-character string `c`. A custom type without a RegExp and an
      unknown name fall back to the `all` pattern, which accepts every
      character but a line terminator. */
  predicate Allowed(t: InputType, c: char) {
    match t
    case Eng => IsLatin(c)
    case Kor => IsHangul(c)
    case Num => IsDecimal(c)
    case EngNum => IsLatin(c) || IsDecimal(c)
    case KorEngNum => IsLatin(c) || IsHangul(c) || IsDecimal(c)
    case Custom(p) => if p.Some? then p.value(c) else !IsLineTerminator(c)
    case _ => !IsLineTerminator(c)
  }

  /** The characters of `s` that `t` accepts, in order. */
  function Filter(t: InputType, s: string): (r: string)
    ensures |r| <= |s|
    ensures forall i :: 0 <= i < |r| ==> Allowed(t, r[i])
  {
    if s == [] then []
    else
      (if Allowed(t, s[0]) then [s[0]] else []) + Filter(t, s[1..])
  }

  /** Filtering a concatenation filters each part, so typing more text
      never changes what was already kept. */
  lemma {:induction false} FilterConcat(t: InputType, a: string, b: string)
    ensures Filter(t, a + b) == Filter(t, a) + Filter(t, b)
    decreases |a|
  {
    if a != [] {
      var h := if Allowed(t, a[0]) then [a[0]] else [];
      assert (a + b)[1..] == a[1..] + b;
      FilterConcat(t, a[1..], b);
      assert (a + b)[0] == a[0];
      calc {
        Filter(t, a + b);
        h + Filter(t, (a + b)[1..]);
        h + Filter(t, a[1..] + b);
        h + (Filter(t, a[1..]) + Filter(t, b));
        { SeqAssoc(h, Filter(t, a[1..]), Filter(t, b)); }
        h + Filter(t, a[1..]) + Filter(t, b);
        Filter(t, a) + Filter(t, b);
      }
    } else {
      assert a + b == b;
    }
  }

  lemma SeqAssoc<T>(x: seq<T>, y: seq<T>, z: seq<T>)
    ensures x + (y + z) == x + y + z
  {
  }

  /** Filtering keeps every accepted character as often as it occurs and
      drops every other one. */
  lemma {:induction false} FilterCounts(t: InputType, s: string, c: char)
    ensures multiset(Filter(t, s))[c] == (if Allowed(t, c) then multiset(s)[c] else 0)
    decreases |s|
  {
    if s != [] {
      FilterCounts(t, s[1..], c);
      assert s == [s[0]] + s[1..];
    }
  }

  /** A string all of whose characters are accepted passes unchanged. */
  lemma {:induction false} FilterKeepsAllowed(t: InputType, s: string)
    requires forall i :: 0 <= i < |s| ==> Allowed(t, s[i])
    ensures Filter(t, s) == s
    decreases |s|
  {
    if s != [] {
      FilterKeepsAllowed(t, s[1..]);
      assert s == [s[0]] + s[1..];
    }
  }

  /** `filterValue(val)`: only a `text` input is filtered. */
  function FilterValue(inputKind: string, t: InputType, v: string): (r: string)
    ensures inputKind != "text" ==> r == v
    ensures inputKind == "text" ==> r == Filter(t, v)
  {
    if inputKind != "text" then v else Filter(t, v)
  }

  /** Filtering twice is filtering once, and a filtered value is never
      longer than the input. */
  lemma FilterValueIdempotent(inputKind: string, t: InputType, v: string)
    ensures FilterValue(inputKind, t, FilterValue(inputKind, t, v)) == FilterValue(inputKind, t, v)
    ensures |FilterValue(inputKind, t, v)| <= |v|
  {
    if inputKind == "text" {
      FilterKeepsAllowed(t, Filter(t, v));
    }
  }

  /** Names a type's pattern for the five fixed filters: 'num' keeps only
      digits, 'eng' only Latin letters, 'kor' only Hangul syllables, and
      'all' drops only line terminators. */
  lemma PatternMeanings(c: char)
    ensures Allowed(Num, c) <==> '0' <= c <= '9'
    ensures Allowed(Eng, c) <==> ('A' <= c <= 'Z') || ('a' <= c <= 'z')
    ensures Allowed(Kor, c) <==> '\U{AC00}' <= c <= '\U{D7A3}'
    ensures Allowed(All, c) == Allowed(Other, c) == Allowed(Custom(None), c)
    ensures !Allowed(All, '\n')
  {
  }

  /** The component's own state. */
  datatype Input = Input(value: string, showPassword: bool)

  /** The props the handlers read. */
  datatype Props = Props(inputKind: string, inputType: InputType, hasOnChange: bool, clearable: bool)

  /** The state after mounting, or after the `value` prop changes: the
      prop's value, or "" for null or undefined. */
  function Sync(st: Input, propValue: Option<string>): (r: Input)
    ensures r.value == (if propValue.Some? then propValue.value else "")
    ensures r.showPassword == st.showPassword
  {
    st.(value := if propValue.Some? then propValue.value else "")
  }

  /** `handleChange(e)`: stores the filtered value and forwards the same
      value to `onChange` when there is one. The second component is the
      value forwarded, if any. */
  function HandleChange(p: Props, st: Input, typed: string): (r: (Input, Option<string>))
    ensures r.0.value == FilterValue(p.inputKind, p.inputType, typed)
    ensures r.0.showPassword == st.showPassword
    ensures r.1.Some? <==> p.hasOnChange
    ensures r.1.Some? ==> r.1.value == r.0.value
  {
    var v := FilterValue(p.inputKind, p.inputType, typed);
    (st.(value := v), if p.hasOnChange then Some(v) else None)
  }

  /** `handleClear()`: empties the value and forwards "". */
  function HandleClear(p: Props, st: Input): (r: (Input, Option<string>))
    ensures r.0.value == "" && r.0.showPassword == st.showPassword
    ensures r.1.Some? <==> p.hasOnChange
    ensures r.1.Some? ==> r.1.value == ""
  {
    (st.(value := ""), if p.hasOnChange then Some("") else None)
  }

  /** Re-sending the value the component shows changes nothing: the
      stored value is a fixed point of the filter. */
  lemma ChangeToShownValue(p: Props, st: Input, typed: string)
    ensures var st1 := HandleChange(p, st, typed).0;
      HandleChange(p, st1, st1.value).0 == st1
  {
    FilterValueIdempotent(p.inputKind, p.inputType, typed);
  }

  /** Clearing is the same as typing the empty string. */
  lemma ClearIsEmptyChange(p: Props, st: Input)
    ensures HandleClear(p, st) == HandleChange(p, st, "")
  {
  }

  /** The eye button. */
  function TogglePassword(st: Input): (r: Input)
    ensures r.showPassword != st.showPassword && r.value == st.value
  {
    st.(showPassword := !st.showPassword)
  }

  /** The `type` the `<input>` is rendered with: a password field shows as
      text exactly while the password is shown. */
  function RenderedType(inputKind: string, showPassword: bool): (r: string)
    ensures inputKind == "password" ==> (r == "text" <==> showPassword)
    ensures inputKind == "password" ==> (r == "password" <==> !showPassword)
    ensures inputKind != "password" ==> r == inputKind
  {
    if inputKind == "password" then (if showPassword then "text" else "password") else inputKind
  }

  /** Toggling twice shows the field as before. */
  lemma ToggleTwice(inputKind: string, st: Input)
    ensures TogglePassword(TogglePassword(st)) == st
    ensures RenderedType(inputKind, TogglePassword(TogglePassword(st)).showPassword)
      == RenderedType(inputKind, st.showPassword)
  {
  }

  /** The clear button shows when the input is clearable and not empty. */
  predicate ClearButtonShown(p: Props, st: Input) {
    p.clearable && st.value != ""
  }

  /** After a clear the clear button is gone. */
  lemma ClearHidesButton(p: Props, st: Input)
    ensures !ClearButtonShown(p, HandleClear(p, st).0)
  {
  }
}
