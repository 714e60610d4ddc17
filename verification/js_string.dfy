/** The parts of the JavaScript string library that the formatters, the
    validators and the stores rely on: `substring`, `substr`, `trim`,
    `split`/`join`, `includes`, `replaceAll` of one character, `Number()` on
    strings, `String()` on integers, `padStart`, and the `<` order on strings.

    Strings are sequences of Unicode code points here, where JavaScript uses
    UTF-16 code units; the two agree on every character of the Basic
    Multilingual Plane, which is all the code in this model handles. */
module JsString {
  import opened Optional

  /* ------------------------------------------------------------------ */
  /* Slicing                                                             */

  function Clamp(x: int, lo: int, hi: int): (r: int)
    requires lo <= hi
    ensures lo <= r <= hi
    ensures lo <= x <= hi ==> r == x
    ensures x < lo ==> r == lo
    ensures hi < x ==> r == hi
  {
    if x < lo then lo else if x > hi then hi else x
  }

  /** `s.substring(a, b)`: both bounds are clamped into [0, |s|] and swapped
      when the first exceeds the second. */
  function Substring(s: string, a: int, b: int): (r: string)
    ensures 0 <= a <= b <= |s| ==> r == s[a..b]
    ensures b <= a && 0 <= b && a <= |s| ==> r == s[b..a]
    ensures |r| <= |s|
  {
    var x := Clamp(a, 0, |s|);
    var y := Clamp(b, 0, |s|);
    if x <= y then s[x..y] else s[y..x]
  }

  /** `s.substring(a)`: from `a` (clamped) to the end. */
  function SubstringFrom(s: string, a: int): (r: string)
    ensures 0 <= a <= |s| ==> r == s[a..]
    ensures a < 0 ==> r == s
    ensures |s| < a ==> r == []
  {
    Substring(s, a, |s|)
  }

  /** The start position `substr` uses: a negative start counts from the end. */
  function SubstrStart(size: int, start: int): (st: int)
    requires 0 <= size
    ensures 0 <= st <= size
  {
    if start < 0 then (if size + start < 0 then 0 else size + start)
    else if start > size then size else start
  }

  /** `s.substr(start, len)`. */
  function Substr(s: string, start: int, len: int): (r: string)
    ensures 0 <= start && 0 <= len && start + len <= |s| ==> r == s[start..start + len]
    ensures |s| <= start ==> r == []
    ensures len <= 0 ==> r == []
  {
    var st := SubstrStart(|s|, start);
    var l := Clamp(len, 0, |s| - st);
    s[st..st + l]
  }

  /** `s.substr(start)`. */
  function SubstrFrom(s: string, start: int): (r: string)
    ensures 0 <= start <= |s| ==> r == s[start..]
    ensures |s| <= start ==> r == []
  {
    s[SubstrStart(|s|, start)..]
  }

  /* ------------------------------------------------------------------ */
  /* Whitespace and trim                                                 */

  /** The characters `String.prototype.trim` removes: WhiteSpace (tab,
      vertical tab, form feed, space, no-break space, the byte order mark and
      the other space separators) and LineTerminator. */
  predicate IsJsSpace(c: char) {
    || c == '\t' || c == '\U{000B}' || c == '\U{000C}' || c == ' ' || c == '\U{00A0}' || c == '\U{FEFF}'
    || c == '\U{1680}' || ('\U{2000}' <= c <= '\U{200A}') || c == '\U{202F}' || c == '\U{205F}' || c == '\U{3000}'
    || c == '\n' || c == '\r' || c == '\U{2028}' || c == '\U{2029}'
  }

  predicate AllSpace(s: string) {
    forall i :: 0 <= i < |s| ==> IsJsSpace(s[i])
  }

  function TrimStart(s: string): (r: string)
    ensures |r| <= |s| && r == s[|s| - |r|..]
    ensures AllSpace(s[..|s| - |r|])
    ensures r == [] || !IsJsSpace(r[0])
  {
    if |s| > 0 && IsJsSpace(s[0]) then
      var r := TrimStart(s[1..]);
      assert s[1..][..|s| - 1 - |r|] == s[1..|s| - |r|];
      r
    else s
  }

  function TrimEnd(s: string): (r: string)
    ensures |r| <= |s| && r == s[..|r|]
    ensures AllSpace(s[|r|..])
    ensures r == [] || !IsJsSpace(r[|r| - 1])
  {
    if |s| > 0 && IsJsSpace(s[|s| - 1]) then
      var t := s[..|s| - 1];
      var r := TrimEnd(t);
      assert AllSpace(s[|r|..]) by {
        forall i | 0 <= i < |s| - |r| ensures IsJsSpace(s[|r|..][i]) {
          if i < |t| - |r| {
            assert s[|r|..][i] == t[|r|..][i];
          }
        }
      }
      r
    else s
  }

  /** `s.trim()`. */
  function Trim(s: string): (r: string)
    ensures |r| <= |s|
    ensures r == [] <==> AllSpace(s)
    ensures r != [] ==> !IsJsSpace(r[0]) && !IsJsSpace(r[|r| - 1])
  {
    var t := TrimStart(s);
    var r := TrimEnd(t);
    assert r == [] ==> s == s[..|s| - |t|] + t && AllSpace(t);
    assert r != [] ==> t != [] && !IsJsSpace(t[0]) && r[0] == t[0];
    r
  }

  /* ------------------------------------------------------------------ */
  /* Searching, splitting, joining                                       */

  predicate OccursAt(s: string, t: string, i: int) {
    0 <= i && i + |t| <= |s| && s[i..i + |t|] == t
  }

  /** `s.indexOf(t, from)`, with None for -1. */
  function IndexOfFrom(s: string, t: string, from: nat): (r: Option<nat>)
    decreases |s| - from
    ensures r.Some? ==> from <= r.value && OccursAt(s, t, r.value)
    ensures r.Some? ==> forall k :: from <= k < r.value ==> !OccursAt(s, t, k)
    ensures r.None? ==> forall k :: from <= k ==> !OccursAt(s, t, k)
  {
    if from + |t| > |s| then None
    else if s[from..from + |t|] == t then Some(from)
    else IndexOfFrom(s, t, from + 1)
  }

  function IndexOf(s: string, t: string): (r: Option<nat>)
    ensures r.Some? ==> OccursAt(s, t, r.value) && forall k :: 0 <= k < r.value ==> !OccursAt(s, t, k)
    ensures r.None? ==> forall k :: !OccursAt(s, t, k)
  {
    IndexOfFrom(s, t, 0)
  }

  /** `s.includes(t)`. */
  function Includes(s: string, t: string): (r: bool)
    ensures r <==> exists k :: OccursAt(s, t, k)
  {
    IndexOf(s, t).Some?
  }

  /** `s.split(sep)` for a non-empty separator: the pieces between the
      leftmost non-overlapping occurrences of `sep`. */
  function Split(s: string, sep: string): (parts: seq<string>)
    requires |sep| > 0
    decreases |s|
    ensures |parts| >= 1
  {
    match IndexOf(s, sep)
    case None => [s]
    case Some(j) => [s[..j]] + Split(s[j + |sep|..], sep)
  }

  /** `parts.join(sep)`. */
  function Join(parts: seq<string>, sep: string): string {
    if |parts| == 0 then []
    else if |parts| == 1 then parts[0]
    else parts[0] + sep + Join(parts[1..], sep)
  }

  /** Splitting and re-joining with the same separator gives the string back. */
  lemma {:induction false} SplitJoin(s: string, sep: string)
    requires |sep| > 0
    decreases |s|
    ensures Join(Split(s, sep), sep) == s
  {
    match IndexOf(s, sep)
    case None =>
    case Some(j) =>
      SplitJoin(s[j + |sep|..], sep);
      SplitJoinStep(s, sep, j);
  }

  /** One step of `SplitJoin`: the first piece, the separator and the
      re-joined rest make up the string. */
  lemma SplitJoinStep(s: string, sep: string, j: nat)
    requires |sep| > 0 && IndexOf(s, sep) == Some(j)
    requires Join(Split(s[j + |sep|..], sep), sep) == s[j + |sep|..]
    ensures Join(Split(s, sep), sep) == s
  {
    var p := Split(s[j + |sep|..], sep);
    assert Split(s, sep) == [s[..j]] + p;
    JoinCons(s[..j], p, sep);
    assert OccursAt(s, sep, j);
    SliceThree(s, j, j + |sep|);
    assert s[j..j + |sep|] == sep;
  }

  lemma SliceThree<T>(s: seq<T>, j: int, k: int)
    requires 0 <= j <= k <= |s|
    ensures s == s[..j] + s[j..k] + s[k..]
  {
    assert s[..j] + s[j..k] == s[..k];
  }

  lemma JoinCons(h: string, p: seq<string>, sep: string)
    requires |p| >= 1
    ensures Join([h] + p, sep) == h + sep + Join(p, sep)
  {
    assert ([h] + p)[1..] == p;
  }

  /** No piece of a split contains the separator. */
  lemma {:induction false} SplitPiecesFree(s: string, sep: string)
    requires |sep| > 0
    decreases |s|
    ensures forall i :: 0 <= i < |Split(s, sep)| ==> !Includes(Split(s, sep)[i], sep)
  {
    match IndexOf(s, sep)
    case None =>
    case Some(j) =>
      var rest := s[j + |sep|..];
      SplitPiecesFree(rest, sep);
      var head := s[..j];
      forall k | OccursAt(head, sep, k) ensures false {
        assert s[k..k + |sep|] == head[k..k + |sep|];
        assert OccursAt(s, sep, k);
      }
      assert Split(s, sep) == [head] + Split(rest, sep);
  }

  /** The converse of `SplitJoin` for a one-character separator: joining
      pieces that do not contain it and splitting again gives the pieces
      back. */
  lemma {:induction false} JoinSplit(ps: seq<string>, c: char)
    requires |ps| >= 1
    requires forall i :: 0 <= i < |ps| ==> c !in ps[i]
    decreases |ps|
    ensures Split(Join(ps, [c]), [c]) == ps
  {
    var h := ps[0];
    forall k | 0 <= k < |h| ensures !OccursAt(h, [c], k) {
      assert h[k] != c;
    }
    if |ps| == 1 {
      assert IndexOf(h, [c]).None?;
    } else {
      var rest := Join(ps[1..], [c]);
      var s := h + [c] + rest;
      assert Join(ps, [c]) == s;
      forall k | 0 <= k < |h| ensures !OccursAt(s, [c], k) {
        assert s[k] == h[k];
      }
      assert OccursAt(s, [c], |h|) by { assert s[|h|..|h| + 1] == [c]; }
      assert IndexOf(s, [c]) == Some(|h|);
      assert s[..|h|] == h;
      assert s[|h| + 1..] == rest;
      JoinSplit(ps[1..], c);
      assert ps == [h] + ps[1..];
    }
  }

  /* ------------------------------------------------------------------ */
  /* Removing characters                                                 */

  /** `s.replaceAll(c, "")` for a one-character pattern. */
  function RemoveChar(s: string, c: char): (r: string)
    ensures |r| <= |s|
    ensures forall i :: 0 <= i < |r| ==> r[i] != c
    ensures (forall i :: 0 <= i < |s| ==> s[i] != c) ==> r == s
  {
    if |s| == 0 then []
    else (if s[0] == c then [] else [s[0]]) + RemoveChar(s[1..], c)
  }

  lemma {:induction false} RemoveCharConcat(a: string, b: string, c: char)
    ensures RemoveChar(a + b, c) == RemoveChar(a, c) + RemoveChar(b, c)
  {
    if |a| == 0 {
      assert a + b == b;
    } else {
      assert (a + b)[1..] == a[1..] + b;
      RemoveCharConcat(a[1..], b, c);
    }
  }

  predicate IsDigit(c: char) {
    '0' <= c <= '9'
  }

  predicate AllDigits(s: string) {
    forall i :: 0 <= i < |s| ==> IsDigit(s[i])
  }

  /** `s.replace(/[^0-9]/g, "")`. */
  function KeepDigits(s: string): (r: string)
    ensures |r| <= |s|
    ensures AllDigits(r)
    ensures AllDigits(s) ==> r == s
  {
    if |s| == 0 then []
    else (if IsDigit(s[0]) then [s[0]] else []) + KeepDigits(s[1..])
  }

  /* ------------------------------------------------------------------ */
  /* Numbers                                                             */

  function DigitValue(c: char): (v: nat)
    requires IsDigit(c)
    ensures v <= 9
  {
    (c as int) - ('0' as int)
  }

  /** The value of a string of decimal digits ("" is 0). */
  function DigitsValue(s: string): (v: nat)
    requires AllDigits(s)
  {
    if |s| == 0 then 0 else DigitsValue(s[..|s| - 1]) * 10 + DigitValue(s[|s| - 1])
  }

  /** A JavaScript number as far as this model needs one. */
  datatype JsNumber = NaN | Int(v: int)

  /** `Number(s)` for a string: surrounding whitespace is ignored, the empty
      string is 0, an optional sign may precede decimal digits; everything
      else is NaN in this model. A string of digits needs no trimming and is
      read directly; `ToNumberTrims` shows this is the same value. */
  function ToNumber(s: string): (n: JsNumber)
    ensures AllDigits(s) ==> n == Int(if |s| == 0 then 0 else DigitsValue(s))
  {
    if AllDigits(s) then Int(if |s| == 0 then 0 else DigitsValue(s)) else NumberOf(Trim(s))
  }

  /** `Number(s)` is the value of the trimmed text. */
  lemma ToNumberTrims(s: string)
    ensures ToNumber(s) == NumberOf(Trim(s))
  {
    if AllDigits(s) {
      TrimDigits(s);
    }
  }

  lemma TrimDigits(s: string)
    requires AllDigits(s)
    ensures Trim(s) == s
  {
    if |s| > 0 {
      assert !IsJsSpace(s[0]) && !IsJsSpace(s[|s| - 1]);
      assert TrimStart(s) == s;
    }
  }

  /** The numeric value of an already trimmed string. */
  function NumberOf(t: string): (n: JsNumber)
    ensures AllDigits(t) ==> n == Int(if |t| == 0 then 0 else DigitsValue(t))
  {
    if |t| == 0 then Int(0)
    else if t[0] == '-' && |t| > 1 && AllDigits(t[1..]) then Int(0 - DigitsValue(t[1..]) as int)
    else if t[0] == '+' && |t| > 1 && AllDigits(t[1..]) then Int(DigitsValue(t[1..]))
    else if AllDigits(t) then Int(DigitsValue(t))
    else NaN
  }

  /** A lone Latin letter is not a number. */
  lemma LetterIsNaN(c: char)
    requires 'a' <= c <= 'z'
    ensures ToNumber([c]) == NaN
  {
    var s := [c];
    assert !IsDigit(s[0]) && !IsJsSpace(s[0]);
    assert TrimStart(s) == s;
    assert TrimEnd(s) == s;
  }

  /** ToIntegerOrInfinity, which sends NaN to 0. */
  function IntOrZero(n: JsNumber): int {
    match n
    case NaN => 0
    case Int(v) => v
  }

  function DigitChar(d: nat): (c: char)
    requires d <= 9
    ensures IsDigit(c) && DigitValue(c) == d
  {
    ('0' as int + d) as char
  }

  /** The decimal digits of a natural number, without leading zeros. */
  function NatString(n: nat): (s: string)
    ensures |s| >= 1 && AllDigits(s) && DigitsValue(s) == n
  {
    if n < 10 then [DigitChar(n)]
    else
      var p := NatString(n / 10);
      var s := p + [DigitChar(n % 10)];
      assert s[..|s| - 1] == p;
      s
  }

  /** `String(n)` for an integer. */
  function IntString(n: int): (s: string)
    ensures n >= 0 ==> s == NatString(n)
    ensures n < 0 ==> s == "-" + NatString(-n)
  {
    if n >= 0 then NatString(n) else "-" + NatString(-n)
  }

  /** `s.padStart(n, c)` with a one-character filler. */
  function PadStart(s: string, n: int, c: char): (r: string)
    ensures |s| >= n ==> r == s
    ensures |s| < n ==> |r| == n && r[n - |s|..] == s
    ensures forall i :: 0 <= i < |r| - |s| ==> r[i] == c
  {
    if |s| >= n then s else seq(n - |s|, _ => c) + s
  }

  /* ------------------------------------------------------------------ */
  /* The relational operators on strings                                 */

  /** `a < b` on two strings: lexicographic, a proper prefix is smaller. */
  predicate StrLt(a: string, b: string)
    decreases |a|
  {
    if |b| == 0 then false
    else if |a| == 0 then true
    else if a[0] != b[0] then a[0] < b[0]
    else StrLt(a[1..], b[1..])
  }

  lemma {:induction false} StrLtIrreflexive(a: string)
    ensures !StrLt(a, a)
  {
    if |a| > 0 { StrLtIrreflexive(a[1..]); }
  }

  lemma {:induction false} StrLtTrichotomy(a: string, b: string)
    ensures StrLt(a, b) || StrLt(b, a) || a == b
    ensures !(StrLt(a, b) && StrLt(b, a))
  {
    if |a| > 0 && |b| > 0 && a[0] == b[0] {
      StrLtTrichotomy(a[1..], b[1..]);
      if a[1..] == b[1..] {
        assert a == [a[0]] + a[1..] && b == [b[0]] + b[1..];
      }
    }
  }

  lemma {:induction false} StrLtTransitive(a: string, b: string, c: string)
    requires StrLt(a, b) && StrLt(b, c)
    ensures StrLt(a, c)
  {
    if |a| > 0 && a[0] == b[0] && b[0] == c[0] {
      StrLtTransitive(a[1..], b[1..], c[1..]);
    }
  }

  /** Comparing two concatenations whose first parts have equal length
      compares the first parts, and the second parts only on a tie. */
  lemma {:induction false} StrLtConcat(a1: string, a2: string, b1: string, b2: string)
    requires |a1| == |b1|
    ensures StrLt(a1 + a2, b1 + b2) <==> StrLt(a1, b1) || (a1 == b1 && StrLt(a2, b2))
    decreases |a1|
  {
    if |a1| == 0 {
      assert a1 + a2 == a2 && b1 + b2 == b2;
    } else {
      assert (a1 + a2)[0] == a1[0] && (b1 + b2)[0] == b1[0];
      assert (a1 + a2)[1..] == a1[1..] + a2 && (b1 + b2)[1..] == b1[1..] + b2;
      StrLtConcat(a1[1..], a2, b1[1..], b2);
      if a1[0] == b1[0] && a1[1..] == b1[1..] {
        assert a1 == [a1[0]] + a1[1..] && b1 == [b1[0]] + b1[1..];
      }
    }
  }

  /** On digit strings of one length, `<` is the order of their values. */
  lemma {:induction false} StrLtDigits(a: string, b: string)
    requires |a| == |b| && AllDigits(a) && AllDigits(b)
    ensures StrLt(a, b) <==> DigitsValue(a) < DigitsValue(b)
    ensures a == b <==> DigitsValue(a) == DigitsValue(b)
    decreases |a|
  {
    if |a| > 0 {
      var n := |a| - 1;
      var a', b' := a[..n], b[..n];
      assert AllDigits(a') && AllDigits(b');
      StrLtDigits(a', b');
      StrLtConcat(a', [a[n]], b', [b[n]]);
      assert a == a' + [a[n]] && b == b' + [b[n]];
      assert StrLt([a[n]], [b[n]]) <==> a[n] < b[n];
    }
  }
}
