/** The two helpers of `utils.js` that compute something: `FormattedLabel`,
    which turns `<br/>` markers into line breaks, and
    `ConvertToDataAttributes`, which prefixes style keys with `data-`. */
module Utils {
  import opened Optional
  import opened JsString

  const BrTag: string := "<br/>"
  const DataPrefix: string := "data-"

  /** One `React.Fragment` of a formatted label: a line of text, followed by
      a `<br />` element unless it is the last line. */
  datatype Line = Line(text: string, br: bool)

  /** The argument of `FormattedLabel`: JavaScript tells `undefined` from
      `null`, and only the first is guarded. */
  datatype Label = Undefined | Null | Text(s: string)

  /** What `FormattedLabel` gives back: the `null` element, a list of
      fragments, or the TypeError thrown by calling `split` on `null`. */
  datatype Rendered = NullElement | Fragments(lines: seq<Line>) | TypeError

  /** `FormattedLabel(label)`: null for an undefined label, a TypeError for
      a null one, otherwise one fragment per `<br/>`-separated piece. */
  function FormattedLabel(caption: Label): (r: Rendered)
    ensures r.NullElement? <==> caption.Undefined?
    ensures r.TypeError? <==> caption.Null?
    ensures r.Fragments? <==> caption.Text?
  {
    match caption
    case Undefined => NullElement
    case Null => TypeError
    case Text(s) =>
      var parts := Split(s, BrTag);
      Fragments(seq(|parts|, i requires 0 <= i < |parts| => Line(parts[i], i != |parts| - 1)))
  }

  /** The text of the fragments, with each line break written back as the
      marker it came from. */
  function Unformat(lines: seq<Line>): string {
    Join(seq(|lines|, i requires 0 <= i < |lines| => lines[i].text), BrTag)
  }

  /** A label of `n` pieces gives `n` lines and `n - 1` line breaks, one
      after every line but the last, and the lines read back as the label. */
  lemma FormattedLabelShape(s: string)
    ensures var lines := FormattedLabel(Text(s)).lines;
      |lines| == |Split(s, BrTag)| >= 1
      && (forall i :: 0 <= i < |lines| ==> lines[i].text == Split(s, BrTag)[i])
      && (forall i :: 0 <= i < |lines| ==> (lines[i].br <==> i < |lines| - 1))
      && Unformat(lines) == s
  {
    var lines := FormattedLabel(Text(s)).lines;
    var parts := Split(s, BrTag);
    assert seq(|lines|, i requires 0 <= i < |lines| => lines[i].text) == parts;
    SplitJoin(s, BrTag);
  }

  /** Counts the line breaks of a formatted label. */
  function Breaks(lines: seq<Line>): (n: nat)
    ensures n <= |lines|
  {
    if lines == [] then 0 else (if lines[0].br then 1 else 0) + Breaks(lines[1..])
  }

  /** Exactly one fewer line break than lines. */
  lemma BreaksCount(s: string)
    ensures Breaks(FormattedLabel(Text(s)).lines) == |FormattedLabel(Text(s)).lines| - 1
  {
    var lines := FormattedLabel(Text(s)).lines;
    FormattedLabelShape(s);
    BreaksAllButLast(lines);
  }

  lemma {:induction false} BreaksAllButLast(lines: seq<Line>)
    requires |lines| >= 1
    requires forall i :: 0 <= i < |lines| ==> (lines[i].br <==> i < |lines| - 1)
    ensures Breaks(lines) == |lines| - 1
    decreases |lines|
  {
    if |lines| > 1 {
      var t := lines[1..];
      assert forall i :: 0 <= i < |t| ==> (t[i].br <==> i < |t| - 1) by {
        forall i | 0 <= i < |t| ensures t[i] == lines[i + 1] {}
      }
      BreaksAllButLast(t);
    }
  }

  /* ------------------------------------------------------------------ */
  /* ConvertToDataAttributes                                             */
  /* ------------------------------------------------------------------ */

  /** The own enumerable keys of an object with their values, in the order
      `Object.keys` lists them. */
  type Entries<V> = seq<(string, V)>

  /** Keys of an object are distinct. */
  predicate DistinctKeys<V>(e: Entries<V>) {
    forall i, j :: 0 <= i < j < |e| ==> e[i].0 != e[j].0
  }

  /** `ConvertToDataAttributes(styles)`: each key prefixed with `data-`,
      values unchanged. `None` stands for a falsy argument, which gives the
      empty object. */
  function ConvertToDataAttributes<V>(styles: Option<Entries<V>>): (r: Entries<V>)
    ensures styles.None? ==> r == []
    ensures styles.Some? ==> |r| == |styles.value|
  {
    match styles
    case None => []
    case Some(e) => seq(|e|, i requires 0 <= i < |e| => (DataPrefix + e[i].0, e[i].1))
  }

  /** Removing the prefix again. */
  function StripDataPrefix<V>(e: Entries<V>): Entries<V> {
    seq(|e|, i requires 0 <= i < |e| => (if DataPrefix <= e[i].0 then e[i].0[|DataPrefix|..] else e[i].0, e[i].1))
  }

  /** Every key of the result is a `data-` key whose value is the value of
      the key it was made from, and stripping the prefix gives the styles
      back, so no key is lost or merged. */
  lemma DataAttributesRoundTrip<V>(e: Entries<V>)
    ensures var r := ConvertToDataAttributes(Some(e));
      (forall i :: 0 <= i < |r| ==> r[i] == (DataPrefix + e[i].0, e[i].1))
      && StripDataPrefix(r) == e
      && (DistinctKeys(e) <==> DistinctKeys(r))
  {
    var r := ConvertToDataAttributes(Some(e));
    forall i | 0 <= i < |r| ensures StripDataPrefix(r)[i] == e[i] {
      assert DataPrefix <= r[i].0;
      assert r[i].0[|DataPrefix|..] == e[i].0;
    }
  }

  /** The falsy argument and the empty object give the same result. */
  lemma EmptyStyles<V>()
    ensures ConvertToDataAttributes<V>(None) == ConvertToDataAttributes<V>(Some([])) == []
  {
  }
}
