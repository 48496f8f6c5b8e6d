/** The `html` tagged-template helper of `packages/core/utils.ts`: the
    literal chunks are joined left to right, each followed by the value in
    the same position rendered with `values[i] || ""`. Nothing is escaped.

    Values are the JavaScript values a handler interpolates. Numbers are
    modelled as integers; an object stands for whatever its `toString`
    gives. */
module Template {
  import opened Text

  datatype Value =
    | Str(s: string)
    | Int(i: int)
    | Bool(b: bool)
    | Null
    | Undefined
    | Obj(text: string)

  /** JavaScript falsiness: `0`, `false`, `""`, `null` and `undefined`.
      Every object is truthy, even one whose text is empty. */
  predicate Falsy(v: Value) {
    match v
    case Str(s) => s == []
    case Int(i) => i == 0
    case Bool(b) => !b
    case Null => true
    case Undefined => true
    case Obj(_) => false
  }

  /** `String(i)` for an integer. */
  function IntToString(i: int): (s: string)
    ensures s != []
    ensures i >= 0 ==> s == NatToString(i)
    ensures i < 0 ==> s == "-" + NatToString(-i)
  {
    if i >= 0 then NatToString(i) else "-" + NatToString(-i)
  }

  /** `values[i] || ""`, then string concatenation: a falsy value becomes
      the empty string and any other value its string form. */
  function Render(v: Value): (r: string)
    ensures Falsy(v) ==> r == []
    ensures v.Str? && !Falsy(v) ==> r == v.s
    ensures v.Bool? && v.b ==> r == "true"
    ensures v.Int? && v.i != 0 ==> r != [] && r == IntToString(v.i) && (v.i > 0 ==> r == NatToString(v.i))
  {
    if Falsy(v) then []
    else
      match v
      case Str(s) => s
      case Int(i) => IntToString(i)
      case Bool(_) => "true"
      case Obj(t) => t
      case _ => []
  }

  /** `values[i]`: reading past the end gives `undefined`. */
  function ValueAt(values: seq<Value>, i: nat): (v: Value)
    ensures i < |values| ==> v == values[i]
    ensures i >= |values| ==> v == Undefined
  {
    if i < |values| then values[i] else Undefined
  }

  /** The text `reduce` appends for chunk `i`. */
  function Piece(strings: seq<string>, values: seq<Value>, i: nat): string
    requires i < |strings|
  {
    strings[i] + Render(ValueAt(values, i))
  }

  /** The accumulator of `strings.reduce` after its first `n` steps. */
  function Fold(strings: seq<string>, values: seq<Value>, n: nat): string
    requires n <= |strings|
  {
    if n == 0 then "" else Fold(strings, values, n - 1) + Piece(strings, values, n - 1)
  }

  /** `html(strings, ...values)` */
  function Html(strings: seq<string>, values: seq<Value>): string {
    Fold(strings, values, |strings|)
  }

  /** The same reduction, written as the loop `reduce` runs. */
  method HtmlLoop(strings: seq<string>, values: seq<Value>) returns (result: string)
    ensures result == Html(strings, values)
    ensures |strings| == 1 && values == [] ==> result == strings[0]
  {
    result := "";
    var i := 0;
    while i < |strings|
      invariant 0 <= i <= |strings|
      invariant result == Fold(strings, values, i)
    {
      result := result + strings[i] + Render(ValueAt(values, i));
      i := i + 1;
    }
  }

  /** The reference reading of a template: the first chunk, the first
      value's text, then the rest of the template with the rest of the
      values. */
  function Interleave(strings: seq<string>, values: seq<Value>): string
    decreases |strings|
  {
    if strings == [] then ""
    else strings[0] + Render(ValueAt(values, 0)) + Interleave(strings[1..], if values == [] then [] else values[1..])
  }

  lemma {:induction false} FoldShift(strings: seq<string>, values: seq<Value>, n: nat)
    requires 1 <= n <= |strings|
    ensures Fold(strings, values, n)
         == Piece(strings, values, 0) + Fold(strings[1..], if values == [] then [] else values[1..], n - 1)
  {
    var rest := if values == [] then [] else values[1..];
    if n > 1 {
      FoldShift(strings, values, n - 1);
      PieceShift(strings, values, n - 1);
    }
  }

  lemma PieceShift(strings: seq<string>, values: seq<Value>, i: nat)
    requires 1 <= i < |strings|
    ensures Piece(strings, values, i) == Piece(strings[1..], if values == [] then [] else values[1..], i - 1)
  {
    assert strings[1..][i - 1] == strings[i];
  }

  /** The left fold `reduce` performs yields the chunks and rendered values
      interleaved in order. */
  lemma {:induction false} HtmlIsInterleave(strings: seq<string>, values: seq<Value>)
    ensures Html(strings, values) == Interleave(strings, values)
    decreases |strings|
  {
    if strings != [] {
      var rest := if values == [] then [] else values[1..];
      FoldShift(strings, values, |strings|);
      HtmlIsInterleave(strings[1..], rest);
    }
  }

  /** Adding a chunk appends it and the value in its position; the output
      written so far is kept. */
  lemma HtmlAppend(strings: seq<string>, s: string, values: seq<Value>)
    ensures Html(strings + [s], values) == Html(strings, values) + s + Render(ValueAt(values, |strings|))
  {
    assert Fold(strings + [s], values, |strings|) == Fold(strings, values, |strings|) by {
      FoldPrefix(strings, [s], values, |strings|);
    }
  }

  lemma {:induction false} FoldPrefix(a: seq<string>, b: seq<string>, values: seq<Value>, n: nat)
    requires n <= |a|
    ensures Fold(a + b, values, n) == Fold(a, values, n)
  {
    if n > 0 {
      FoldPrefix(a, b, values, n - 1);
      assert (a + b)[n - 1] == a[n - 1];
    }
  }

  /** Interpolated values that are all falsy vanish: the output is the
      chunks alone. In particular a template without interpolations is its
      chunks concatenated, and a single chunk comes back unchanged. */
  lemma {:induction false} FalsyValuesVanish(strings: seq<string>, values: seq<Value>)
    requires forall i | 0 <= i < |values| :: Falsy(values[i])
    ensures Html(strings, values) == Concat(strings)
    decreases |strings|
  {
    HtmlIsInterleave(strings, values);
    InterleaveFalsy(strings, values);
  }

  lemma {:induction false} InterleaveFalsy(strings: seq<string>, values: seq<Value>)
    requires forall i | 0 <= i < |values| :: Falsy(values[i])
    ensures Interleave(strings, values) == Concat(strings)
    decreases |strings|
  {
    if strings != [] {
      var rest := if values == [] then [] else values[1..];
      assert forall i | 0 <= i < |rest| :: rest[i] == values[i + 1];
      InterleaveFalsy(strings[1..], rest);
    }
  }

  lemma SingleChunk(s: string)
    ensures Html([s], []) == s
  {
    FalsyValuesVanish([s], []);
    assert Concat([s]) == s + Concat([]);
  }

  /** Only the values up to the last chunk are read: any further ones are
      ignored. */
  lemma ExtraValuesIgnored(strings: seq<string>, values: seq<Value>, extra: seq<Value>)
    requires |values| >= |strings|
    ensures Html(strings, values + extra) == Html(strings, values)
  {
    FoldValuesPrefix(strings, values, extra, |strings|);
  }

  lemma {:induction false} FoldValuesPrefix(strings: seq<string>, values: seq<Value>, extra: seq<Value>, n: nat)
    requires n <= |strings| && n <= |values|
    ensures Fold(strings, values + extra, n) == Fold(strings, values, n)
  {
    if n > 0 {
      FoldValuesPrefix(strings, values, extra, n - 1);
      assert ValueAt(values + extra, n - 1) == ValueAt(values, n - 1);
    }
  }

  /** The text of each value, for values that are all non-empty strings. */
  function Texts(values: seq<Value>): (ts: seq<string>)
    requires forall i | 0 <= i < |values| :: values[i].Str?
    ensures |ts| == |values| && forall i | 0 <= i < |values| :: ts[i] == values[i].s
  {
    seq(|values|, i requires 0 <= i < |values| => values[i].s)
  }

  /** Chunk and text side by side, with no escaping of either. */
  function Zip(strings: seq<string>, texts: seq<string>): string
    decreases |strings|
  {
    if strings == [] then ""
    else strings[0] + (if texts == [] then "" else texts[0]) + Zip(strings[1..], if texts == [] then [] else texts[1..])
  }

  /** Non-empty string values appear verbatim between the chunks: markup in
      them is not escaped. */
  lemma {:induction false} StringsVerbatim(strings: seq<string>, values: seq<Value>)
    requires forall i | 0 <= i < |values| :: values[i].Str? && values[i].s != []
    ensures Html(strings, values) == Zip(strings, Texts(values))
    decreases |strings|
  {
    HtmlIsInterleave(strings, values);
    InterleaveStrings(strings, values);
  }

  lemma {:induction false} InterleaveStrings(strings: seq<string>, values: seq<Value>)
    requires forall i | 0 <= i < |values| :: values[i].Str? && values[i].s != []
    ensures Interleave(strings, values) == Zip(strings, Texts(values))
    decreases |strings|
  {
    if strings != [] {
      var rest := if values == [] then [] else values[1..];
      assert forall i | 0 <= i < |rest| :: rest[i] == values[i + 1];
      InterleaveStrings(strings[1..], rest);
      assert (if Texts(values) == [] then [] else Texts(values)[1..]) == Texts(rest);
    }
  }

  /** A concrete template: markup in a value is kept as written, `0`
      disappears. */
  lemma MarkupAndZero()
    ensures Html(["<p>", " ", "</p>"], [Str("<b>x</b>"), Int(0)]) == "<p><b>x</b> </p>"
  {
    var vs := [Str("<b>x</b>"), Int(0)];
    HtmlAppend([], "<p>", vs);
    HtmlAppend(["<p>"], " ", vs);
    HtmlAppend(["<p>", " "], "</p>", vs);
    assert ["<p>"] + [" "] == ["<p>", " "];
    assert ["<p>", " "] + ["</p>"] == ["<p>", " ", "</p>"];
    assert Html([], vs) == "";
    assert Render(ValueAt(vs, 0)) == "<b>x</b>";
    assert Render(ValueAt(vs, 1)) == "" && Render(ValueAt(vs, 2)) == "";
    assert "" + "<p>" + "<b>x</b>" + " " + "" + "</p>" + "" == "<p><b>x</b> </p>";
  }
}
