/** The row assembly shared by both widget modules: `maybe_show` and
    `widgets_for` are the same code in both revisions.

    A widget is kept as what it is built from (a title text, a value and the
    kind of widget that shows it, or a plain label); how each kind turns its
    value into text differs between the revisions and lives in their own
    modules. */
module Display {
  import opened PackageData

  /** The widget class a row's value is shown with. */
  datatype Kind = ValueWidget | UrlWidget | MarkdownWidget | UrlDataWidget

  /** The value of a row, by its Python type: `None`, a `str`, or a
      `PackageURL` record. */
  datatype FieldValue = NoneValue | Text(s: string) | Record(artifact: PackageUrl)

  datatype Widget =
    | Title(text: string)                       // `Title(text)`: the title text, ':' included
    | Content(kind: Kind, value: FieldValue)    // `widget(value)`
    | Label(text: string, error: bool)          // a bare `Label`, with or without the class "error"

  /** One `(title, value, widget)` triple handed to `widgets_for`. */
  datatype Field = Field(title: string, value: FieldValue, kind: Kind)

  /** The rows `maybe_show` emits for a value that is shown. */
  function Row(f: Field): seq<Widget> {
    [Title(f.title + ":"), Content(f.kind, f.value)]
  }

  /** Whether `maybe_show` emits anything for a value. */
  predicate Shown(v: FieldValue) {
    !v.NoneValue? && v != Text("")
  }

  /** `maybe_show`: a row exactly when the value is truthy. Both registered
      overloads take `str` as their first annotated parameter (the title), so
      the second replaces the first and dispatch on the title always runs it:
      `None` and "" are falsy, and a `Record` stands for a `PackageURL`,
      which is always truthy. */
  function MaybeShow(f: Field): (r: seq<Widget>)
    ensures f.value.NoneValue? ==> r == []
    ensures f.value.Text? ==> (r == [] <==> f.value.s == "")
    ensures f.value.Record? ==> r == Row(f)
    ensures r == [] || r == Row(f)
    ensures r != [] <==> Shown(f.value)
  {
    match f.value
    case NoneValue => []
    case Text(s) => if s != "" then Row(f) else []
    case Record(_) => Row(f)
  }

  /** What `widgets_for` yields: each field's `maybe_show`, in order. */
  function Widgets(fields: seq<Field>): seq<Widget> {
    if fields == [] then []
    else Widgets(fields[..|fields| - 1]) + MaybeShow(fields[|fields| - 1])
  }

  /** The fields that give a row, in order. */
  function ShownFields(fields: seq<Field>): (r: seq<Field>)
    ensures |r| <= |fields|
    ensures forall i :: 0 <= i < |r| ==> r[i] in fields && Shown(r[i].value)
  {
    if fields == [] then []
    else
      var init := ShownFields(fields[..|fields| - 1]);
      var last := fields[|fields| - 1];
      assert forall g :: g in fields[..|fields| - 1] ==> g in fields;
      if Shown(last.value) then init + [last] else init
  }

  /** When every field gives a row, the shown fields are all the fields. */
  lemma {:induction false} ShownFieldsAll(fields: seq<Field>)
    requires forall i :: 0 <= i < |fields| ==> Shown(fields[i].value)
    ensures ShownFields(fields) == fields
  {
    if fields != [] {
      var init := fields[..|fields| - 1];
      ShownFieldsAll(init);
      assert init + [fields[|fields| - 1]] == fields;
    }
  }

  /** Every field that gives a row is among the shown fields. */
  lemma {:induction false} ShownFieldsMember(fields: seq<Field>, f: Field)
    requires f in fields && Shown(f.value)
    ensures f in ShownFields(fields)
  {
    var init := fields[..|fields| - 1];
    if f != fields[|fields| - 1] {
      assert fields == init + [fields[|fields| - 1]];
      ShownFieldsMember(init, f);
    }
  }

  /** Every widget that `widgets_for` yields comes in a pair: the title of a
      shown field, then that field's value widget, for the shown fields in
      their order and nothing else. */
  predicate PairsOf(ws: seq<Widget>, shown: seq<Field>) {
    && |ws| == 2 * |shown|
    && forall k :: 0 <= k < |shown| ==>
         ws[2 * k] == Title(shown[k].title + ":") && ws[2 * k + 1] == Content(shown[k].kind, shown[k].value)
  }

  lemma {:induction false} WidgetsArePairs(fields: seq<Field>)
    ensures PairsOf(Widgets(fields), ShownFields(fields))
  {
    if fields != [] {
      var init := fields[..|fields| - 1];
      WidgetsArePairs(init);
      var last := fields[|fields| - 1];
      var ws := Widgets(fields);
      var sf := ShownFields(fields);
      if Shown(last.value) {
        assert ws == Widgets(init) + Row(last);
        assert sf == ShownFields(init) + [last];
        forall k | 0 <= k < |sf|
          ensures ws[2 * k] == Title(sf[k].title + ":") && ws[2 * k + 1] == Content(sf[k].kind, sf[k].value)
        {
          if k < |sf| - 1 {
            assert ws[2 * k] == Widgets(init)[2 * k] && ws[2 * k + 1] == Widgets(init)[2 * k + 1];
          }
        }
      }
    }
  }

  /** Titles and value widgets alternate, a title first. */
  predicate Alternates(ws: seq<Widget>) {
    && |ws| % 2 == 0
    && forall k :: 0 <= k < |ws| / 2 ==> ws[2 * k].Title? && ws[2 * k + 1].Content?
  }

  lemma {:induction false} AlternatesAppend(a: seq<Widget>, b: seq<Widget>)
    requires Alternates(a) && Alternates(b)
    ensures Alternates(a + b)
  {
    var r := a + b;
    forall k | 0 <= k < |r| / 2 ensures r[2 * k].Title? && r[2 * k + 1].Content? {
      if k >= |a| / 2 {
        assert r[2 * k] == b[2 * (k - |a| / 2)] && r[2 * k + 1] == b[2 * (k - |a| / 2) + 1];
      }
    }
  }

  /** `widgets_for` distributes over concatenation of its arguments. */
  lemma {:induction false} WidgetsAppend(a: seq<Field>, b: seq<Field>)
    ensures Widgets(a + b) == Widgets(a) + Widgets(b)
  {
    if b != [] {
      var b' := b[..|b| - 1];
      assert (a + b)[..|a + b| - 1] == a + b';
      WidgetsAppend(a, b');
    } else {
      assert a + b == a;
    }
  }

  /** `widgets_for`: loops over the fields, appending what `maybe_show`
      yields for each. */
  method WidgetsFor(fields: seq<Field>) returns (ws: seq<Widget>)
    ensures ws == Widgets(fields)
    ensures PairsOf(ws, ShownFields(fields))
  {
    ws := [];
    var i := 0;
    while i < |fields|
      invariant 0 <= i <= |fields|
      invariant ws == Widgets(fields[..i])
    {
      assert fields[..i + 1][..i] == fields[..i];
      ws := ws + MaybeShow(fields[i]);
      i := i + 1;
    }
    assert fields[..i] == fields;
    WidgetsArePairs(fields);
  }

  /** Textual's click markup: `[@click=action('arg')]text[/]`. */
  function ClickMarkup(action: string, arg: string, text: string): string {
    "[@click=" + (action + ("('" + (arg + ("')]" + (text + "[/]")))))
  }

  /** A link to `name` that passes `name` on: distinct names give distinct
      links, so deduplicating links deduplicates names. */
  function SelfLink(action: string, name: string): (r: string)
    ensures |r| == 2 * |name| + |action| + 16
    ensures r[8 + |action| + 2..8 + |action| + 2 + |name|] == name
  {
    ClickMarkup(action, name, name)
  }

  lemma {:induction false} SelfLinkInjective(action: string, x: string, y: string)
    ensures SelfLink(action, x) == SelfLink(action, y) <==> x == y
  {
    if SelfLink(action, x) == SelfLink(action, y) {
      assert |x| == |y|;
    }
  }

  /** One row per entry of a mapping, titled by its key, in mapping order. */
  function PairFields(pairs: seq<(string, string)>, kind: Kind): (r: seq<Field>)
    ensures |r| == |pairs|
    ensures forall i :: 0 <= i < |r| ==> r[i] == Field(pairs[i].0, Text(pairs[i].1), kind)
  {
    seq(|pairs|, i requires 0 <= i < |pairs| => Field(pairs[i].0, Text(pairs[i].1), kind))
  }

  /** "Yes" or "No" for a flag. */
  function YesNo(b: bool): (r: string)
    ensures r == "Yes" || r == "No"
    ensures r == "Yes" <==> b
  {
    if b then "Yes" else "No"
  }
}
