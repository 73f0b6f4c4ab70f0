/** The per-container rules of the renderer, stated over the trace.

    `Outline(Render(v, cfg))` is what the outermost container of `v`
    contributes itself: its commas, its ellipsis, its field labels. The
    lemmas here give it for every kind of container, and relate a
    truncated Set or Array to the untruncated Tuple of its shown items.
 */
module RenderFacts {
  import opened Values
  import opened Events
  import opened Rendering

  /** The labels a named tuple writes for its first `k` pairs. */
  function TupleLabels(shape: seq<Field>, k: nat): (r: seq<Event>)
    requires k <= |shape|
    ensures |r| == k && forall i :: 0 <= i < k ==> r[i] == TupleField(shape[i].name)
  {
    if k == 0 then [] else TupleLabels(shape, k - 1) + [TupleField(shape[k - 1].name)]
  }

  /** The labels an object writes for the shown fields among its first
      `k` pairs, in shape order. */
  function FieldLabels(shape: seq<Field>, k: nat, cfg: Config): seq<Event>
    requires k <= |shape|
  {
    if k == 0 then []
    else
      var f := shape[k - 1];
      FieldLabels(shape, k - 1, cfg) + (if Visible(f, cfg) then [ObjectField(Label(f), f.linkProperty)] else [])
  }

  /** `i` is the first of the first `n` shape elements called `name`. */
  predicate FirstNamed(shape: seq<Field>, n: nat, i: nat, name: string)
    requires n <= |shape|
  {
    i < n && shape[i].name == name && forall j :: 0 <= j < i ==> shape[j].name != name
  }

  /** The field labels are exactly the shown fields, one label each;
      a link property is labelled `@name`, any other field `name`. */
  lemma {:induction false} FieldLabelsShown(shape: seq<Field>, k: nat, cfg: Config)
    requires k <= |shape|
    ensures |FieldLabels(shape, k, cfg)| == VisibleCount(shape, k, cfg)
    ensures forall e :: e in FieldLabels(shape, k, cfg) <==>
      exists i :: 0 <= i < k && Visible(shape[i], cfg) && e == ObjectField(Label(shape[i]), shape[i].linkProperty)
  {
    if k > 0 {
      FieldLabelsShown(shape, k - 1, cfg);
    }
  }

  /** No field is shown exactly when the counter `n` stays at zero. */
  lemma {:induction false} VisibleCountZero(shape: seq<Field>, k: nat, cfg: Config)
    requires k <= |shape|
    ensures VisibleCount(shape, k, cfg) == 0 <==> forall j :: 0 <= j < k ==> !Visible(shape[j], cfg)
  {
    if k > 0 {
      VisibleCountZero(shape, k - 1, cfg);
    }
  }

  /** `__tname__` lookup: the type name is present exactly when the first
      `__tname__` field holds a present string, and it is that string. */
  lemma TypeNameLookup(shape: seq<Field>, fields: seq<Option<Value>>)
    ensures var n := Min(|shape|, |fields|);
      TypeName(shape, fields).Some? <==>
        exists i: nat :: FirstNamed(shape, n, i, TypeNameField) && fields[i].Some? && fields[i].value.Str?
    ensures var n := Min(|shape|, |fields|);
      forall i: nat :: FirstNamed(shape, n, i, TypeNameField) && fields[i].Some? && fields[i].value.Str? ==>
        TypeName(shape, fields) == Some(fields[i].value.text)
  {
    var n := Min(|shape|, |fields|);
    forall i: nat | FirstNamed(shape, n, i, TypeNameField)
      ensures FindField(shape, n, TypeNameField) == Some(i)
    {
      FirstNamedUnique(shape, n, i, TypeNameField);
    }
  }

  lemma FirstNamedUnique(shape: seq<Field>, n: nat, i: nat, name: string)
    requires n <= |shape| && FirstNamed(shape, n, i, name)
    ensures FindField(shape, n, name) == Some(i)
  {
    var r := FindField(shape, n, name);
    assert r.Some?;
    if r.value < i {
    } else if r.value > i {
    }
  }

  lemma InterleaveSnoc(labels: seq<Event>, x: Event)
    ensures Interleave(labels + [x]) == Interleave(labels) + [x, Comma]
  {
    assert (labels + [x])[..|labels|] == labels;
  }

  /** A single non-bracket event: nested, and a mark at level 0 exactly
      when it is a mark. */
  lemma Flat(e: Event)
    requires !e.Open? && !e.Close?
    ensures Nested([e]) && Marks(At([e], 0)) == (if IsMark(e) then [e] else [])
  {
    NestedFlat(e);
  }

  lemma Join(a: seq<Event>, b: seq<Event>)
    requires Nested(a) && Nested(b)
    ensures Nested(a + b) && Marks(At(a + b, 0)) == Marks(At(a, 0)) + Marks(At(b, 0))
  {
    NestedAppend(a, b);
    MarksAppend(At(a, 0), At(b, 0));
  }

  lemma Container(kind: ContainerKind, body: seq<Event>)
    requires Nested(body)
    ensures var t := [Open(kind)] + body + [Close];
      Nested(t) && Marks(At(t, 0)) == [] && Outline(t) == Marks(At(body, 0))
  {
    NestedContainer(kind, body);
    var t := [Open(kind)] + body + [Close];
    assert Marks([Open(kind), Close]) == [] by {
      assert [Open(kind), Close][1..] == [Close];
      assert [Close][1..] == [];
    }
  }

  /** One labelled entry of a container body: label, value, comma. */
  lemma Entry(prev: seq<Event>, mark: Event, value: seq<Event>)
    requires Nested(prev) && Nested(value) && Marks(At(value, 0)) == []
    requires IsMark(mark)
    ensures var t := prev + [mark] + value + [Comma];
      Nested(t) && Marks(At(t, 0)) == Marks(At(prev, 0)) + [mark, Comma]
  {
    var m := Marks(At(prev, 0));
    Flat(mark);
    Join(prev, [mark]);
    Join(prev + [mark], value);
    assert Marks(At(prev + [mark] + value, 0)) == m + [mark];
    Flat(Comma);
    Join(prev + [mark] + value, [Comma]);
    assert (m + [mark]) + [Comma] == m + [mark, Comma];
  }

  /** `Entry`, with the marks so far written as labels and commas. */
  lemma LabelledEntry(prev: seq<Event>, labels: seq<Event>, mark: Event, value: seq<Event>)
    requires Nested(prev) && Marks(At(prev, 0)) == Interleave(labels)
    requires Nested(value) && Marks(At(value, 0)) == []
    requires IsMark(mark)
    ensures var t := prev + [mark] + value + [Comma];
      Nested(t) && Marks(At(t, 0)) == Interleave(labels + [mark])
  {
    Entry(prev, mark, value);
    InterleaveSnoc(labels, mark);
  }

  /** One unlabelled entry of a container body: value, comma. */
  lemma Item(prev: seq<Event>, value: seq<Event>)
    requires Nested(prev) && Nested(value) && Marks(At(value, 0)) == []
    ensures var t := prev + value + [Comma];
      Nested(t) && Marks(At(t, 0)) == Marks(At(prev, 0)) + [Comma]
  {
    Flat(Comma);
    Join(prev, value);
    Join(prev + value, [Comma]);
  }

  /** What an object's body writes at its own level, when it shows no
      field, by the `id` fallback. */
  function IdOutline(shape: seq<Field>, fields: seq<Option<Value>>): seq<Event> {
    match FindField(shape, Min(|shape|, |fields|), IdField)
    case Some(_) => [ObjectField(IdField, false), Comma]
    case None => []
  }

  /** What a container writes at its own level, by kind: one comma per
      shown item and an ellipsis when truncated for a Set or an Array,
      one comma per item for a Tuple, label and comma per pair for a
      named tuple, and the shown field labels (or the `id` fallback) for
      an object. */
  function ExpectedOutline(v: Value, cfg: Config): seq<Event>
    requires IsContainer(v)
  {
    match v
    case Set(items) => Repeat(Comma, Shown(|items|, cfg)) + (if Truncated(|items|, cfg) then [Ellipsis] else [])
    case Array(items) => Repeat(Comma, Shown(|items|, cfg)) + (if Truncated(|items|, cfg) then [Ellipsis] else [])
    case Tuple(items) => Repeat(Comma, |items|)
    case NamedTuple(shape, values) => Interleave(TupleLabels(shape, Min(|shape|, |values|)))
    case Object(shape, fields) =>
      var n := Min(|shape|, |fields|);
      if VisibleCount(shape, n, cfg) > 0 then Interleave(FieldLabels(shape, n, cfg)) else IdOutline(shape, fields)
  }

  /** Every rendered value is a balanced trace that writes no mark at
      its own level: separators and labels always sit inside a container. */
  lemma {:induction false} RenderNested(v: Value, cfg: Config)
    ensures Nested(Render(v, cfg)) && Marks(At(Render(v, cfg), 0)) == []
    decreases v, 1, 0
  {
    if IsContainer(v) {
      ContentsNested(v, cfg);
      Container(Kind(v), Contents(v, cfg));
    } else {
      Flat(Scalar(v, cfg));
    }
  }

  /** A container's contents are balanced, and its own marks are the
      ones its kind prescribes. */
  lemma {:induction false} ContentsNested(v: Value, cfg: Config)
    requires IsContainer(v)
    ensures Nested(Contents(v, cfg)) && Marks(At(Contents(v, cfg), 0)) == ExpectedOutline(v, cfg)
    decreases v, 0, 0
  {
    match v
    case Set(items) => ListNested(items, cfg);
    case Array(items) => ListNested(items, cfg);
    case Tuple(items) => ItemsNested(items, |items|, cfg);
    case NamedTuple(shape, values) => TupleFieldsNested(shape, values, Min(|shape|, |values|), cfg);
    case Object(shape, fields) => ObjectBodyNested(shape, fields, cfg);
  }

  lemma {:induction false} OptionNested(o: Option<Value>, cfg: Config)
    ensures Nested(RenderOption(o, cfg)) && Marks(At(RenderOption(o, cfg), 0)) == []
    decreases o, 0, 0
  {
    match o
    case Some(v) => RenderNested(v, cfg);
    case None => Flat(Nil);
  }

  lemma {:induction false} ListNested(items: seq<Value>, cfg: Config)
    ensures Nested(RenderList(items, cfg))
    ensures Marks(At(RenderList(items, cfg), 0))
      == Repeat(Comma, Shown(|items|, cfg)) + (if Truncated(|items|, cfg) then [Ellipsis] else [])
    decreases items, 1, 0
  {
    var s := Shown(|items|, cfg);
    ItemsNested(items, s, cfg);
    if Truncated(|items|, cfg) {
      Flat(Ellipsis);
      Join(RenderItems(items, s, cfg), [Ellipsis]);
    } else {
      assert RenderList(items, cfg) == RenderItems(items, s, cfg);
    }
  }

  lemma {:induction false} ItemsNested(items: seq<Value>, k: nat, cfg: Config)
    requires k <= |items|
    ensures Nested(RenderItems(items, k, cfg)) && Marks(At(RenderItems(items, k, cfg), 0)) == Repeat(Comma, k)
    decreases items, 0, k
  {
    if k == 0 {
      assert Net([]) == 0;
    } else {
      ItemsNested(items, k - 1, cfg);
      RenderNested(items[k - 1], cfg);
      Item(RenderItems(items, k - 1, cfg), Render(items[k - 1], cfg));
    }
  }

  lemma {:induction false} TupleFieldsNested(shape: seq<Field>, values: seq<Value>, k: nat, cfg: Config)
    requires k <= |shape| && k <= |values|
    ensures Nested(RenderTupleFields(shape, values, k, cfg))
    ensures Marks(At(RenderTupleFields(shape, values, k, cfg), 0)) == Interleave(TupleLabels(shape, k))
    decreases values, 0, k
  {
    if k == 0 {
      assert Net([]) == 0;
    } else {
      var prev := RenderTupleFields(shape, values, k - 1, cfg);
      var mark := TupleField(shape[k - 1].name);
      TupleFieldsNested(shape, values, k - 1, cfg);
      RenderNested(values[k - 1], cfg);
      Entry(prev, mark, Render(values[k - 1], cfg));
      InterleaveSnoc(TupleLabels(shape, k - 1), mark);
    }
  }

  lemma {:induction false} ObjectFieldsNested(shape: seq<Field>, fields: seq<Option<Value>>, k: nat, cfg: Config)
    requires k <= |shape| && k <= |fields|
    ensures Nested(RenderObjectFields(shape, fields, k, cfg))
    ensures Marks(At(RenderObjectFields(shape, fields, k, cfg), 0)) == Interleave(FieldLabels(shape, k, cfg))
    decreases fields, 0, k
  {
    if k == 0 {
      assert Net([]) == 0;
    } else {
      ObjectFieldsNested(shape, fields, k - 1, cfg);
      OptionNested(fields[k - 1], cfg);
      ObjectFieldStep(shape, fields, k, cfg);
    }
  }

  /** The step of ObjectFieldsNested, from the first `k - 1` pairs to `k`. */
  lemma ObjectFieldStep(shape: seq<Field>, fields: seq<Option<Value>>, k: nat, cfg: Config)
    requires 0 < k <= |shape| && k <= |fields|
    requires Nested(RenderObjectFields(shape, fields, k - 1, cfg))
    requires Marks(At(RenderObjectFields(shape, fields, k - 1, cfg), 0)) == Interleave(FieldLabels(shape, k - 1, cfg))
    requires Nested(RenderOption(fields[k - 1], cfg)) && Marks(At(RenderOption(fields[k - 1], cfg), 0)) == []
    ensures Nested(RenderObjectFields(shape, fields, k, cfg))
    ensures Marks(At(RenderObjectFields(shape, fields, k, cfg), 0)) == Interleave(FieldLabels(shape, k, cfg))
  {
    var f := shape[k - 1];
    var prev := RenderObjectFields(shape, fields, k - 1, cfg);
    var labels := FieldLabels(shape, k - 1, cfg);
    if Visible(f, cfg) {
      var mark := ObjectField(Label(f), f.linkProperty);
      var value := RenderOption(fields[k - 1], cfg);
      assert RenderObjectFields(shape, fields, k, cfg) == prev + [mark] + value + [Comma];
      assert FieldLabels(shape, k, cfg) == labels + [mark];
      LabelledEntry(prev, labels, mark, value);
    } else {
      assert RenderObjectFields(shape, fields, k, cfg) == prev;
      assert FieldLabels(shape, k, cfg) == labels;
    }
  }

  lemma {:induction false} ObjectBodyNested(shape: seq<Field>, fields: seq<Option<Value>>, cfg: Config)
    ensures Nested(RenderObjectBody(shape, fields, cfg))
    ensures var n := Min(|shape|, |fields|);
      Marks(At(RenderObjectBody(shape, fields, cfg), 0))
        == if VisibleCount(shape, n, cfg) > 0 then Interleave(FieldLabels(shape, n, cfg)) else IdOutline(shape, fields)
    decreases fields, 1, 0
  {
    var n := Min(|shape|, |fields|);
    if VisibleCount(shape, n, cfg) > 0 {
      ObjectFieldsNested(shape, fields, n, cfg);
    } else {
      match FindField(shape, n, IdField)
      case Some(i) =>
        var mark := ObjectField(shape[i].name, false);
        OptionNested(fields[i], cfg);
        assert Nested([]) && Marks(At([], 0)) == [];
        Entry([], mark, RenderOption(fields[i], cfg));
        assert [] + [mark] == [mark];
      case None =>
        assert Net([]) == 0;
    }
  }

  /** A container's own marks: the rule of its kind. */
  lemma OutlineRule(v: Value, cfg: Config)
    requires IsContainer(v)
    ensures Outline(Render(v, cfg)) == ExpectedOutline(v, cfg)
  {
    ContentsNested(v, cfg);
    Container(Kind(v), Contents(v, cfg));
  }

  /** Set and Array: one comma for each of the first `min(limit, N)`
      items (all `N` without a limit), then one ellipsis exactly when
      there are more than `limit` items. */
  lemma CollectionOutline(items: seq<Value>, cfg: Config)
    ensures var o := Outline(Render(Set(items), cfg));
      && o == Outline(Render(Array(items), cfg))
      && |o| == Shown(|items|, cfg) + (if Truncated(|items|, cfg) then 1 else 0)
      && (forall i :: 0 <= i < Shown(|items|, cfg) ==> o[i] == Comma)
      && (Ellipsis in o <==> cfg.maxItems.Some? && |items| > cfg.maxItems.value)
      && (cfg.maxItems.None? ==> o == Repeat(Comma, |items|))
  {
    OutlineRule(Set(items), cfg);
    OutlineRule(Array(items), cfg);
  }

  /** Tuple and named tuple: every item, whatever `max_items()` says,
      and never an ellipsis. */
  lemma TupleOutline(items: seq<Value>, cfg: Config)
    ensures Outline(Render(Tuple(items), cfg)) == Repeat(Comma, |items|)
    ensures Ellipsis !in Outline(Render(Tuple(items), cfg))
  {
    OutlineRule(Tuple(items), cfg);
  }

  lemma NamedTupleOutline(shape: seq<Field>, values: seq<Value>, cfg: Config)
    ensures var n := Min(|shape|, |values|);
      var o := Outline(Render(NamedTuple(shape, values), cfg));
      && |o| == 2 * n
      && forall i :: 0 <= i < n ==> o[2 * i] == TupleField(shape[i].name) && o[2 * i + 1] == Comma
  {
    OutlineRule(NamedTuple(shape, values), cfg);
  }

  /** Object: with some field shown, its own marks are the labels of the
      shown fields, each followed by a comma; with none shown, the `id`
      field alone (labelled `id`, not as a link), or nothing. */
  lemma ObjectOutline(shape: seq<Field>, fields: seq<Option<Value>>, cfg: Config)
    ensures var n := Min(|shape|, |fields|);
      var o := Outline(Render(Object(shape, fields), cfg));
      && (VisibleCount(shape, n, cfg) > 0 ==> o == Interleave(FieldLabels(shape, n, cfg)))
      && (VisibleCount(shape, n, cfg) == 0 && (exists i: nat :: FirstNamed(shape, n, i, IdField)) ==>
            o == [ObjectField(IdField, false), Comma])
      && (VisibleCount(shape, n, cfg) == 0 && (forall j :: 0 <= j < n ==> shape[j].name != IdField) ==> o == [])
      && Ellipsis !in o
  {
    var n := Min(|shape|, |fields|);
    OutlineRule(Object(shape, fields), cfg);
    forall i: nat | FirstNamed(shape, n, i, IdField) ensures FindField(shape, n, IdField) == Some(i) {
      FirstNamedUnique(shape, n, i, IdField);
    }
    if VisibleCount(shape, n, cfg) > 0 {
      FieldLabelsShown(shape, n, cfg);
      var labels := FieldLabels(shape, n, cfg);
      var o := Interleave(labels);
      forall k | 0 <= k < |o| ensures o[k] != Ellipsis {
        var m := k / 2;
        if k % 2 == 0 {
          assert k == 2 * m && o[k] == labels[m] && labels[m] in labels;
        } else {
          assert k == 2 * m + 1;
        }
      }
    }
  }

  /** The `id` fallback: an object with no shown field and an `id`
      field prints that field's value alone. */
  lemma ObjectIdFallback(shape: seq<Field>, fields: seq<Option<Value>>, cfg: Config, i: nat)
    requires forall j :: 0 <= j < Min(|shape|, |fields|) ==> !Visible(shape[j], cfg)
    requires FirstNamed(shape, Min(|shape|, |fields|), i, IdField)
    ensures Render(Object(shape, fields), cfg)
      == [Open(ObjectKind(TypeName(shape, fields))), ObjectField(IdField, false)] + RenderOption(fields[i], cfg) + [Comma, Close]
  {
    var n := Min(|shape|, |fields|);
    VisibleCountZero(shape, n, cfg);
    FirstNamedUnique(shape, n, i, IdField);
    assert Contents(Object(shape, fields), cfg) == [ObjectField(IdField, false)] + RenderOption(fields[i], cfg) + [Comma];
  }

  /** With no shown field and no `id`, an object prints as an empty one. */
  lemma ObjectEmpty(shape: seq<Field>, fields: seq<Option<Value>>, cfg: Config)
    requires forall j :: 0 <= j < Min(|shape|, |fields|) ==> !Visible(shape[j], cfg) && shape[j].name != IdField
    ensures Render(Object(shape, fields), cfg) == [Open(ObjectKind(TypeName(shape, fields))), Close]
  {
    VisibleCountZero(shape, Min(|shape|, |fields|), cfg);
    assert FindField(shape, Min(|shape|, |fields|), IdField).None?;
    assert Contents(Object(shape, fields), cfg) == [];
  }

  lemma {:induction false} ItemsPrefix(items: seq<Value>, k: nat, j: nat, cfg: Config)
    requires k <= j <= |items|
    ensures RenderItems(items, k, cfg) == RenderItems(items[..j], k, cfg)
  {
    if k > 0 {
      ItemsPrefix(items, k - 1, j, cfg);
      assert items[..j][k - 1] == items[k - 1];
    }
  }

  /** Truncation: a Set or Array prints the Tuple of its shown items,
      followed by an ellipsis when some were left out. */
  lemma CollectionTruncation(items: seq<Value>, cfg: Config)
    ensures var s := Shown(|items|, cfg);
      var tail := if Truncated(|items|, cfg) then [Ellipsis] else [];
      && Contents(Set(items), cfg) == Contents(Tuple(items[..s]), cfg) + tail
      && Contents(Array(items), cfg) == Contents(Tuple(items[..s]), cfg) + tail
  {
    var s := Shown(|items|, cfg);
    ItemsPrefix(items, s, s, cfg);
  }

  lemma {:induction false} TupleFieldsPrefix(shape: seq<Field>, values: seq<Value>, k: nat, j: nat, cfg: Config)
    requires k <= j <= |shape| && j <= |values|
    ensures RenderTupleFields(shape, values, k, cfg) == RenderTupleFields(shape[..j], values[..j], k, cfg)
  {
    if k > 0 {
      TupleFieldsPrefix(shape, values, k - 1, j, cfg);
      assert shape[..j][k - 1] == shape[k - 1] && values[..j][k - 1] == values[k - 1];
    }
  }

  /** `zip` stops at the shorter side: a named tuple prints as the one
      cut to its first `min(|shape|, |values|)` pairs. */
  lemma NamedTupleZip(shape: seq<Field>, values: seq<Value>, cfg: Config)
    ensures var n := Min(|shape|, |values|);
      Render(NamedTuple(shape, values), cfg) == Render(NamedTuple(shape[..n], values[..n]), cfg)
  {
    var n := Min(|shape|, |values|);
    TupleFieldsPrefix(shape, values, n, n, cfg);
  }

  lemma {:induction false} ObjectFieldsPrefix(shape: seq<Field>, fields: seq<Option<Value>>, k: nat, j: nat, cfg: Config)
    requires k <= j <= |shape| && j <= |fields|
    ensures RenderObjectFields(shape, fields, k, cfg) == RenderObjectFields(shape[..j], fields[..j], k, cfg)
    ensures VisibleCount(shape, k, cfg) == VisibleCount(shape[..j], k, cfg)
    ensures FindField(shape, k, IdField) == FindField(shape[..j], k, IdField)
    ensures FindField(shape, k, TypeNameField) == FindField(shape[..j], k, TypeNameField)
  {
    if k > 0 {
      ObjectFieldsPrefix(shape, fields, k - 1, j, cfg);
      assert shape[..j][k - 1] == shape[k - 1] && fields[..j][k - 1] == fields[k - 1];
    }
  }

  /** `zip` stops at the shorter side: an object prints as the one cut
      to its first `min(|shape|, |fields|)` pairs. */
  lemma ObjectZip(shape: seq<Field>, fields: seq<Option<Value>>, cfg: Config)
    ensures var n := Min(|shape|, |fields|);
      Render(Object(shape, fields), cfg) == Render(Object(shape[..n], fields[..n]), cfg)
  {
    var n := Min(|shape|, |fields|);
    var shape', fields' := shape[..n], fields[..n];
    ObjectFieldsPrefix(shape, fields, n, n, cfg);
    assert Min(|shape'|, |fields'|) == n;
    assert forall i :: 0 <= i < n ==> fields'[i] == fields[i];
    assert TypeName(shape, fields) == TypeName(shape', fields');
    assert RenderObjectBody(shape, fields, cfg) == RenderObjectBody(shape', fields', cfg);
  }
}
