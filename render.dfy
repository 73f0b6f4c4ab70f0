/** What `FormatExt::format` makes the Formatter do, for a `Value` and for
    an `Option<Value>`, as the sequence of Formatter calls it issues when
    no call fails. The walker in module Walk is proved to issue exactly
    these calls; module RenderFacts proves the per-container rules.
 */
module Rendering {
  import opened Values
  import opened Events
  import Escape
  import Numerals

  /** A field is shown unless it is implicit and implicit properties are
      not requested. */
  predicate Visible(f: Field, cfg: Config) {
    !f.implicit || cfg.implicitProperties
  }

  /** The label of a shown object field: `@name` for a link property. */
  function Label(f: Field): string {
    if f.linkProperty then ['@'] + f.name else f.name
  }

  /** How many of the first `k` shape elements are shown (the counter `n`). */
  function VisibleCount(shape: seq<Field>, k: nat, cfg: Config): nat
    requires k <= |shape|
  {
    if k == 0 then 0 else VisibleCount(shape, k - 1, cfg) + (if Visible(shape[k - 1], cfg) then 1 else 0)
  }

  /** `shape.iter().zip(values).find(|(f, _)| f.name == name)`, as an
      index; `n` is the length of the zip. */
  function FindField(shape: seq<Field>, n: nat, name: string): (r: Option<nat>)
    requires n <= |shape|
    ensures r.Some? ==> r.value < n && shape[r.value].name == name
    ensures r.Some? ==> forall j :: 0 <= j < r.value ==> shape[j].name != name
    ensures r.None? ==> forall j :: 0 <= j < n ==> shape[j].name != name
  {
    if n == 0 then None
    else match FindField(shape, n - 1, name)
      case Some(i) => Some(i)
      case None => if shape[n - 1].name == name then Some(n - 1) else None
  }

  const TypeNameField: string := "__tname__"
  const IdField: string := "id"

  /** The object's type name: the value paired with the first `__tname__`
      field, when that value is a present string. */
  function TypeName(shape: seq<Field>, fields: seq<Option<Value>>): (r: Option<string>)
    ensures r.Some? ==>
      exists i :: 0 <= i < Min(|shape|, |fields|) && shape[i].name == TypeNameField && fields[i] == Some(Str(r.value))
    ensures (forall i :: 0 <= i < Min(|shape|, |fields|) ==> shape[i].name != TypeNameField) ==> r.None?
  {
    match FindField(shape, Min(|shape|, |fields|), TypeNameField)
    case Some(i) =>
      (match fields[i]
       case Some(Str(name)) => Some(name)
       case _ => None)
    case None => None
  }

  predicate IsContainer(v: Value) {
    v.Set? || v.Object? || v.Tuple? || v.NamedTuple? || v.Array?
  }

  /** The single Formatter call a scalar makes: `const_scalar` with its
      literal, or `typed` with its type tag for temporal values. It is
      never a bracket, a separator or a label. */
  function Scalar(v: Value, cfg: Config): (e: Event)
    requires !IsContainer(v)
    ensures e.ConstScalar? || e.Typed?
    ensures v.Str? ==> e == ConstScalar(Escape.StringLiteral(v.text, cfg.expandStrings))
  {
    match v
    case Nothing => ConstScalar("Nothing")
    case Uuid(text) => ConstScalar(text)
    case Str(text) => ConstScalar(Escape.StringLiteral(text, cfg.expandStrings))
    case Bytes(bytes) => ConstScalar(Escape.BytesLiteral(bytes))
    case Int16(text) => ConstScalar(text)
    case Int32(text) => ConstScalar(text)
    case Int64(text) => ConstScalar(text)
    case Float32(text) => ConstScalar(text)
    case Float64(text) => ConstScalar(text)
    case BigInt(digits) => ConstScalar(Numerals.FormatBigint(digits))
    case Decimal(digits) => ConstScalar(Numerals.FormatDecimal(digits))
    case Bool(flag) => ConstScalar(if flag then "true" else "false")
    case Datetime(text) => Typed("datetime", text)
    case LocalDatetime(text) => Typed("cal::local_datetime", text)
    case LocalDate(text) => Typed("cal::local_date", text)
    case LocalTime(text) => Typed("cal::local_time", text)
    case Duration(text) => Typed("duration", text)
    case Json(text) => ConstScalar(text)
    case Enum(text) => ConstScalar(text)
  }

  /** The Formatter call that opens a container value. */
  function Kind(v: Value): ContainerKind
    requires IsContainer(v)
  {
    match v
    case Set(_) => SetKind
    case Object(shape, fields) => ObjectKind(TypeName(shape, fields))
    case Tuple(_) => TupleKind
    case NamedTuple(_, _) => NamedTupleKind
    case Array(_) => ArrayKind
  }

  /** What the closure passed to the container call does. */
  function Contents(v: Value, cfg: Config): seq<Event>
    requires IsContainer(v)
    decreases v, 0, 0
  {
    match v
    case Set(items) => RenderList(items, cfg)
    case Object(shape, fields) => RenderObjectBody(shape, fields, cfg)
    case Tuple(items) => RenderItems(items, |items|, cfg)
    case NamedTuple(shape, values) => RenderTupleFields(shape, values, Min(|shape|, |values|), cfg)
    case Array(items) => RenderList(items, cfg)
  }

  /** `impl FormatExt for Value`. */
  function Render(v: Value, cfg: Config): (r: seq<Event>)
    ensures |r| > 0 && (IsContainer(v) <==> r[0].Open?)
    ensures IsContainer(v) ==> r[|r| - 1] == Close
    ensures !IsContainer(v) ==> |r| == 1 && (r[0].ConstScalar? || r[0].Typed?)
    decreases v, 1, 0
  {
    if IsContainer(v) then [Open(Kind(v))] + Contents(v, cfg) + [Close]
    else [Scalar(v, cfg)]
  }

  /** `impl FormatExt for Option<Value>`. */
  function RenderOption(o: Option<Value>, cfg: Config): (r: seq<Event>)
    ensures |r| > 0 && (r[0].Nil? <==> o.None?)
    decreases o, 0, 0
  {
    match o
    case Some(v) => Render(v, cfg)
    case None => [Nil]
  }

  /** The items a Set or Array shows under `max_items()`. */
  function Shown(n: nat, cfg: Config): nat {
    match cfg.maxItems
    case Some(limit) => Min(limit, n)
    case None => n
  }

  predicate Truncated(n: nat, cfg: Config) {
    cfg.maxItems.Some? && n > cfg.maxItems.value
  }

  /** The body of a Set or Array. */
  function RenderList(items: seq<Value>, cfg: Config): seq<Event>
    decreases items, 1, 0
  {
    RenderItems(items, Shown(|items|, cfg), cfg)
      + (if Truncated(|items|, cfg) then [Ellipsis] else [])
  }

  /** The first `k` items, each followed by a comma. */
  function RenderItems(items: seq<Value>, k: nat, cfg: Config): seq<Event>
    requires k <= |items|
    decreases items, 0, k
  {
    if k == 0 then []
    else RenderItems(items, k - 1, cfg) + Render(items[k - 1], cfg) + [Comma]
  }

  /** The first `k` pairs of a named tuple: label, value, comma. */
  function RenderTupleFields(shape: seq<Field>, values: seq<Value>, k: nat, cfg: Config): seq<Event>
    requires k <= |shape| && k <= |values|
    decreases values, 0, k
  {
    if k == 0 then []
    else
      RenderTupleFields(shape, values, k - 1, cfg)
        + [TupleField(shape[k - 1].name)] + Render(values[k - 1], cfg) + [Comma]
  }

  /** The body of an object: the shown fields or, when none is shown,
      the `id` field alone if there is one. */
  function RenderObjectBody(shape: seq<Field>, fields: seq<Option<Value>>, cfg: Config): (r: seq<Event>)
    ensures var n := Min(|shape|, |fields|);
      r == [] <==> VisibleCount(shape, n, cfg) == 0 && FindField(shape, n, IdField).None?
    ensures var n := Min(|shape|, |fields|);
      VisibleCount(shape, n, cfg) == 0 && FindField(shape, n, IdField).Some? ==> r[0] == ObjectField(IdField, false)
    decreases fields, 1, 0
  {
    var n := Min(|shape|, |fields|);
    if VisibleCount(shape, n, cfg) > 0 then
      RenderObjectFields(shape, fields, n, cfg)
    else
      match FindField(shape, n, IdField)
      case Some(i) => [ObjectField(shape[i].name, false)] + RenderOption(fields[i], cfg) + [Comma]
      case None => []
  }

  /** The shown fields among the first `k` pairs of an object. */
  function RenderObjectFields(shape: seq<Field>, fields: seq<Option<Value>>, k: nat, cfg: Config): (r: seq<Event>)
    requires k <= |shape| && k <= |fields|
    ensures VisibleCount(shape, k, cfg) > 0 ==> r != []
    decreases fields, 0, k
  {
    if k == 0 then []
    else
      var f := shape[k - 1];
      RenderObjectFields(shape, fields, k - 1, cfg)
        + (if Visible(f, cfg) then [ObjectField(Label(f), f.linkProperty)] + RenderOption(fields[k - 1], cfg) + [Comma]
           else [])
  }
}
