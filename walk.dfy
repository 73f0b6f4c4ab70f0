/** The walk itself: `FormatExt::format` driving a mutable Formatter.

    A `Printer` records the calls that succeeded. Any call may fail (an
    I/O error of the backend); which one is a parameter, `failAt`, the
    position in the trace of the first call that fails. After a failing
    call the walk returns at once, as each `?` does, so the trace is the
    rendering cut just before that call.
 */
module Walk {
  import opened Values
  import opened Events
  import opened Rendering
  import Escape

  /** What a walk leaves behind: the recorded calls, and whether it
      finished. */
  datatype Run = Run(trace: seq<Event>, ok: bool)

  /** Issuing `events` after `t0` when the call at position `failAt` of
      the whole trace fails. */
  function Emitted(t0: seq<Event>, events: seq<Event>, failAt: Option<nat>): (r: Run)
    ensures r.ok ==> r.trace == t0 + events
    ensures !r.ok ==> r.trace <= t0 + events && |t0| <= |r.trace| < |t0 + events|
  {
    if failAt.Some? && |t0| <= failAt.value < |t0| + |events| then Run((t0 + events)[..failAt.value], false)
    else Run(t0 + events, true)
  }

  /** The issuing fails iff the failing position falls among the new
      calls, and then the trace stops just before that position. */
  lemma EmittedStopsAtFailure(t0: seq<Event>, events: seq<Event>, failAt: Option<nat>)
    ensures var r := Emitted(t0, events, failAt);
      && (r.ok <==> !(failAt.Some? && |t0| <= failAt.value < |t0| + |events|))
      && (!r.ok ==> |r.trace| == failAt.value && r.trace == (t0 + events)[..failAt.value])
  {
  }

  /** Issuing `a` then `b` is issuing `a + b`, when `a` went through. */
  lemma Advance(t0: seq<Event>, a: seq<Event>, b: seq<Event>, failAt: Option<nat>)
    requires Emitted(t0, a, failAt).ok
    ensures Emitted(t0 + a, b, failAt) == Emitted(t0, a + b, failAt)
  {
    assert t0 + a + b == t0 + (a + b);
  }

  /** A failure while issuing `a` ends the walk of anything `a` begins. */
  lemma Abort(t0: seq<Event>, a: seq<Event>, w: seq<Event>, failAt: Option<nat>)
    requires a <= w && !Emitted(t0, a, failAt).ok
    ensures Emitted(t0, w, failAt) == Emitted(t0, a, failAt)
  {
    var k := failAt.value;
    assert t0 + w == (t0 + a) + w[|a|..];
    assert (t0 + w)[..k] == (t0 + a)[..k];
  }

  /** After `done` went through, issuing `entry` either goes through too
      or ends the walk of `whole`, which continues with `entry`. */
  lemma Step(t0: seq<Event>, mid: seq<Event>, done: seq<Event>, entry: seq<Event>, whole: seq<Event>,
             failAt: Option<nat>, t: seq<Event>, ok: bool)
    requires Run(mid, true) == Emitted(t0, done, failAt)
    requires Run(t, ok) == Emitted(mid, entry, failAt)
    requires done + entry <= whole
    ensures ok ==> Run(t, true) == Emitted(t0, done + entry, failAt)
    ensures !ok ==> Run(t, false) == Emitted(t0, whole, failAt)
  {
    Advance(t0, done, entry, failAt);
    if !ok {
      Abort(t0, done + entry, whole, failAt);
    }
  }

  lemma {:induction false} ItemsGrow(items: seq<Value>, i: nat, k: nat, cfg: Config)
    requires i < k <= |items|
    ensures RenderItems(items, i, cfg) + Render(items[i], cfg) + [Comma] <= RenderItems(items, k, cfg)
  {
    if i + 1 < k {
      ItemsGrow(items, i, k - 1, cfg);
    }
  }

  lemma {:induction false} TupleFieldsGrow(shape: seq<Field>, values: seq<Value>, i: nat, k: nat, cfg: Config)
    requires i < k <= |shape| && k <= |values|
    ensures RenderTupleFields(shape, values, i, cfg) + [TupleField(shape[i].name)] + Render(values[i], cfg) + [Comma]
      <= RenderTupleFields(shape, values, k, cfg)
  {
    if i + 1 < k {
      TupleFieldsGrow(shape, values, i, k - 1, cfg);
    }
  }

  lemma {:induction false} ObjectFieldsGrow(shape: seq<Field>, fields: seq<Option<Value>>, i: nat, k: nat, cfg: Config)
    requires i < k <= |shape| && k <= |fields| && Visible(shape[i], cfg)
    ensures var f := shape[i];
      RenderObjectFields(shape, fields, i, cfg) + [ObjectField(Label(f), f.linkProperty)] + RenderOption(fields[i], cfg) + [Comma]
        <= RenderObjectFields(shape, fields, k, cfg)
  {
    if i + 1 < k {
      ObjectFieldsGrow(shape, fields, i, k - 1, cfg);
    }
  }

  lemma {:induction false} VisibleCountGrow(shape: seq<Field>, i: nat, k: nat, cfg: Config)
    requires i < k <= |shape| && Visible(shape[i], cfg)
    ensures VisibleCount(shape, k, cfg) > 0
  {
    if i + 1 < k {
      VisibleCountGrow(shape, i, k - 1, cfg);
    }
  }

  lemma {:induction false} NoneShown(shape: seq<Field>, fields: seq<Option<Value>>, k: nat, cfg: Config)
    requires k <= |shape| && k <= |fields| && VisibleCount(shape, k, cfg) == 0
    ensures RenderObjectFields(shape, fields, k, cfg) == []
  {
    if k > 0 {
      NoneShown(shape, fields, k - 1, cfg);
    }
  }

  /** The Formatter: its configuration queries and the calls it has
      recorded. */
  class Printer {
    const config: Config
    const failAt: Option<nat>
    var trace: seq<Event>

    constructor (config: Config, failAt: Option<nat>)
      ensures this.config == config && this.failAt == failAt && trace == []
    {
      this.config := config;
      this.failAt := failAt;
      trace := [];
    }

    function MaxItems(): Option<nat> { config.maxItems }
    function ExpandStrings(): bool { config.expandStrings }
    function ImplicitProperties(): bool { config.implicitProperties }

    /** One Formatter call: recorded when it succeeds. */
    method Emit(e: Event) returns (ok: bool)
      modifies this
      ensures Run(trace, ok) == Emitted(old(trace), [e], failAt)
    {
      if failAt == Some(|trace|) {
        ok := false;
      } else {
        trace := trace + [e];
        ok := true;
      }
    }
  }

  /** `impl FormatExt for Value`. */
  method FormatValue(v: Value, prn: Printer) returns (ok: bool)
    modifies prn
    ensures Run(prn.trace, ok) == Emitted(old(prn.trace), Render(v, prn.config), prn.failAt)
    decreases v, 1
  {
    var cfg, start := prn.config, prn.trace;
    if !IsContainer(v) {
      var e: Event;
      if v.Str? {
        var literal := Escape.FormatString(v.text, prn.ExpandStrings());
        e := ConstScalar(literal);
      } else if v.Bytes? {
        var literal := Escape.FormatBytes(v.bytes);
        e := ConstScalar(literal);
      } else {
        e := Scalar(v, cfg);
      }
      ok := prn.Emit(e);
      return;
    }
    var whole := Render(v, cfg);
    ok := prn.Emit(Open(Kind(v)));
    if !ok {
      Abort(start, [Open(Kind(v))], whole, prn.failAt);
      return;
    }
    match v {
      case Set(items) => ok := FormatList(items, prn);
      case Array(items) => ok := FormatList(items, prn);
      case Tuple(items) => ok := FormatItems(items, |items|, prn);
      case NamedTuple(shape, values) => ok := FormatNamedTuple(shape, values, prn);
      case Object(shape, fields) => ok := FormatObject(shape, fields, prn);
    }
    Advance(start, [Open(Kind(v))], Contents(v, cfg), prn.failAt);
    if !ok {
      Abort(start, [Open(Kind(v))] + Contents(v, cfg), whole, prn.failAt);
      return;
    }
    ok := prn.Emit(Close);
    Advance(start, [Open(Kind(v))] + Contents(v, cfg), [Close], prn.failAt);
  }

  /** `impl FormatExt for Option<Value>`: a missing value is `nil()`. */
  method FormatOption(o: Option<Value>, prn: Printer) returns (ok: bool)
    modifies prn
    ensures Run(prn.trace, ok) == Emitted(old(prn.trace), RenderOption(o, prn.config), prn.failAt)
    decreases o, 1
  {
    match o {
      case Some(v) => ok := FormatValue(v, prn);
      case None => ok := prn.Emit(Nil);
    }
  }

  /** The body of a Set or an Array: the first `min(limit, N)` items,
      then an ellipsis when some were left out. */
  method FormatList(items: seq<Value>, prn: Printer) returns (ok: bool)
    modifies prn
    ensures Run(prn.trace, ok) == Emitted(old(prn.trace), RenderList(items, prn.config), prn.failAt)
    decreases items, 1
  {
    var start := prn.trace;
    var limit := prn.MaxItems();
    if limit.Some? {
      ok := FormatItems(items, Min(limit.value, |items|), prn);
      if !ok {
        Abort(start, RenderItems(items, Shown(|items|, prn.config), prn.config), RenderList(items, prn.config), prn.failAt);
        return;
      }
      if |items| > limit.value {
        ok := prn.Emit(Ellipsis);
        Advance(start, RenderItems(items, Shown(|items|, prn.config), prn.config), [Ellipsis], prn.failAt);
      } else {
        assert RenderList(items, prn.config) == RenderItems(items, Shown(|items|, prn.config), prn.config);
      }
    } else {
      ok := FormatItems(items, |items|, prn);
      assert RenderList(items, prn.config) == RenderItems(items, |items|, prn.config);
    }
  }

  /** The first `k` items, each followed by `comma()`. */
  method FormatItems(items: seq<Value>, k: nat, prn: Printer) returns (ok: bool)
    requires k <= |items|
    modifies prn
    ensures Run(prn.trace, ok) == Emitted(old(prn.trace), RenderItems(items, k, prn.config), prn.failAt)
    decreases items, 0
  {
    var cfg, start := prn.config, prn.trace;
    var i := 0;
    while i < k
      invariant i <= k && prn.config == cfg
      invariant Run(prn.trace, true) == Emitted(start, RenderItems(items, i, cfg), prn.failAt)
    {
      var done := RenderItems(items, i, cfg);
      var whole := RenderItems(items, k, cfg);
      ItemsGrow(items, i, k, cfg);
      var mid := prn.trace;
      ok := FormatValue(items[i], prn);
      Step(start, mid, done, Render(items[i], cfg), whole, prn.failAt, prn.trace, ok);
      if !ok {
        return;
      }
      mid := prn.trace;
      ok := prn.Emit(Comma);
      Step(start, mid, done + Render(items[i], cfg), [Comma], whole, prn.failAt, prn.trace, ok);
      if !ok {
        return;
      }
      i := i + 1;
    }
    ok := true;
  }

  /** The body of a named tuple: for each pair of the zip, its name,
      its value, `comma()`. */
  method FormatNamedTuple(shape: seq<Field>, values: seq<Value>, prn: Printer) returns (ok: bool)
    modifies prn
    ensures Run(prn.trace, ok)
      == Emitted(old(prn.trace), RenderTupleFields(shape, values, Min(|shape|, |values|), prn.config), prn.failAt)
    decreases values, 0
  {
    var cfg, start := prn.config, prn.trace;
    var m := Min(|shape|, |values|);
    var whole := RenderTupleFields(shape, values, m, cfg);
    var i := 0;
    while i < m
      invariant i <= m && prn.config == cfg
      invariant Run(prn.trace, true) == Emitted(start, RenderTupleFields(shape, values, i, cfg), prn.failAt)
    {
      var done := RenderTupleFields(shape, values, i, cfg);
      var entry := [TupleField(shape[i].name)] + Render(values[i], cfg) + [Comma];
      TupleFieldsGrow(shape, values, i, m, cfg);
      var mid := prn.trace;
      ok := FormatTupleField(shape[i].name, values[i], prn);
      Step(start, mid, done, entry, whole, prn.failAt, prn.trace, ok);
      if !ok {
        return;
      }
      i := i + 1;
    }
    ok := true;
  }

  /** One pair of a named tuple: `tuple_field(name)`, its value, `comma()`. */
  method FormatTupleField(name: string, v: Value, prn: Printer) returns (ok: bool)
    modifies prn
    ensures Run(prn.trace, ok) == Emitted(old(prn.trace), [TupleField(name)] + Render(v, prn.config) + [Comma], prn.failAt)
    decreases v, 2
  {
    var cfg, start := prn.config, prn.trace;
    var whole := [TupleField(name)] + Render(v, cfg) + [Comma];
    ok := prn.Emit(TupleField(name));
    if !ok {
      Abort(start, [TupleField(name)], whole, prn.failAt);
      return;
    }
    ok := FormatValue(v, prn);
    Advance(start, [TupleField(name)], Render(v, cfg), prn.failAt);
    if !ok {
      Abort(start, [TupleField(name)] + Render(v, cfg), whole, prn.failAt);
      return;
    }
    ok := prn.Emit(Comma);
    Advance(start, [TupleField(name)] + Render(v, cfg), [Comma], prn.failAt);
  }

  /** One object field: `object_field(label)`, its value, `comma()`. */
  method FormatField(mark: Event, o: Option<Value>, prn: Printer) returns (ok: bool)
    modifies prn
    ensures Run(prn.trace, ok) == Emitted(old(prn.trace), [mark] + RenderOption(o, prn.config) + [Comma], prn.failAt)
    decreases o, 2
  {
    var cfg, start := prn.config, prn.trace;
    var whole := [mark] + RenderOption(o, cfg) + [Comma];
    ok := prn.Emit(mark);
    if !ok {
      Abort(start, [mark], whole, prn.failAt);
      return;
    }
    ok := FormatOption(o, prn);
    Advance(start, [mark], RenderOption(o, cfg), prn.failAt);
    if !ok {
      Abort(start, [mark] + RenderOption(o, cfg), whole, prn.failAt);
      return;
    }
    ok := prn.Emit(Comma);
    Advance(start, [mark] + RenderOption(o, cfg), [Comma], prn.failAt);
  }

  /** The body of an object: the shown fields, counting them in `n`;
      when `n` stays zero, the `id` field alone if there is one. */
  method FormatObject(shape: seq<Field>, fields: seq<Option<Value>>, prn: Printer) returns (ok: bool)
    modifies prn
    ensures Run(prn.trace, ok) == Emitted(old(prn.trace), RenderObjectBody(shape, fields, prn.config), prn.failAt)
    decreases fields, 1
  {
    var m := Min(|shape|, |fields|);
    var n;
    ok, n := FormatShownFields(shape, fields, prn);
    if !ok {
      return;
    }
    if n == 0 {
      NoneShown(shape, fields, m, prn.config);
      var found := FindField(shape, m, IdField);
      if found.Some? {
        var j := found.value;
        ok := FormatField(ObjectField(shape[j].name, false), fields[j], prn);
      }
    }
  }

  /** The loop over the zipped fields of an object: each shown field is
      printed and counted in `n`. */
  method FormatShownFields(shape: seq<Field>, fields: seq<Option<Value>>, prn: Printer) returns (ok: bool, n: nat)
    modifies prn
    ensures var m := Min(|shape|, |fields|);
      Run(prn.trace, ok) == Emitted(old(prn.trace), RenderObjectFields(shape, fields, m, prn.config), prn.failAt)
    ensures ok ==> n == VisibleCount(shape, Min(|shape|, |fields|), prn.config)
    ensures !ok ==> VisibleCount(shape, Min(|shape|, |fields|), prn.config) > 0
    decreases fields, 0
  {
    var cfg, start := prn.config, prn.trace;
    var m := Min(|shape|, |fields|);
    var whole := RenderObjectFields(shape, fields, m, cfg);
    n := 0;
    var i := 0;
    while i < m
      invariant i <= m && prn.config == cfg
      invariant n == VisibleCount(shape, i, cfg)
      invariant Run(prn.trace, true) == Emitted(start, RenderObjectFields(shape, fields, i, cfg), prn.failAt)
    {
      var fld := shape[i];
      var done := RenderObjectFields(shape, fields, i, cfg);
      if !fld.implicit || prn.ImplicitProperties() {
        var mark := if fld.linkProperty then ObjectField(['@'] + fld.name, true) else ObjectField(fld.name, false);
        assert mark == ObjectField(Label(fld), fld.linkProperty);
        var entry := [mark] + RenderOption(fields[i], cfg) + [Comma];
        ObjectFieldsGrow(shape, fields, i, m, cfg);
        assert done + entry == RenderObjectFields(shape, fields, i + 1, cfg);
        var mid := prn.trace;
        ok := FormatField(mark, fields[i], prn);
        Step(start, mid, done, entry, whole, prn.failAt, prn.trace, ok);
        if !ok {
          VisibleCountGrow(shape, i, m, cfg);
          return;
        }
        n := n + 1;
      }
      i := i + 1;
    }
    ok := true;
  }
}
