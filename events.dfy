/** The Formatter as seen by the value walker: three configuration
    queries and the calls the walker makes, recorded as a trace of events.

    A container call (`set`, `array`, `tuple`, `named_tuple`, `object`)
    is recorded as `Open(kind)`, the events of its body, then `Close`.
    `At(t, d)` is the sub-trace of events at nesting level `d` of `t`;
    `Outline(t)` keeps the separators and labels directly inside the
    outermost container, which is where the per-container rules
    (truncation, field selection) are visible.
 */
module Events {
  import opened Values

  /** `max_items()`, `expand_strings()`, `implicit_properties()`. */
  datatype Config = Config(maxItems: Option<nat>, expandStrings: bool, implicitProperties: bool)

  datatype ContainerKind =
    | SetKind
    | ArrayKind
    | TupleKind
    | NamedTupleKind
    | ObjectKind(typeName: Option<string>)

  datatype Event =
    | ConstScalar(text: string)
    | Typed(tag: string, text: string)
    | Nil
    | Open(kind: ContainerKind)
    | Close
      /** `fieldLabel` is the text written; `isLink` selects the link-property style. */
    | ObjectField(fieldLabel: string, isLink: bool)
    | TupleField(name: string)
    | Comma
    | Ellipsis

  function Delta(e: Event): int {
    if e.Open? then 1 else if e.Close? then -1 else 0
  }

  /** Opens minus closes. */
  function Net(t: seq<Event>): int {
    if t == [] then 0 else Delta(t[0]) + Net(t[1..])
  }

  /** The events of `t` at nesting level `d`, measured from the start of
      `t`. An `Open` and its `Close` sit at the level of the container
      they delimit; the body sits one level deeper. */
  function At(t: seq<Event>, d: int): seq<Event> {
    if t == [] then [] else Here(t[0], d) + At(t[1..], d - Delta(t[0]))
  }

  /** `e` itself if it sits at level `d` relative to where it occurs. */
  function Here(e: Event, d: int): seq<Event> {
    if (if e.Close? then -1 else 0) == d then [e] else []
  }

  /** Separators and field labels: the events a container's own body
      contributes, as opposed to the items it renders. */
  predicate IsMark(e: Event) {
    e.Comma? || e.Ellipsis? || e.ObjectField? || e.TupleField?
  }

  function Marks(t: seq<Event>): seq<Event> {
    if t == [] then [] else (if IsMark(t[0]) then [t[0]] else []) + Marks(t[1..])
  }

  /** The marks directly inside the outermost container of `t`. */
  function Outline(t: seq<Event>): seq<Event> {
    Marks(At(t, 1))
  }

  function Repeat(e: Event, n: nat): (r: seq<Event>)
    ensures |r| == n && forall i :: 0 <= i < n ==> r[i] == e
  {
    if n == 0 then [] else Repeat(e, n - 1) + [e]
  }

  /** Each label followed by one `Comma`. */
  function Interleave(labels: seq<Event>): (r: seq<Event>)
    ensures |r| == 2 * |labels|
    ensures forall i :: 0 <= i < |labels| ==> r[2 * i] == labels[i] && r[2 * i + 1] == Comma
  {
    if labels == [] then [] else Interleave(labels[..|labels| - 1]) + [labels[|labels| - 1], Comma]
  }

  lemma {:induction false} NetAppend(a: seq<Event>, b: seq<Event>)
    ensures Net(a + b) == Net(a) + Net(b)
  {
    if a != [] {
      assert (a + b)[0] == a[0] && (a + b)[1..] == a[1..] + b;
      NetAppend(a[1..], b);
    } else {
      assert a + b == b;
    }
  }

  lemma {:induction false} AtAppend(a: seq<Event>, b: seq<Event>, d: int)
    ensures At(a + b, d) == At(a, d) + At(b, d - Net(a))
  {
    if a != [] {
      var d' := d - Delta(a[0]);
      calc {
        At(a + b, d);
        { assert (a + b)[0] == a[0] && (a + b)[1..] == a[1..] + b; }
        Here(a[0], d) + At(a[1..] + b, d');
        { AtAppend(a[1..], b, d'); }
        Here(a[0], d) + (At(a[1..], d') + At(b, d' - Net(a[1..])));
        { assert Net(a) == Delta(a[0]) + Net(a[1..]); }
        (Here(a[0], d) + At(a[1..], d')) + At(b, d - Net(a));
      }
    } else {
      assert a + b == b;
    }
  }

  lemma {:induction false} MarksAppend(a: seq<Event>, b: seq<Event>)
    ensures Marks(a + b) == Marks(a) + Marks(b)
  {
    if a != [] {
      assert (a + b)[0] == a[0] && (a + b)[1..] == a[1..] + b;
      MarksAppend(a[1..], b);
    } else {
      assert a + b == b;
    }
  }

  /** A trace that is balanced and never closes more than it opened. */
  ghost predicate Nested(t: seq<Event>) {
    Net(t) == 0 && forall d :: d < 0 ==> At(t, d) == []
  }

  /** Two nested traces in a row are nested, and their levels line up. */
  lemma NestedAppend(a: seq<Event>, b: seq<Event>)
    requires Nested(a) && Nested(b)
    ensures Nested(a + b)
    ensures forall d :: At(a + b, d) == At(a, d) + At(b, d)
  {
    NetAppend(a, b);
    forall d ensures At(a + b, d) == At(a, d) + At(b, d) {
      AtAppend(a, b, d);
    }
  }

  /** A single event other than Open/Close is nested and sits at level 0. */
  lemma NestedFlat(e: Event)
    requires !e.Open? && !e.Close?
    ensures Nested([e]) && At([e], 0) == [e]
    ensures forall d :: d != 0 ==> At([e], d) == []
  {
  }

  /** Wrapping a nested body in a container: the container's own Open
      and Close are its level 0, and its level 1 is the body's level 0. */
  lemma NestedContainer(kind: ContainerKind, body: seq<Event>)
    requires Nested(body)
    ensures var t := [Open(kind)] + body + [Close];
      && Nested(t)
      && At(t, 0) == [Open(kind), Close]
      && At(t, 1) == At(body, 0)
  {
    var t := [Open(kind)] + body + [Close];
    ContainerLevels(kind, body);
    forall d | d < 0 ensures At(t, d) == [] {
      assert At(body, d - 1) == [];
    }
    assert At(body, -1) == [];
  }

  /** The levels of a container trace, from those of its body. */
  lemma ContainerLevels(kind: ContainerKind, body: seq<Event>)
    requires Net(body) == 0
    ensures var t := [Open(kind)] + body + [Close];
      && Net(t) == Net(body)
      && forall d :: At(t, d) == Here(Open(kind), d) + At(body, d - 1) + Here(Close, d - 1)
  {
    NetAppend([Open(kind)], body);
    NetAppend([Open(kind)] + body, [Close]);
    Single(Open(kind), 0);
    Single(Close, 0);
    forall d ensures At([Open(kind)] + body + [Close], d) == Here(Open(kind), d) + At(body, d - 1) + Here(Close, d - 1) {
      ContainerLevel(kind, body, d);
    }
  }

  lemma ContainerLevel(kind: ContainerKind, body: seq<Event>, d: int)
    requires Net(body) == 0
    ensures At([Open(kind)] + body + [Close], d) == Here(Open(kind), d) + At(body, d - 1) + Here(Close, d - 1)
  {
    AtAppend([Open(kind)] + body, [Close], d);
    AtAppend([Open(kind)], body, d);
    Single(Open(kind), d);
    Single(Close, d - 1);
    NetAppend([Open(kind)], body);
  }

  lemma Single(e: Event, d: int)
    ensures At([e], d) == Here(e, d) && Net([e]) == Delta(e)
  {
    assert [e][1..] == [];
  }
}
