# edgedb-cli result-value printer, in Dafny

This project models the native pretty-printer of the EdgeDB command-line
client (`src/print/native.rs`). The printer takes one decoded query-result
value and walks it, telling an abstract `Formatter` what to print:

- a scalar becomes one `const_scalar` call, or one `typed` call for a
  temporal value;
- a container (set, array, tuple, named tuple, object) becomes one
  bracketing call whose closure prints the items, separated by `comma()`;
- a set or an array stops after `max_items()` items and, when items were
  left out, prints an `ellipsis()`;
- an object prints only the fields that are not implicit (unless
  `implicit_properties()` is on), labels a link property `@name`, falls
  back to the `id` field when no field is shown, and takes its type name
  from the `__tname__` field.

Four text encoders produce the scalar literals:

- `format_string`: single-quoted, with the escape table;
- `format_bytes`: `b'…'`;
- `format_bigint`: trailing zeros compressed to `eK`, then an `n` suffix;
- `format_decimal`: leading or trailing zeros compressed.

Files:

- `values.dfy` — the `Value` tree and the object/named-tuple shape.
- `escape.dfy` — `format_string` and `format_bytes`. Each is a loop method
  proved to build the literal that a specification function describes.
  Each literal has a reader, and a lemma proves that the reader gets the
  input back.
- `numerals.dfy` — `format_bigint` and `format_decimal`, over the
  base-10 text of the number. Each has a reader and a round-trip lemma.
  Worked examples are proved: `1230000000` → `123e7n`, `100000` →
  `100000n`, `0.0000001` → `0.1e-6`, `10.5` → `10.5n`, `1000000` →
  `1.0e6n`, `100` → `100.0n`.
- `events.dfy` — the Formatter calls as events, and the nesting level of
  each event in a trace.
- `render.dfy` — `Render`: the sequence of Formatter calls a value
  produces when no call fails.
- `renderfacts.dfy` — the per-container rules, proved of `Render`:
  - the trace is balanced;
  - what each kind of container writes at its own level (commas,
    ellipsis, field labels);
  - truncation;
  - the `id` fallback;
  - the `__tname__` lookup;
  - how `zip` pairs shape and values.
- `walk.dfy` — the walk itself, as methods on a `Printer` object whose
  calls can fail at a chosen position. Each method is proved to record
  exactly `Render(...)`, or its prefix up to the failing call; after that
  call the walk returns at once, as `?` does.

Each `zip` of a shape with its values is modelled as the code runs it: it
pairs the first `min(|shape|, |values|)` elements and ignores the rest.
The code has no length check, and neither has the model.
`RenderFacts.NamedTupleZip` and `RenderFacts.ObjectZip` prove that the
extra elements are ignored.

## Model

| member | source | states |
|---|---|---|
| `Escape.EscapeChar` | src/print/native.rs:20-32 | a character is pushed unchanged iff it is not `'`, `\\`, a control character, or (when not expanded) CR, LF or TAB; `'` becomes `\'`, `\\` becomes `\\\\`, and unexpanded CR, LF, TAB become `\r`, `\n`, `\t`; a control character up to DEL becomes `\x` + two hex digits, a C1 control `\u` + four, and the digits read back as its code |
| `Escape.HexRoundTrip` | src/print/native.rs:23-25 | a code written with the zero-padded lower-case `{:02x}`/`{:04x}` form reads back as the same code |
| `Escape.CodeEscapeDigits` | src/print/native.rs:20-25 | a control character up to DEL is written as `\x` + 2 digits, a C1 control as `\u` + 4 digits, and the digits read back as its code |
| `Escape.FormatString` | src/print/native.rs:16-36 | the loop that pushes one escape chunk per character builds exactly `'` + escaped body + `'` |
| `Escape.StringLiteralReadsBack` | src/print/native.rs:16-36 | the literal starts and ends with `'`; its body holds no raw `'` and reads back as exactly the input string, whatever `expanded` is |
| `Escape.StringLiteralInjective` | src/print/native.rs:16-36 | two different strings never print as the same literal |
| `Escape.ExpandedAffectsOnlyWhitespace` | src/print/native.rs:20-31 | `expanded` changes the output for CR, LF and TAB and for nothing else; in expanded mode a character passes through unchanged iff it is not a quote, a backslash or a control character |
| `Escape.EscapeByte` | src/print/native.rs:45-55 | a byte is pushed as its own character iff it is printable ASCII other than `'` and `\\`; `'`, `\\`, CR, LF and TAB become `\'`, `\\\\`, `\r`, `\n`, `\t`; a control or non-ASCII byte becomes `\x` + two hex digits that read back as the byte |
| `Escape.FormatBytes` | src/print/native.rs:38-59 | the loop that pushes one escape chunk per byte builds exactly `b'` + escaped body + `'` |
| `Escape.EscapeBytePrintable` | src/print/native.rs:45-55 | each byte becomes 1, 2 or 4 characters, all printable ASCII |
| `Escape.BytesBodyPrintable` | src/print/native.rs:44-56 | the body of a byte literal is printable ASCII, between `n` and `4n` characters for `n` bytes |
| `Escape.BytesLiteralReadsBack` | src/print/native.rs:38-59 | the literal is `b'` + printable body + `'`, and the body reads back as exactly the input bytes |
| `Numerals.TrimEndZeros` | src/print/native.rs:63-64 | `trim_end_matches('0')`: the input is the result followed by zeros, and the result does not end in `0` |
| `Numerals.TrimStartZeros` | src/print/native.rs:76-77 | `trim_start_matches('0')`: the input is zeros followed by the result, and the result does not start with `0` |
| `Numerals.FormatBigint` | src/print/native.rs:61-70 | the output ends in `n`; with more than five trailing zeros it starts with the digits before them followed by `e`; otherwise it is the text followed by `n` |
| `Numerals.BigintReadsBack` | src/print/native.rs:61-70 | expanding `eK` gives back the original digits; the exponent form is used iff more than five trailing zeros were stripped |
| `Numerals.BigintExponent` | src/print/native.rs:63-66 | with more than five trailing zeros the text is the stripped digits + that many zeros, and it prints as the stripped digits + `e` + the count + `n` |
| `Numerals.BigintExamples` | src/print/native.rs:61-70 | `1230000000` prints as `123e7n` and `100000` as `100000n` |
| `Numerals.FormatDecimal` | src/print/native.rs:72-91 | a fraction not starting `0.00000` is printed as is plus `n`; one starting `0.00000` prints as `0.`… with an exponent `e`; integral text with more than five trailing zeros starts with the stripped digits + `.0e`, and otherwise is the text + `.0n` |
| `Numerals.DecimalReadsBack` | src/print/native.rs:72-91 | expanding the exponent gives back the original text, with `.0` added for an integral value; an integral value takes the exponent form iff more than five trailing zeros were stripped |
| `Numerals.IntegralDecimalExponent` | src/print/native.rs:83-86 | an integral text with more than five trailing zeros is the stripped digits + that many zeros, and it prints as the stripped digits + `.0e` + the count + `n` |
| `Numerals.DecimalSuffix` | src/print/native.rs:72-91 | the output ends in `n` iff the text is not a fraction starting `0.00000` |
| `Numerals.SmallDecimalExponent` | src/print/native.rs:75-78 | a fraction starting `0.00000` prints as `0.` + its digits without leading zeros + `e-` + the number of zeros removed, which is at least five |
| `Numerals.DecimalExamples` | src/print/native.rs:72-91 | `0.0000001` → `0.1e-6`, `10.5` → `10.5n`, `1000000` → `1.0e6n`, `100` → `100.0n` |
| `Rendering.Render` | src/print/native.rs:93-223 | a container value opens with a bracketing call and ends with a closing one; any other value is exactly one `const_scalar` or `typed` call |
| `Rendering.RenderOption` | src/print/native.rs:225-232 | the calls begin with `nil()` iff the value is missing |
| `Rendering.TypeName` | src/print/native.rs:142-149 | a type name found is the string of some zipped `__tname__` field; with no zipped `__tname__` field there is none |
| `Rendering.RenderObjectBody` | src/print/native.rs:150-179 | the body is empty iff no zipped field is shown and no zipped field is named `id`; with none shown and an `id` field, it starts with the plain `id` label |
| `Rendering.Scalar` | src/print/native.rs:97-119 | every scalar is a single `const_scalar` or `typed` call, and a string uses the `format_string` literal with the printer's `expand_strings()` |
| `Rendering.FindField` | src/print/native.rs:142-144 | `zip(...).find(name)`: the index found is the first of the zipped pairs with that name; none is found iff no zipped pair has it |
| `RenderFacts.TypeNameLookup` | src/print/native.rs:142-149 | the type name is present iff the first `__tname__` field holds a present string, and it is that string |
| `RenderFacts.FieldLabelsShown` | src/print/native.rs:152-162 | one label per shown field; a label occurs iff a field is shown under it: not implicit or `implicit_properties()`, `@name` for a link property |
| `RenderFacts.VisibleCountZero` | src/print/native.rs:151-168 | the counter `n` stays zero iff no zipped field is shown |
| `RenderFacts.RenderNested` | src/print/native.rs:93-223 | every value's calls are balanced (each container call closes what it opens) and write no separator or label outside a container |
| `RenderFacts.OutlineRule` | src/print/native.rs:120-219 | what a container writes at its own level is the rule of its kind |
| `RenderFacts.CollectionOutline` | src/print/native.rs:120-138 | a Set or an Array writes one comma for each of the first `min(limit, N)` items (all `N` without a limit), then an ellipsis iff `N > limit` |
| `RenderFacts.CollectionTruncation` | src/print/native.rs:122-135 | a Set or an Array prints exactly what the Tuple of its first `min(limit, N)` items prints, plus an ellipsis when some items were left out |
| `RenderFacts.TupleOutline` | src/print/native.rs:182-190 | a tuple writes one comma per item, whatever `max_items()` says, and never an ellipsis |
| `RenderFacts.NamedTupleOutline` | src/print/native.rs:191-200 | a named tuple writes, for every zipped pair, `tuple_field(name)` and then a comma |
| `RenderFacts.ObjectOutline` | src/print/native.rs:150-179 | an object writes the labels of its shown fields, each followed by a comma; with none shown, only `id` and a comma when an `id` field exists, else nothing; never an ellipsis |
| `RenderFacts.ObjectIdFallback` | src/print/native.rs:168-178 | an object with no shown field prints its first `id` field, as a plain label, with its value |
| `RenderFacts.ObjectEmpty` | src/print/native.rs:168-179 | an object with no shown field and no `id` prints an empty body |
| `RenderFacts.NamedTupleZip` | src/print/native.rs:193 | a named tuple prints as the one cut to its first `min(|shape|, |values|)` pairs |
| `RenderFacts.ObjectZip` | src/print/native.rs:142-171 | an object prints as the one cut to its first `min(|shape|, |fields|)` pairs, type name included |
| `Walk.Emitted` | src/print/native.rs:124-128 | when every call succeeds the trace gains all the intended calls; after a failing call it is a strict prefix of the intended trace that keeps the earlier one |
| `Walk.EmittedStopsAtFailure` | src/print/native.rs:124-128 | issuing the calls fails iff the failing position falls among them, and the trace then holds exactly the calls before that position |
| `Walk.Printer.Emit` | src/print/native.rs:124-125 | a Formatter call is recorded when it succeeds, and it fails exactly at the chosen position |
| `Walk.FormatValue` | src/print/native.rs:93-223 | the walk of a value records `Render(v)`, or its prefix up to the first failing call |
| `Walk.FormatOption` | src/print/native.rs:225-232 | a present value is walked as itself, a missing one is one `nil()` call |
| `Walk.FormatList` | src/print/native.rs:120-138 | the body of a Set or an Array: the shown items, then an ellipsis iff truncated, stopping at the first failing call |
| `Walk.FormatItems` | src/print/native.rs:182-190 | the loop over items: each item, then `comma()`, stopping at the first failing call |
| `Walk.FormatNamedTuple` | src/print/native.rs:191-200 | the loop over the zipped pairs: name, value, `comma()`, stopping at the first failing call |
| `Walk.FormatObject` | src/print/native.rs:150-179 | the object body records `RenderObjectBody`: the shown fields, then the `id` field when `n` is zero; it stops at the first failing call |
| `Walk.FormatShownFields` | src/print/native.rs:151-167 | the loop over the zipped fields records each shown field and counts them in `n`; on success `n` is the number shown, and it fails only when some field is shown |
| `Walk.FormatTupleField` | src/print/native.rs:194-196 | one pair of a named tuple: `tuple_field(name)`, its value, then `comma()`, stopping at the first failing call |
| `Walk.FormatField` | src/print/native.rs:153-166 | one shown field: its label, its value (or `nil()`), then `comma()` |

## Left out

- `src/self_install.rs` is not part of this model. It is installation
  plumbing: files, environment, registry, processes and prompts.
- `src/print/formatter.rs` is not part of this model. The `Formatter`
  trait is reduced to the calls it receives (`Events.Event`) and its three
  queries (`Events.Config`).
- The real backends are not modelled: buffering, indentation, colours and
  suppression of the trailing comma. Colours and bold text (`.rgb(...)`,
  `.light_blue().bold()`) are left out. A field label keeps its text and
  its link-property flag only.
- Text from foreign `Display`/`Debug` implementations is kept as an opaque
  payload: uuids, machine integers, floats, temporal values and JSON.
- `BigInt::to_string` and `BigDecimal::to_string` are not modelled. The
  encoders take the base-10 text as input.
- Numerals.BigintReadsBack: holds for text without an `e`, which is
  what `BigInt::to_string` produces.
- Numerals.DecimalReadsBack: holds for text without an exponent. It reads
  an integral value back with `.0` added, because `format_decimal` adds it.
- When a Formatter call fails, the walk stops. What the backend prints for
  the containers that are still open is its own affair. The model records
  no closing call for them.
- A fraction starting `0.00000` prints without the `n` suffix. Every other
  decimal literal has it. The model keeps the code's behaviour, and
  `Numerals.DecimalSuffix` states it.
- A shape longer or shorter than its values is not an error: see the
  notes on `zip` above.
- Recursion depth and stack use are not modelled.
