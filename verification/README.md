# logsaw, modelled in Dafny

logsaw is a header-only C++ library that builds structured log lines. A caller
declares the shape of a line once, as a `format<...>` of field types. Some are
static (literal text, separators, indentation) and some are runtime (`text<>`,
`number`), supplied on every call. `log::add<Format>(values...)` then builds
a line. It first renders every scoped field alive at that moment, in
registration order. It then walks the declaration: each runtime position takes
the next supplied value, each static position takes the declaration's own field.
Scoped fields (`scoped_indent`, `scoped_index`, `scoped_text`) register
themselves in a process-wide list when constructed and erase themselves when
destroyed. The log keeps every line it built and dumps them one per line.

The model has four modules:

- `Fields` (fields.dfy): the declared kinds (`Kind`), each with a Static or
  Runtime tag decided by the kind alone, as `runtime_field` inheritance does.
  Also the field objects (`Field`), their default construction, and what each
  renders. The base-10 text of integers comes with a parser and a round-trip
  proof.
- `Format` (format.dfy): `field_filter` (`RuntimeFields`), the as-written
  `nontype` and a corrected static view, and the merge `for_each_field`
  (`ForEachField`, `Merge`). The merge is proved equal to the order-preserving
  zip over the static subsequence and the values (`Interleave`).
- `Scoped` (scoped.dfy): the `ScopedField` class. Its constructor appends it to
  a `Registry`, `Release` is its destructor, and `Render` advances a
  `scoped_index` counter. Erasure is specified by `RemoveAll`.
- `Logging` (log.dfy): the `Log` class with `Add` and `Out` (the dump),
  specified by `Dump`. `Records` reads the dump back, one record per line.
  Two client methods, `Scenario` and `CounterScenario`, use only these
  contracts to derive concrete lines: `"INFO hello"`, then `"  INFO hello"`
  under a `scoped_indent<2>`, and a `scoped_index<1, 1>` rendering `1` then `2`.

The declaration is a `seq<Kind>` and the supplied values a `seq<Field>`. The
C++ checks at compile time that the `make_tuple` of the values converts to
`runtime_fields_t`. Here that check is the precondition `Conforms`: one value
per runtime entry, in order, each of that entry's kind. The singleton
`scoped_field_list::instance()` is an explicit `Registry` object passed to the
operations that use it.

The model follows the code where it is more specific than the library's
evident intent:

- A `format<First, Rest...>` has at least one field, so `Log.Add` requires a
  non-empty declaration. The pure merge still handles the empty one.
- The destructor erases every entry equal to the field and reports nothing.
  Releasing a field that is not registered is a silent no-op, not an error.
  The registry never holds duplicates: each object registers once, in its
  constructor, and `Registry.Valid` records that.
- The merge indexes the whole declaration with `I`. It does not keep a cursor
  into a static subsequence. `MergeIsInterleave` shows that the result is the
  same as zipping the static subsequence with the values.
- Literal text, `text<>` and `scoped_text` are written with `os << const char*`,
  which stops at the first '\0'. `CString` models that cut, so a literal or
  a runtime text holding a '\0' renders only its prefix before it.

## Model

| member | source | states |
|---|---|---|
| Fields.TagOf | include/logsaw.h:51-141 | a kind is Runtime exactly when it derives from `runtime_field`: `text<>` (:113) and `number` (:131), and no other |
| Fields.Default | include/logsaw.h:114-132 | default construction keeps the declared kind; a runtime kind default-constructs to `text("")` or `number(0)` |
| Fields.Spaces | include/logsaw.h:168-171 | `std::string(width, ' ')` has exactly `width` characters, all spaces |
| Fields.NatDigits | include/logsaw.h:136-138 | the digits of a natural number: non-empty, all decimal digits, no leading zero except for 0 itself |
| Fields.ToDecimal | include/logsaw.h:136-138 | the text of an integer is non-empty and starts with '-' exactly when it is negative |
| Fields.NatDigitsValue | include/logsaw.h:136-138 | reading the digits of `n` back gives `n` |
| Fields.ToDecimalRoundTrip | include/logsaw.h:136-138 | `std::to_string(n)` parses back to `n`, for every integer |
| Fields.ToDecimalInjective | include/logsaw.h:136-138 | different numbers never render to the same text |
| Fields.FirstOf | include/logsaw.h:101-107 | the position of the first occurrence of a character (the length when absent): no earlier position holds it |
| Fields.CString | include/logsaw.h:101-127 | `os << const char*` writes the longest prefix of the character array that holds no '\0', stopping just before the first '\0' |
| Fields.CStringNoNul | include/logsaw.h:101-127 | a string with no '\0' is written whole |
| Fields.Render | include/logsaw.h:99-172 | literal and runtime text render as C strings, cut at the first '\0'; a separator renders its one character; an indent renders exactly `width` spaces; a number renders text that reads back as the number |
| Fields.RenderAllAppend | include/logsaw.h:315-321 | rendering fields one after another into the stream writes the first group, then the second |
| Format.RuntimeFields | include/logsaw.h:249-259 | `field_filter::type` has one entry per runtime entry of the declaration, and only runtime entries |
| Format.RuntimeFieldsPosition | include/logsaw.h:253-259 | runtime entry at declared position `k` is entry number (runtime entries before `k`) of `field_filter::type`: the runtime entries in their original order |
| Format.RuntimePositionsIncrease | include/logsaw.h:253-259 | an earlier runtime position maps to an earlier `field_filter::type` entry, so the mapping keeps relative order and is one-to-one |
| Format.StaticFieldsAsWritten | include/logsaw.h:261-265 | the as-written `nontype` has the static head (if any) plus one entry per runtime entry of the rest |
| Format.StaticFieldsAsWrittenCounterexample | include/logsaw.h:261-272 | for `[literal "INFO", separator ' ', text<>]` the as-written `nontype` is `[literal "INFO", text<>]`; interleaving it with the runtime entries does not rebuild the declaration |
| Format.StaticFieldsAsWrittenHoldsRuntime | include/logsaw.h:261-265 | whenever a runtime entry follows the first entry, the as-written `nontype` contains a runtime entry |
| Format.StaticFields | include/logsaw.h:261-265 | the intended static view: `|decl|` minus the runtime count entries, none of them runtime |
| Format.StaticFieldsPosition | include/logsaw.h:261-265 | static entry at position `k` is entry number (static entries before `k`) of the static view: the static entries in their original order |
| Format.PartitionReconstructs | include/logsaw.h:268-273 | putting the static and the runtime views back in their declared positions rebuilds the declaration exactly |
| Format.Interleave | include/logsaw.h:281-299 | the order-preserving zip over the static subsequence and the values yields one element per declared position |
| Format.Conforms | include/logsaw.h:312-313 | the `make_tuple` of the values converts to `runtime_fields_t`: as many values as runtime entries, each of a runtime kind |
| Format.ForEachField | include/logsaw.h:281-299 | from cursor `I` the merge emits exactly one field per remaining declared position and stops at the end of the declaration |
| Format.ForEachFieldCons | include/logsaw.h:291-298 | one step: at a runtime position it emits value `J` and advances both cursors; at a static position it emits the declared field at `I` and advances `I` only |
| Format.ForEachFieldPosition | include/logsaw.h:291-298 | from `(I, J)`, a runtime position `k` emits value `J` plus the runtime entries in `[I, k)`; a static position emits the declaration's own field |
| Format.Merge | include/logsaw.h:312-321 | `for_each_field<0, 0>` over the declaration and the supplied values emits one field per declared position |
| Format.MergePosition | include/logsaw.h:291-321 | position `k` of the merge is supplied value number (runtime positions before `k`) at a runtime position and the declared field otherwise; every emitted field has the declared kind |
| Format.ForEachFieldRuntimeOf | include/logsaw.h:291-298 | the runtime fields the merge emits from `(I, J)` are exactly the values `J ..` in order |
| Format.ForEachFieldStaticOf | include/logsaw.h:291-298 | the static fields the merge emits from `I` are exactly the default-constructed static entries from `I` on, in order |
| Format.MergeUsesEachValueOnce | include/logsaw.h:285-313 | every supplied value is emitted exactly once, in order; the static positions emit exactly the static entries, in order |
| Format.ForEachFieldIsInterleave | include/logsaw.h:281-299 | from any cursor pair the code's merge equals the two-cursor zip over the remaining static entries and values |
| Format.MergeIsInterleave | include/logsaw.h:281-321 | the code's merge (index `I` into the whole declaration) equals the order-preserving zip over the static subsequence and the values |
| Format.FormatLineSplits | include/logsaw.h:315-321 | the declared part of a line is the rendering of the first `k` emitted fields followed by that of the rest |
| Format.InfoHelloExample | include/logsaw.h:312-323 | `[literal "INFO", separator ' ', text<>]` with "hello" renders "INFO hello" |
| Format.NumbersExample | include/logsaw.h:312-323 | `[number, separator ':', number]` with 42 and 7 renders "42:7" |
| Format.StartExample | include/logsaw.h:312-323 | `[literal "START"]` takes no value and renders "START" |
| Scoped.ScopedOutWrites | include/logsaw.h:191-222 | the three `out` bodies: `scoped_indent` writes `width` spaces; `scoped_index` writes text that reads back as its counter; `scoped_text` writes its literal as a C string |
| Scoped.AdvanceIsProduct | include/logsaw.h:203-208 | `n` renderings advance a counter by `offset` each time, so by `n * offset` in all |
| Scoped.RemoveAll | include/logsaw.h:72-76 | erase(remove(x)) leaves no `x`, keeps nothing new, and keeps every other entry as often as before |
| Scoped.RemoveAllAppend | include/logsaw.h:72-76 | erasing distributes over concatenation, so the remaining entries keep their relative order |
| Scoped.RemoveAllAbsent | include/logsaw.h:72-76 | erasing an entry that is not there changes nothing |
| Scoped.RemoveAllSingle | include/logsaw.h:72-76 | erasing the single occurrence of `x` from `a + [x] + b` gives `a + b` |
| Scoped.RemoveAllDistinct | include/logsaw.h:72-76 | erasing keeps a registry free of duplicates |
| Scoped.ScopedField.constructor | include/logsaw.h:68-208 | a new scoped field is appended at the end of the registry, earlier entries unchanged (:68-70); a `scoped_index` starts at `begin` (`int i = begin`, :208) |
| Scoped.ScopedField.Release | include/logsaw.h:72-76 | the destructor leaves the registry equal to the old one with every occurrence of this field erased |
| Scoped.ScopedField.Render | include/logsaw.h:191-222 | writes what `ScopedOut` gives for the current counter; a `scoped_index` writes `begin + n * offset` on its n-th rendering (from 0) and advances `i` by `offset`; other kinds do not change |
| Scoped.Registry.constructor | include/logsaw.h:55-65 | the registry starts empty |
| Scoped.Texts | include/logsaw.h:308-310 | one text per registered field, in registry order, each what that field's `out` writes next |
| Scoped.ConcatAppend | include/logsaw.h:308-310 | writing two groups of texts one after another writes the first group, then the second |
| Scoped.PrefixTextAppend | include/logsaw.h:308-310 | rendering two slices of the registry writes the first, then the second |
| Scoped.PrefixAfterRelease | include/logsaw.h:72-76 | after a field registered once is released, lines start with the renderings of the fields before it, then those after it |
| Logging.Dump | include/logsaw.h:331-335 | the dump is empty exactly when the buffer is, has at least one character per line, and ends with '\n' |
| Logging.DumpAppend | include/logsaw.h:331-335 | dumping a concatenation of line buffers writes the first, then the second |
| Logging.DumpSnoc | include/logsaw.h:331-335 | one more buffered line adds that line and its '\n' after the rest of the dump |
| Logging.DumpRecords | include/logsaw.h:331-335 | when no line holds a '\n' itself, splitting the dump into records gives back exactly the buffered lines, in order |
| Logging.RenderScoped | include/logsaw.h:308-310 | the loop over the registry renders every field once, in order, and writes exactly the old prefix text; every counter advances by its step |
| Logging.Log.constructor | include/logsaw.h:338 | a new log holds no lines |
| Logging.Log.Add | include/logsaw.h:303-326 | the line is the old renderings of the registry in order, then the merged declaration; it is appended at the end of the buffer, earlier lines unchanged, and returned; every scoped field is rendered once |
| Logging.Log.Out | include/logsaw.h:331-336 | the stream receives every buffered line followed by '\n', in append order; the buffer is not modified |

## Findings

| source | as written | input that shows it | evidently intended | confidence | as-written member | corrected member |
|---|---|---|---|---|---|---|
| include/logsaw.h:261-265 | `nontype` conses a static head onto `field_filter<Rest...>::type`, the runtime filter of the tail | `format<LOGSAW_STR("INFO"), separator<' '>, text<>>`: `static_fields_t` is `tuple<literal, text<>>` | recurse into `field_filter<Rest...>::nontype`, giving `tuple<literal, separator<' '>>`; the base case `field_filter<>` (:251) then also needs `using nontype = std::tuple<>` | not executed; high (`static_fields_t` is never used by `add`, so lines are unaffected) | Format.StaticFieldsAsWrittenCounterexample | Format.StaticFields |

## Left out

- `timestamp` (include/logsaw.h:152-163) reads the wall clock through `ctime`. It is not a declared kind here.
- `align::width` and `align::scoped_width` (include/logsaw.h:180-188, 225-233) write nothing. They set `setw` and left/right justification on the stream, state that persists on `add`'s function-static stringstream. Stream manipulator state is not modelled.
- The literal machinery (`LOGSAW_STR`, `operator""_logstr`, `integer_sequence`) is not modelled: a literal is a plain string in `LiteralText`.
- `enable_if`, `if constexpr`, `std::tuple`, `decay`/`forward` are not modelled. Lists of types and tuples are sequences, and the compile-time arity and type check is the precondition `Conforms`.
- `std::is_base_of<field, T>` (the second filter predicate) is not modelled: every kind is a field.
- A scoped field type placed inside a `format<...>` is not a declared kind. `add` would default-construct it, which registers it for the rest of that call.
- `operator<<`, the `ss.str("")` reuse and the virtual `out` dispatch are not modelled: rendering produces strings.
- Fields.ToDecimal: `number` holds a `long` (64 bits on LP64 platforms, 32 bits on LLP64 ones such as Windows); the model's integers are unbounded, so the range of `long` is not modelled.
- Scoped.ScopedField.Render: `i += offset` on `scoped_index`'s `int i` is undefined behaviour in C++ once it overflows; the model's counter is unbounded, so overflow is not modelled.
- `Fields.Spaces` takes a natural width. A negative template width makes `std::string(width, ' ')` throw, which is not modelled.
- A null `const char*` held by `text<>` is not modelled: text is always a string.
- Destructor timing and the singleton `instance()` are not modelled: the registry is an explicit object and `ScopedField.Release` is called by the owner of the scope.
