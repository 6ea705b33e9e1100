# deep: a verified model of a structural difference finder

`deep` (Go package `github.com/chaelub/deep`) compares two values and reports
where they differ. It does not return a yes/no answer. It walks both values in
lock-step: struct fields, map keys, array and slice indices, and it follows
pointers and interfaces. Every difference becomes a record, filed under a
dotted path such as `Alias.Nickname` or `#2`. `CompareS` returns the records as
formatted lines (`"Name: foo != bar"`). `CompareM` returns them as a map from
path to an old/new pair. Neither descends past `MaxDepth` levels. The loops
stop once the list of lines holds `MaxDiff` entries. That cuts `CompareS` off
after `MaxDiff` lines. `CompareM` writes a line only for a difference at the
root, so below the root it records every difference (unless `MaxDiff` is zero
or negative).

This project models that comparator in Dafny.

- `values.dfy` (module `Values`) is a closed datatype of Go values. It stands
  in for `reflect.Value`, with a `Type` for type identity and the `fmt`
  renderings the comparator asks for.
- `go_strings.dfy` (module `GoStrings`) holds `strings.Join`,
  `strings.Split` and decimal rendering.
- `tags.dfy` (module `Tags`) is the `compare:"..."` struct-tag parser.
- `diffs.dfy` (module `Diffs`) holds the options, the two sinks, and
  `saveDiff` as a function on them.
- `walk.dfy` (module `WalkSpec`) is the whole comparison as a function. Each
  loop of `equals` becomes a function "from iteration `i` on".
- `deep.dfy` (module `Deep`) is the `cmp` record as a class, `Comparator`. Its
  methods `Push`, `Pop`, `SaveDiff` and the recursive `Equals` mirror the Go
  code statement by statement, loops and early exits included. Each method is
  proved to leave exactly the state the function in `walk.dfy` gives.
  `Compare`, `CompareS` and `CompareM` are the entry points.
- `properties.dfy` (module `Properties`) proves the behaviour the package
  promises about that function, and so about the class:
  - reflexivity;
  - one record and no descent for nil or mismatched types;
  - the depth guard and the difference-count bound;
  - hidden struct fields;
  - nil collections, slice overhang and missing map keys, with the MaxDiff
    cut-off;
  - error values compared by message;
  - map mode keeping the list of lines to the root's record.
- `examples.dfy` (module `Scenarios`) works out comparisons from the
  package's tests.
- `findings.dfy` (module `Findings`) records one defect of the source.

How the model represents things:

- The semantics of a type's own `Equal(T) bool` method is a parameter (`equal`
  in `WalkSpec.Env`).
- Go's map iteration order is fixed by storing a map as a sequence of entries.
- `ro` tracks reflection's read-only mark: the value was reached through an
  unexported field. The `Equal` override is used only on values without that
  mark, as `CanInterface` requires.

## Model

| member | source | states |
|---|---|---|
| Tags.GetTagOpts | deep.go:440-452 | `exists` holds iff the tag is non-empty. `skip` holds iff the tag contains a comma, and then the name is the text before the first comma. Otherwise the name is the whole tag. |
| Tags.TagRoundTrip | deep.go:440-452 | A comma-free name parses back to itself, unskipped. Any suffix after a comma keeps the name and sets skip. |
| GoStrings.Split | deep.go:445 | `strings.Split` on one separator: more than one piece iff the separator occurs. The first piece is the separator-free prefix. |
| GoStrings.JoinSplit | deep.go:408 | Joining the pieces of a split gives back the string. |
| GoStrings.JoinShape | deep.go:408 | `strings.Join`: one piece is itself. With more pieces the result starts with the first piece followed by the separator. With separator-free pieces the separator occurs iff there is more than one piece. |
| GoStrings.SplitJoin | deep.go:408 | Splitting a join of separator-free pieces gives back the pieces. |
| GoStrings.NatToString | deep.go:320 | `%d` of an index: decimal digits only, a single digit below ten and no leading zero from ten on. The same rendering names slice indices at deep.go:348. |
| GoStrings.IntToStringReads | deep.go:416 | `%v` of a signed integer: digits that read back as the number, after a `-` when it is negative. |
| GoStrings.ParseNatToString | deep.go:320 | The decimal rendering used for `#%d` index segments reads back as the same number. |
| Values.TypeOf | deep.go:145-151 | A value's reflect.Type has the value's kind (all twelve) and name, and an interface type says whether it is `error`. It fixes the field declarations of a struct and the length of an array. |
| Values.SameTypeSameShape | deep.go:145-151 | Two values of one type have the same kind, the same number of fields and the same array length. |
| Values.Lookup | deep.go:290-291 | `MapIndex`: it finds nothing iff no entry has the key. Otherwise it finds the value of an entry with that key. |
| Values.LookupOwnKey | deep.go:287-292 | In a map with distinct keys, looking up an entry's own key finds that entry's value. |
| Values.Elem | deep.go:172-185 | `Elem()` of a pointer is its target and of an interface its content. Either is strictly smaller than the value, which is the walk's termination measure on these acyclic values. |
| Values.ErrorText | deep.go:160-163 | Calling `Error()` gives a message iff the value is a concrete error or an interface holding one, and then it is that error's message. |
| Values.RenderScalars | deep.go:416 | `%v` of a scalar: a string is its text, a bool is `true` or `false`, a number is decimal digits that read back as the number, after a `-` when it is negative. The root line at deep.go:424 uses the same verb. |
| Values.RenderComposites | deep.go:416 | `%v` of the other kinds: `<nil>` for a nil pointer or interface, `&` before a pointed-to value, `{...}` for a struct, `map[...]` for a map, `[...]` for an array or slice. The root line at deep.go:424 uses the same verb. |
| Values.KeyTextShapes | deep.go:288 | `%s` of a map key: a string is its text, an error is its message, another scalar gets the bad-verb form `%!s(type=value)`, an interface prints what it holds, and structs and arrays are bracketed. |
| Values.ValueString | deep.go:310 | `reflect.Value.String()` of a key: a string is its text, any other kind is `<T Value>`. |
| Diffs.Save | deep.go:406-426 | In list mode, one line `path: old != new` is appended (`old != new` at the top level) and the map sink is untouched. In map mode, the pair is stored under the dotted path, or under "result" plus one line at the top level. Nothing else changes. |
| Diffs.RenderShown | deep.go:416 | How each argument of `saveDiff` prints under `%v`: text as itself, a type as its name, raw bools and numbers as their text, reflected and boxed values by `%v` of the value. The root line at deep.go:424 uses the same verb. |
| Diffs.DiffKeyShape | deep.go:408-419 | The map-sink key: "result" at the root, the one segment for a one-segment path, and otherwise the first segment followed by a dot. |
| Diffs.DiffKeyInjective | deep.go:408 | For non-empty paths whose segments have no dot, two paths get the same key iff they are the same path. |
| Diffs.DiffKeyCollisions | deep.go:408-419 | Without that premise keys collide: a map key `a.b` files under the same key as field `a` then `b`, and a root-level segment "result" collides with the root's own key. |
| Diffs.LineShape | deep.go:416-424 | A list line starts with the dotted path and ": " below the root, is `old != new` at the root, and always ends with " != " and the new value. |
| Diffs.GrowsTrans | deep.go:254-256 | Two growing steps compose when the first leaves the list below MaxDiff, as the loops check after each child. |
| WalkSpec.Walk | deep.go:128-394 | `equals` in the code's order of checks: depth, nil, type identity, error strings, dereference, kind. The sinks only grow within the difference bound. Beyond MaxDepth nothing changes. |
| WalkSpec.ByKind | deep.go:187-394 | The kind switch, once both sides are valid and of one type: structs, maps, arrays, slices and the primitive kinds. The sinks only grow within the difference bound. |
| WalkSpec.NilCollection | deep.go:274-281 | A nil map or slice on one side records the present side against "[empty value]". The sinks only grow within the bound. The slice case at deep.go:328-335 does the same with the reflect.Value. |
| WalkSpec.Scalar | deep.go:374-389 | Two bools, integers or strings record their raw values once when they differ. The sinks only grow within the bound. |
| WalkSpec.Segment | deep.go:237-242 | A field's path segment is its name when it has no tag, and the tag up to its first comma otherwise. |
| WalkSpec.StructFrom | deep.go:227-257 | The struct field loop, in declaration order. Hidden fields are passed over. It stops once the list sink reaches MaxDiff. The sinks only grow within the bound. |
| WalkSpec.FieldStep | deep.go:237-252 | One visible field: its value pair is compared one level deeper under its segment, with the read-only mark set for an unexported field. The sinks only grow within the bound. |
| WalkSpec.IndexedFrom | deep.go:317-360 | The array and slice index loops, up to the longer length. An index past one side's end is recorded against "[empty value]". The sinks only grow within the bound. |
| WalkSpec.IndexStep | deep.go:348-356 | One index: both elements are compared one level deeper when both sides have it. Otherwise the present element is recorded against "[empty value]" on its own side. The sinks only grow within the bound. |
| WalkSpec.MapFrom | deep.go:286-303 | The first key loop: a shared key recurses and a key missing from `b` is recorded. Then the second loop runs. The sinks only grow within the bound. |
| WalkSpec.KeyStep | deep.go:288-298 | One key of `a`: under the key's `%s` text, the two values are compared one level deeper when `b` has the key. Otherwise `a`'s value, boxed, is recorded against "[empty value]". The sinks only grow within the bound. The MaxDiff return after it (deep.go:300-302) is in `MapFrom`. |
| WalkSpec.MapMissingFrom | deep.go:305-316 | The second key loop: keys only in `b`, named by `reflect.Value.String()`. The sinks only grow within the bound. |
| WalkSpec.Run | deep.go:99-126 | `compare`: two nils record nothing. One nil records exactly one `saveDiff` at the root: the present side, boxed, first and "<nil pointer>" second, whichever side is nil. In list mode the map sink stays empty. In map mode any line comes with a "result" entry. |
| Deep.Comparator.constructor | deep.go:102-108 | A fresh comparator has empty sinks, an empty path stack and the given options. |
| Deep.Comparator.Push | deep.go:396-398 | The segment is appended to the path stack. |
| Deep.Comparator.Pop | deep.go:400-404 | The innermost segment is dropped. An empty stack stays empty. |
| Deep.Comparator.SaveDiff | deep.go:406-426 | The sinks become exactly `Save` of the old sinks at the current path. |
| Deep.Comparator.Equals | deep.go:128-394 | The sinks become exactly `Walk` of the old sinks. The path stack is the same on return. |
| Deep.Comparator.EqualsByKind | deep.go:187-394 | The kind switch leaves exactly `ByKind` of the old sinks. The path stack is the same on return. |
| Deep.Comparator.EqualsFields | deep.go:227-257 | The field loop leaves exactly `StructFrom`, with the path stack balanced, including on the MaxDiff break. |
| Deep.Comparator.EqualsEntries | deep.go:286-303 | The first key loop, then the second, leave exactly `MapFrom`, with the path stack balanced, including on the MaxDiff return. |
| Deep.Comparator.EqualsMissing | deep.go:305-316 | The second key loop leaves exactly `MapMissingFrom`, with the path stack balanced. |
| Deep.Comparator.EqualsElements | deep.go:317-360 | The array and slice loops leave exactly `IndexedFrom`, with the path stack balanced. |
| Deep.Comparator.EqualsIndex | deep.go:348-356 | One pass of the slice loop body (push, compare or record, pop) leaves exactly `IndexStep`, with the path stack balanced. |
| Deep.Comparator.EqualsKey | deep.go:288-298 | One pass of the first map loop body (push the key text, compare or record, pop) leaves exactly the sinks `KeyStep` gives, with the path stack restored. |
| Deep.ChooseOptions | deep.go:73-78 | The first option set when one is given, else the defaults. `CompareS` chooses the same way at deep.go:87-92. |
| Deep.Compare | deep.go:99-126 | A fresh comparator ends with exactly the sinks `Run` gives. `hasDiff` holds iff some record was made in either sink. |
| Deep.CompareS | deep.go:86-97 | With the first option set or the defaults: the lines when there is a difference, else nothing. In list mode, `hasDiff` holds iff lines are returned. |
| Deep.CompareM | deep.go:72-84 | Map mode forced on: the path map when there is a difference, else nothing. `hasDiff` holds iff the map is non-empty. |
| Properties.WalkReflexive | deep.go:128-394 | Comparing a value with itself leaves the sinks unchanged, at any depth and path. This assumes Go-buildable values (distinct map keys) and reflexive `Equal` methods. |
| Properties.ByKindReflexive | deep.go:187-394 | Every case of the kind switch records nothing for a value and itself. |
| Properties.StructFromReflexive | deep.go:227-257 | The struct loop over a value and itself records nothing. |
| Properties.IndexedFromReflexive | deep.go:317-360 | The index loops over a value and itself record nothing. |
| Properties.MapFromReflexive | deep.go:286-303 | The first key loop over a map and itself records nothing: every key is found in itself. |
| Properties.MapMissingReflexive | deep.go:305-316 | The second key loop over a map and itself records nothing. |
| Properties.RunReflexive | deep_test.go:406-409 | `compare(v, v)` gives empty sinks and no difference. The tests compare a map, an array and a slice with themselves (also deep_test.go:480 and deep_test.go:546). |
| Properties.WalkMapMode | deep.go:406-426 | In map mode a comparison adds at most one line, and none below the root: the list of lines only ever holds the root's record. |
| Properties.ByKindMapMode | deep.go:187-394 | The same for the kind switch. |
| Properties.StructFromMapMode | deep.go:227-257 | In map mode the field loop leaves the list of lines unchanged. |
| Properties.IndexedFromMapMode | deep.go:317-360 | In map mode the index loops leave the list of lines unchanged. |
| Properties.MapFromMapMode | deep.go:286-303 | In map mode the first key loop, and the second after it, leave the list of lines unchanged. |
| Properties.MapMissingMapMode | deep.go:305-316 | In map mode the second key loop leaves the list of lines unchanged. |
| Properties.RunMapMode | deep.go:72-84 | `CompareM` leaves at most one line in the list of lines: the record for a difference at the root, if any. |
| Properties.NilRecordsOnce | deep.go:135-143 | Exactly one side invalid gives exactly one `saveDiff`, `<nil pointer>` against the other side's type, and no descent. In list mode that is one more line. In map mode it is one map entry and, below the root, no line. Both invalid give nothing. |
| Properties.TypeMismatchRecordsOnce | deep.go:145-151 | Differing types give exactly one `saveDiff` naming both types, whatever the values hold. In list mode that is one more line. In map mode it is one map entry and, below the root, no line. |
| Properties.ErrorsCompareByMessage | deep.go:157-168 | Two values of one error type that both hold an error are compared by their messages alone: exactly one `saveDiff` of the two messages when they differ, nothing when they agree, and no descent. |
| Properties.DerefCostsOneLevel | deep.go:172-185 | A pointer pair is compared by what it points to, one level deeper. |
| Properties.RunBounded | deep.go:254-256 | A whole comparison leaves at most MaxDiff lines, or one line when MaxDiff is below one. |
| Properties.RunStructs | deep.go:99-126 | Two structs of one type without an `Equal` method are compared by the field loop from the first field, at the top level. |
| Properties.RunCollections | deep.go:99-126 | Two non-nil maps (slices) of one type are compared by the key loops (the index loop) from the start, at the top level. |
| Properties.FieldNaming | deep.go:228-242 | A field's path segment is its tag, or its name when there is no tag. A comma in the tag hides the field. An unexported field is hidden iff unexported fields are not compared. |
| Properties.HiddenFieldInvisible | deep.go:227-235 | Changing a hidden field's value, on either side, never changes what is recorded, unless the type's Equal method decides. |
| Properties.HiddenFieldFrom | deep.go:227-235 | From any field on, the field loop gives the same sinks whatever the values of a hidden field on either side. |
| Properties.NilCollectionRecordsOnce | deep.go:274-281 | In either mode, a nil slice or map against a present one of the same type gives exactly one `saveDiff` of the whole value against "[empty value]": a map boxed, a slice as the reflect.Value. Two nil ones give nothing. The slice case is deep.go:328-335. |
| Properties.OverhangStep | deep.go:349-355 | In list mode: an index past one side's end appends exactly its one record, against "[empty value]" on the missing side. |
| Properties.OverhangRecords | deep.go:339-360 | In list mode: past the shorter slice's end, each index gives one `#i` record against "[empty value]", in index order. The loop appends as many of them as fit below MaxDiff, and at least one. With enough of them it stops at exactly MaxDiff lines. |
| Properties.MissingKeysRecords | deep.go:305-316 | In list mode: each key only in `b` gives one `[empty value] != v` record, in `b`'s order. The loop appends as many of them as fit below MaxDiff, and at least one. With enough of them it stops at exactly MaxDiff lines. |
| Properties.IntStep | deep.go:348-357 | In list mode: an index where both sides hold different integers of one type, within the depth limit, appends exactly its one `#i: x != y` line. The integer comparison is deep.go:378-381. |
| Properties.DifferingIntsRecords | deep.go:317-360 | In list mode: arrays or slices of one length whose integers differ at every index give one `#i: x != y` line per index, in index order. The loop appends as many as fit below MaxDiff, and at least one. With enough of them it stops at exactly MaxDiff lines, as the test at deep_test.go:208-222 expects. |
| Properties.AbsentKeyStep | deep.go:294-303 | A key of `a` that `b` lacks gives one `saveDiff` of the boxed value against "[empty value]" under the key's `%s` text (in list mode, exactly that one line), then the MaxDiff check, then the next key. |
| Properties.MatchingKeysRecordNothing | deep.go:286-303 | Keys of `a` that `b` holds with equal values record nothing. While the list is below MaxDiff, the first loop hands the sinks unchanged to the second. |
| Properties.TooManyMissingKeys | deep_test.go:268-290 | When `b` holds all of `a` and more extra keys than MaxDiff, `CompareS` gives exactly MaxDiff lines. |
| Properties.MissingIntKeysShareOneSlot | deep.go:310 | In map mode, two int keys missing from `a` both get the path segment `<int Value>`. Only the last one's pair is kept. |
| Scenarios.StructScenario | deep_test.go:301-358 | The struct test: the unexported `id` is ignored. The result is `Name: foo != bar` then `Number: 2 != 22`. |
| Scenarios.SliceScenario | deep_test.go:563-573 | `[1 2 3]` against `[1 2]` gives exactly `#2: 3 != [empty value]`. |
| Scenarios.NilPointerScenario | deep_test.go:620-630 | A nil `*T` against `&T{1}` gives exactly `<nil pointer> != deep_test.T`. |
| Scenarios.MapScenario | deep_test.go:422-432 | A key only on the left gives exactly `foo: 1 != [empty value]`. |
| Scenarios.MapScenarioReversed | deep_test.go:434-444 | The same key only on the right gives exactly `foo: [empty value] != 1`. |
| Findings.InterfaceAsWritten | deep.go:276 | `reflect.Value.Interface()` fails iff the value carries the read-only mark. Otherwise it boxes the value. |
| Findings.UnexportedNilMapAsWritten | deep.go:274-277 | A nil map in an unexported field against a present one reaches the nil-map branch with the read-only mark set, where `Interface()` fails. |
| Findings.UnexportedNilMapCorrected | deep.go:274-277 | The model records exactly `m: [empty value] != map[k:1]` there. |

## Left out

- Floating-point kinds (deep.go:366-373): comparing and rendering with `%.*f` is floating-point formatting. `FloatPrecision` is kept as an option but unused.
- `logError` (deep.go:428-432): it writes to the standard logger and has no effect on the result.
- The `a.Pointer() == b.Pointer()` shortcut for maps and slices (deep.go:283, deep.go:337): it depends on storage identity, which the value model does not have. For well-formed values it only skips comparisons that record nothing (Properties.RunReflexive). Two slices sharing a backing array with different lengths are a case it changes that the model does not capture.
- The mutable global `DefaultOptions` (deep.go:24-30) is the constant `Diffs.DefaultOptions`. Tests that assign to it correspond to passing other options.
- Map iteration order: Go randomises it. The model uses the entry order of the map value, so which records survive a MaxDiff cut-off in a map is fixed here and arbitrary in Go.
- `%v` rendering of composite values (`Values.RenderValue`) follows fmt's shape. Go sorts map keys when printing, and the model prints them in entry order.
- Values.RenderValue: fmt prints a pointer inside a composite value, and a pointer to a scalar, as a hexadecimal address. The model prints `&` and the target there, as fmt does only for a top-level pointer to a struct, array, slice or map. Addresses are not part of the value model.
- Values.RenderValue: types with their own `String()` method (such as `time.Time`) print through it under `%v`. The model prints their structure. User methods other than `Equal` and `Error` are not modelled.
- Values.KeyText: the same two gaps apply to `%s` of a map key that is or holds a pointer, or whose type has a `String()` method.
- Values.Lookup: it compares keys structurally, where Go compares pointer keys by address. Two maps keyed by distinct pointers to equal values are a difference in Go and none in the model. For the same reason `Values.WellFormed`, and so the requires of `Properties.WalkReflexive` and `Properties.RunReflexive`, excludes a map holding two distinct pointer keys to equal values, which Go can build. Values are finite trees, so cyclic pointer structures are not represented.
- Calling a type's own `Equal` method is the parameter `equal`. The check that its argument type is `b`'s type (deep.go:218) is folded into the `hasEqual` flag on struct values.
- Error values: `Err` is always a non-nil pointer whose `Error()` returns its message. Nil pointers of a concrete error type are not modelled. An `error` interface holding something other than `Err` skips the message comparison and is dereferenced.
- Calling `Error()` on an error reached through an unexported field also fails in Go (deep.go:162-163). The model compares the messages there, like the map case under Findings.
- Integer widths: `Int` and `Uint` hold unbounded numbers. The comparator only tests them for equality and prints them, so width does not matter.
- `reflect.Value` kinds the comparator does not handle (channels, functions, unsafe pointers, complex numbers) are represented by `Func` only. They record nothing. `Values.RenderValue` prints such a value as its type name, where fmt prints an address; this shows when one sits inside a map or slice element that is recorded.
- Runtime panics: the one under Findings is modelled by `WalkSpec.Walk` recording `Boxed(b)` (the corrected behaviour), with the panic itself shown by `Findings.UnexportedNilMapAsWritten`. Other panics (for example `Equal` methods that panic) are not modelled.

## Findings

| source | as written | input that shows it | evidently intended | confidence | as-written member | corrected member |
|---|---|---|---|---|---|---|
| deep.go:274-279, deep.go:295, deep.go:311 | With `CompareUnexportedFields` set, the map case passes `a.Interface()` / `b.Interface()` / `aVal.Interface()` / `b.MapIndex(key).Interface()` to `saveDiff`. For a map reached through an unexported field, `reflect` refuses `Interface()` and the comparison panics. | `struct{ m map[string]int }` with `m: nil` against `m: {"k": 1}`, with `CompareUnexportedFields: true` | Record the difference, as the slice case does by passing the `reflect.Value` itself: `m: [empty value] != map[k:1]` | not executed | Findings.UnexportedNilMapAsWritten | Findings.UnexportedNilMapCorrected |
