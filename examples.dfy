/** Concrete comparisons from the repository's test suite, worked out on the
    model with the default options. */
module Scenarios {
  import opened Wrappers
  import opened GoStrings
  import opened Values
  import opened Diffs
  import opened WalkSpec
  import opened Properties

  function DefaultEnv(equal: (Value, Value) -> bool): Env
  {
    Env(DefaultOptions, equal)
  }

  /** type s1 struct { id int; Name string; Number int } */
  function S1(id: int, name: string, number: int): (r: Value)
    ensures r.Struct? && |r.fields| == 3
  {
    Struct("deep_test.s1", false, [
      Field("id", false, "", Int("int", id)),
      Field("Name", true, "", Str("string", name)),
      Field("Number", true, "", Int("int", number))])
  }

  /** The unexported `id` field is passed over; the other two give one line
      each, in declaration order. */
  lemma StructScenario(equal: (Value, Value) -> bool)
    ensures Run(DefaultEnv(equal), S1(1, "foo", 2), S1(11, "bar", 22)).diff
         == ["Name: foo != bar", "Number: 2 != 22"]
  {
    var env := DefaultEnv(equal);
    var a, b := S1(1, "foo", 2), S1(11, "bar", 22);
    assert TypeOf(a) == TypeOf(b);
    RunStructs(env, a, b);
    assert Hidden(env.opts, a.fields[0]);
    assert StructFrom(env, EmptySink, [], a, b, 0, false, 0) == StructFrom(env, EmptySink, [], a, b, 0, false, 1);
    var s1 := NameStep(env, a, b);
    NumberStep(env, a, b, s1);
  }

  lemma NameStep(env: Env, a: Value, b: Value) returns (s1: Sink)
    requires env.opts == DefaultOptions && a == S1(1, "foo", 2) && b == S1(11, "bar", 22)
    ensures StructFrom(env, EmptySink, [], a, b, 0, false, 1) == StructFrom(env, s1, [], a, b, 0, false, 2)
    ensures s1.diff == ["Name: foo != bar"]
  {
    s1 := Walk(env, EmptySink, ["Name"], a.fields[1].value, b.fields[1].value, 1, false);
    assert s1 == Save(EmptySink, ["Name"], Text("foo"), Text("bar"), false);
    assert Join(["Name"], '.') == "Name";
    assert Line(["Name"], Text("foo"), Text("bar")) == "Name: foo != bar";
    assert !Hidden(env.opts, a.fields[1]) && Segment(a.fields[1]) == "Name";
  }

  lemma NumberStep(env: Env, a: Value, b: Value, s1: Sink)
    requires env.opts == DefaultOptions && a == S1(1, "foo", 2) && b == S1(11, "bar", 22)
    requires s1.diff == ["Name: foo != bar"]
    ensures StructFrom(env, s1, [], a, b, 0, false, 2).diff == ["Name: foo != bar", "Number: 2 != 22"]
  {
    var s2 := Walk(env, s1, ["Number"], a.fields[2].value, b.fields[2].value, 1, false);
    assert s2 == Save(s1, ["Number"], RawInt(2), RawInt(22), false);
    NumberLine();
    assert !Hidden(env.opts, a.fields[2]) && Segment(a.fields[2]) == "Number";
    assert StructFrom(env, s2, [], a, b, 0, false, 3) == s2;
  }

  lemma NumberLine()
    ensures Line(["Number"], RawInt(2), RawInt(22)) == "Number: 2 != 22"
  {
    assert Join(["Number"], '.') == "Number";
    assert NatToString(22) == NatToString(2) + [Digit(2)] == "22";
    assert Render(RawInt(22)) == "22";
    assert Render(RawInt(2)) == "2";
  }

  function IntSlice(xs: seq<int>): (r: Value)
    ensures r.Slice? && |r.elems| == |xs|
  {
    Slice("[]int", false, seq(|xs|, i requires 0 <= i < |xs| => Int("int", xs[i])))
  }

  /** A slice one element shorter: the missing index is recorded against
      "[empty value]", on the side that lacks it. */
  lemma SliceScenario(equal: (Value, Value) -> bool)
    ensures Run(DefaultEnv(equal), IntSlice([1, 2, 3]), IntSlice([1, 2])).diff == ["#2: 3 != [empty value]"]
  {
    var env := DefaultEnv(equal);
    var a, b := IntSlice([1, 2, 3]), IntSlice([1, 2]);
    RunCollections(env, a, b);
    SharedPrefix(env, a, b);
    OverhangRecords(env, EmptySink, [], a, b, 0, false, 2);
    SliceLine(a, b);
  }

  lemma SharedPrefix(env: Env, a: Value, b: Value)
    requires env.opts == DefaultOptions && a == IntSlice([1, 2, 3]) && b == IntSlice([1, 2])
    ensures IndexedFrom(env, EmptySink, [], a, b, 0, false, 0) == IndexedFrom(env, EmptySink, [], a, b, 0, false, 2)
  {
    assert a.elems[0] == b.elems[0] && a.elems[1] == b.elems[1];
    assert IndexStep(env, EmptySink, [], a, b, 0, false, 1) == EmptySink;
    assert IndexStep(env, EmptySink, [], a, b, 0, false, 0) == EmptySink;
  }

  lemma SliceLine(a: Value, b: Value)
    requires a == IntSlice([1, 2, 3]) && b == IntSlice([1, 2])
    ensures OverhangLines([], a, b, 2) == ["#2: 3 != [empty value]"]
  {
    assert OverhangLines([], a, b, 3) == [];
    assert a.elems[2] == Int("int", 3);
    IndexTwoLine();
    assert OverhangLines([], a, b, 2) == [OverhangLine([], a, b, 2)] + OverhangLines([], a, b, 3);
  }

  lemma IndexTwoLine()
    ensures Line([IndexSegment(2)], Reflected(Int("int", 3)), Text(EmptyValue)) == "#2: 3 != [empty value]"
  {
    IndexTwo();
    ThreeRendered();
    assert Join(["#2"], '.') == "#2";
  }

  lemma IndexTwo()
    ensures IndexSegment(2) == "#2"
  {
    assert NatToString(2) == [Digit(2)] == "2";
  }

  lemma ThreeRendered()
    ensures Render(Reflected(Int("int", 3))) == "3"
  {
    assert NatToString(3) == [Digit(3)] == "3";
  }

  /** A nil *T against &T{1}: the pointer types agree, the nil side
      dereferences to nothing, and the line names the other side's type. */
  lemma NilPointerScenario(equal: (Value, Value) -> bool)
    ensures var t := Struct("deep_test.T", false, [Field("i", false, "", Int("int", 1))]);
            Run(DefaultEnv(equal), Ptr("*deep_test.T", Nil), Ptr("*deep_test.T", t)).diff
              == ["<nil pointer> != deep_test.T"]
  {
    var t := Struct("deep_test.T", false, [Field("i", false, "", Int("int", 1))]);
    var env := DefaultEnv(equal);
    var a, b := Ptr("*deep_test.T", Nil), Ptr("*deep_test.T", t);
    assert Walk(env, EmptySink, [], a, b, 0, false) == Walk(env, EmptySink, [], Nil, t, 1, false);
    assert Walk(env, EmptySink, [], Nil, t, 1, false) == Save(EmptySink, [], Text(NilPointer), TypeName(TypeOf(t)), false);
    assert Render(TypeName(TypeOf(t))) == "deep_test.T";
    assert Line([], Text(NilPointer), TypeName(TypeOf(t))) == "<nil pointer> != deep_test.T";
  }

  function StrIntMap(es: seq<(string, int)>): (r: Value)
    ensures r.Map? && !r.isNil && |r.entries| == |es|
  {
    Map("map[string]int", false, seq(|es|, i requires 0 <= i < |es| => Entry(Str("string", es[i].0), Int("int", es[i].1))))
  }

  /** A key only on the left is recorded against "[empty value]" by the
      first key loop. */
  lemma MapScenario(equal: (Value, Value) -> bool)
    ensures Run(DefaultEnv(equal), StrIntMap([("foo", 1), ("bar", 2)]), StrIntMap([("bar", 2)])).diff
         == ["foo: 1 != [empty value]"]
  {
    var env := DefaultEnv(equal);
    var ma, mb := StrIntMap([("foo", 1), ("bar", 2)]), StrIntMap([("bar", 2)]);
    RunCollections(env, ma, mb);
    var s1 := FooMissing(env, ma, mb);
    BarTail(env, ma, mb, s1);
    FooLeftLine();
  }

  lemma FooMissing(env: Env, ma: Value, mb: Value) returns (s1: Sink)
    requires env.opts == DefaultOptions
    requires ma == StrIntMap([("foo", 1), ("bar", 2)]) && mb == StrIntMap([("bar", 2)])
    ensures s1 == Save(EmptySink, ["foo"], Boxed(Int("int", 1)), Text(EmptyValue), false)
    ensures MapFrom(env, EmptySink, [], ma, mb, 0, false, 0) == MapFrom(env, s1, [], ma, mb, 0, false, 1)
  {
    s1 := Save(EmptySink, ["foo"], Boxed(Int("int", 1)), Text(EmptyValue), false);
    assert ma.entries[0] == Entry(Str("string", "foo"), Int("int", 1));
    assert Lookup(mb.entries, Str("string", "foo")).None?;
  }

  lemma BarTail(env: Env, ma: Value, mb: Value, s1: Sink)
    requires env.opts == DefaultOptions
    requires ma == StrIntMap([("foo", 1), ("bar", 2)]) && mb == StrIntMap([("bar", 2)])
    requires |s1.diff| == 1
    ensures MapFrom(env, s1, [], ma, mb, 0, false, 1) == s1
  {
    assert ma.entries[1] == Entry(Str("string", "bar"), Int("int", 2));
    assert Lookup(mb.entries, Str("string", "bar")) == Some(Int("int", 2));
    assert Walk(env, s1, ["bar"], Int("int", 2), Int("int", 2), 1, false) == s1;
    assert mb.entries[0].key == Str("string", "bar");
    assert Lookup(ma.entries, Str("string", "bar")).Some?;
    assert MapMissingFrom(env, s1, [], ma, mb, 0) == s1;
    assert MapFrom(env, s1, [], ma, mb, 0, false, 2) == s1;
  }

  /** The same key only on the right is recorded by the second key loop. */
  lemma MapScenarioReversed(equal: (Value, Value) -> bool)
    ensures Run(DefaultEnv(equal), StrIntMap([("bar", 2)]), StrIntMap([("foo", 1), ("bar", 2)])).diff
         == ["foo: [empty value] != 1"]
  {
    var env := DefaultEnv(equal);
    var ma, mb := StrIntMap([("foo", 1), ("bar", 2)]), StrIntMap([("bar", 2)]);
    RunCollections(env, mb, ma);
    BarMatches(env, ma, mb);
    MissingFoo(ma, mb);
    MissingKeysRecords(env, EmptySink, [], mb, ma, 0);
  }

  lemma BarMatches(env: Env, ma: Value, mb: Value)
    requires env.opts == DefaultOptions
    requires ma == StrIntMap([("foo", 1), ("bar", 2)]) && mb == StrIntMap([("bar", 2)])
    ensures MapFrom(env, EmptySink, [], mb, ma, 0, false, 0) == MapMissingFrom(env, EmptySink, [], mb, ma, 0)
  {
    assert Lookup(ma.entries, Str("string", "bar")) == Some(Int("int", 2));
    assert Walk(env, EmptySink, ["bar"], Int("int", 2), Int("int", 2), 1, false) == EmptySink;
    assert MapFrom(env, EmptySink, [], mb, ma, 0, false, 1) == MapMissingFrom(env, EmptySink, [], mb, ma, 0);
  }

  lemma MissingFoo(ma: Value, mb: Value)
    requires ma == StrIntMap([("foo", 1), ("bar", 2)]) && mb == StrIntMap([("bar", 2)])
    ensures MissingLines([], mb, ma, 0) == ["foo: [empty value] != 1"]
  {
    assert Lookup(mb.entries, Str("string", "foo")).None?;
    assert Lookup(mb.entries, Str("string", "bar")).Some?;
    assert MissingLines([], mb, ma, 1) == [];
    FooRightLine();
  }

  lemma FooLeftLine()
    ensures Save(EmptySink, ["foo"], Boxed(Int("int", 1)), Text(EmptyValue), false).diff == ["foo: 1 != [empty value]"]
  {
    OneRendered();
    assert Join(["foo"], '.') == "foo";
    assert Line(["foo"], Boxed(Int("int", 1)), Text(EmptyValue)) == "foo: 1 != [empty value]";
  }

  lemma FooRightLine()
    ensures Line(["foo"], Text(EmptyValue), Boxed(Int("int", 1))) == "foo: [empty value] != 1"
  {
    OneRendered();
    assert Join(["foo"], '.') == "foo";
    assert Line(["foo"], Text(EmptyValue), Boxed(Int("int", 1))) == "foo: [empty value] != 1";
  }

  lemma OneRendered()
    ensures Render(Boxed(Int("int", 1))) == "1"
  {
    assert NatToString(1) == [Digit(1)] == "1";
  }
}
