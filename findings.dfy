/** Maps reached through an unexported struct field, with
    CompareUnexportedFields set. The map case hands the map itself, or one of
    its values, to saveDiff through reflect.Value.Interface(), and reflection
    refuses Interface() on a value obtained from an unexported field: the
    comparison panics instead of recording the difference. The rest of the
    model records the boxed value there, which is what the other kinds do
    (they pass the reflect.Value or a raw scalar, which never panics). */
module Findings {
  import opened Wrappers
  import opened GoStrings
  import opened Values
  import opened Diffs
  import opened WalkSpec

  const InterfacePanic := "reflect.Value.Interface: cannot return value obtained from unexported field or method"

  /** reflect.Value.Interface() as it behaves: it fails on a value marked
      read-only (`ro`), and otherwise boxes the value. */
  function InterfaceAsWritten(v: Value, ro: bool): (r: Result<Shown, string>)
    ensures r.Failure? <==> ro
    ensures r.Success? ==> r.value == Boxed(v)
    ensures r.Failure? ==> r.error == InterfacePanic
  {
    if ro then Failure(InterfacePanic) else Success(Boxed(v))
  }

  /** A struct type `holder` with one unexported map field `m`. */
  function Holder(m: Value): (r: Value)
    ensures r.Struct? && |r.fields| == 1 && !r.fields[0].exported
  {
    Struct("holder", false, [Field("m", false, "", m)])
  }

  const NilMap := Map("map[string]int", true, [])
  const OneKeyMap := Map("map[string]int", false, [Entry(Str("string", "k"), Int("int", 1))])

  /** As written: comparing holder{m: nil} with holder{m: {"k": 1}} while
      unexported fields are compared reaches the nil-map branch with the
      read-only mark set, where `b.Interface()` is called, and that call
      fails. */
  lemma UnexportedNilMapAsWritten(env: Env)
    requires env.opts.compareUnexportedFields && env.opts.maxDepth >= 1
    ensures Run(env, Holder(NilMap), Holder(OneKeyMap))
         == Walk(env, EmptySink, ["m"], NilMap, OneKeyMap, 1, true)
    ensures InterfaceAsWritten(OneKeyMap, true).Failure?
  {
    var a, b := Holder(NilMap), Holder(OneKeyMap);
    assert TypeOf(a) == TypeOf(b);
    assert !Hidden(env.opts, a.fields[0]);
    var s' := Walk(env, EmptySink, ["m"], NilMap, OneKeyMap, 1, true);
    assert StructFrom(env, s', [], a, b, 0, false, 1) == s';
  }

  /** Corrected: the same comparison records the one difference, with the
      present map rendered by `%v`. */
  lemma UnexportedNilMapCorrected(env: Env)
    requires env.opts.compareUnexportedFields && env.opts.maxDepth >= 1 && !env.opts.asMap
    ensures Run(env, Holder(NilMap), Holder(OneKeyMap)).diff == ["m: [empty value] != map[k:1]"]
    ensures HasDiff(Run(env, Holder(NilMap), Holder(OneKeyMap)))
  {
    UnexportedNilMapAsWritten(env);
    var s := Walk(env, EmptySink, ["m"], NilMap, OneKeyMap, 1, true);
    assert s == Save(EmptySink, ["m"], Text(EmptyValue), Boxed(OneKeyMap), false);
    OneKeyMapLine();
  }

  lemma OneKeyMapLine()
    ensures Line(["m"], Text(EmptyValue), Boxed(OneKeyMap)) == "m: [empty value] != map[k:1]"
  {
    OneKeyMapShown();
    assert Join(["m"], '.') == "m";
    OneKeyMapText();
  }

  lemma OneKeyMapText()
    ensures "m" + ": " + EmptyValue + " != " + "map[k:1]" == "m: [empty value] != map[k:1]"
  {
  }

  lemma OneKeyMapShown()
    ensures Render(Boxed(OneKeyMap)) == "map[k:1]"
  {
    var es := OneKeyMap.entries;
    assert Digit(1) == '1';
    assert RenderValue(es[0].val) == "1";
    var shown := seq(|es|, i requires 0 <= i < |es| => RenderValue(es[i].key) + ":" + RenderValue(es[i].val));
    assert |shown| == 1;
    assert shown[0] == "k" + ":" + "1" == "k:1";
    assert shown == ["k:1"];
  }
}
