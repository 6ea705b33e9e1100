/** The comparison as a function: what `equals` leaves in the sinks, given the
    sinks and the path stack it starts with. The loops of `equals` appear as
    functions `...From(i)` giving the sinks after the iterations from `i` on. */
module WalkSpec {
  import opened Wrappers
  import opened GoStrings
  import opened Values
  import opened Tags
  import opened Diffs

  /** The options and the semantics of the types' own `Equal(T) bool` methods,
      which the comparator calls but which are not part of it. */
  datatype Env = Env(opts: Options, equal: (Value, Value) -> bool)

  /** A struct field the loop passes over: unexported while unexported fields
      are not compared, or tagged to be skipped. */
  predicate Hidden(opts: Options, f: Field)
  {
    (!f.exported && !opts.compareUnexportedFields) || GetTagOpts(f.tag).skip
  }

  /** The path segment of a struct field: its tag name when it has a tag. */
  function Segment(f: Field): (r: string)
    ensures |f.tag| == 0 ==> r == f.name
    ensures |f.tag| > 0 ==> r == f.tag[..IndexOf(f.tag, ',')]
  {
    var t := GetTagOpts(f.tag);
    if t.present then t.name else f.name
  }

  /** The path segment of element `i` of an array or slice. */
  function IndexSegment(i: nat): string
  {
    "#" + NatToString(i)
  }

  /** equals(a, b, level) on sinks `s` with path stack `path`. `ro` is
      reflection's read-only mark: the values were reached through an
      unexported field. */
  function Walk(env: Env, s: Sink, path: seq<string>, a: Value, b: Value, level: int, ro: bool): (r: Sink)
    ensures Grows(env.opts, s, r)
    ensures level > env.opts.maxDepth ==> r == s
    decreases a, b, 3, 0
  {
    var asMap := env.opts.asMap;
    if level > env.opts.maxDepth then s
    else if a.Nil? || b.Nil? then
      if !a.Nil? then Save(s, path, TypeName(TypeOf(a)), Text(NilPointer), asMap)
      else if !b.Nil? then Save(s, path, Text(NilPointer), TypeName(TypeOf(b)), asMap)
      else s
    else if TypeOf(a) != TypeOf(b) then Save(s, path, TypeName(TypeOf(a)), TypeName(TypeOf(b)), asMap)
    else if ImplementsError(TypeOf(a)) && ImplementsError(TypeOf(b)) && ErrorText(a).Some? && ErrorText(b).Some? then
      if ErrorText(a) != ErrorText(b) then Save(s, path, Text(ErrorText(a).value), Text(ErrorText(b).value), asMap)
      else s
    else if IsIndirect(a) || IsIndirect(b) then
      Walk(env, s, path, if IsIndirect(a) then Elem(a) else a, if IsIndirect(b) then Elem(b) else b, level + 1, ro)
    else ByKind(env, s, path, a, b, level, ro)
  }

  /** The kind switch of `equals`, for two present values of one type that
      are neither pointers nor interfaces. */
  function ByKind(env: Env, s: Sink, path: seq<string>, a: Value, b: Value, level: int, ro: bool): (r: Sink)
    requires !a.Nil? && !b.Nil? && TypeOf(a) == TypeOf(b)
    ensures Grows(env.opts, s, r)
    decreases a, b, 2, 0
  {
    var asMap := env.opts.asMap;
    SameTypeSameShape(a, b);
    match a
    case Struct(_, hasEqual, _) =>
      if hasEqual && !ro then
        if env.equal(a, b) then s else Save(s, path, Reflected(a), Reflected(b), asMap)
      else StructFrom(env, s, path, a, b, level, ro, 0)
    case Map(_, aNil, _) =>
      if aNil || b.isNil then NilCollection(env, s, path, a, b)
      else MapFrom(env, s, path, a, b, level, ro, 0)
    case Array(_, _) => IndexedFrom(env, s, path, a, b, level, ro, 0)
    case Slice(_, aNil, _) =>
      if aNil || b.isNil then NilCollection(env, s, path, a, b)
      else IndexedFrom(env, s, path, a, b, level, ro, 0)
    case Bool(_, _) => Scalar(env, s, path, a, b)
    case Int(_, _) => Scalar(env, s, path, a, b)
    case Uint(_, _) => Scalar(env, s, path, a, b)
    case Str(_, _) => Scalar(env, s, path, a, b)
    case _ => s
  }

  /** A nil map or slice on either side: the present side is recorded
      against "[empty value]" (a map boxed by Interface(), a slice as the
      reflect.Value itself); two nil ones record nothing. */
  function NilCollection(env: Env, s: Sink, path: seq<string>, a: Value, b: Value): (r: Sink)
    requires (a.Map? && b.Map?) || (a.Slice? && b.Slice?)
    ensures Grows(env.opts, s, r)
  {
    var asMap := env.opts.asMap;
    var shownA := if a.Map? then Boxed(a) else Reflected(a);
    var shownB := if b.Map? then Boxed(b) else Reflected(b);
    if a.isNil && !b.isNil then Save(s, path, Text(EmptyValue), shownB, asMap)
    else if !a.isNil && b.isNil then Save(s, path, shownA, Text(EmptyValue), asMap)
    else s
  }

  /** Two scalars of one kind: one record of both raw values when they differ. */
  function Scalar(env: Env, s: Sink, path: seq<string>, a: Value, b: Value): (r: Sink)
    requires (a.Bool? && b.Bool?) || (a.Int? && b.Int?) || (a.Uint? && b.Uint?) || (a.Str? && b.Str?)
    ensures Grows(env.opts, s, r)
  {
    var asMap := env.opts.asMap;
    match a
    case Bool(_, x) => if x != b.boolVal then Save(s, path, RawBool(x), RawBool(b.boolVal), asMap) else s
    case Int(_, x) => if x != b.intVal then Save(s, path, RawInt(x), RawInt(b.intVal), asMap) else s
    case Uint(_, x) => if x != b.uintVal then Save(s, path, RawUint(x), RawUint(b.uintVal), asMap) else s
    case Str(_, x) => if x != b.strVal then Save(s, path, Text(x), Text(b.strVal), asMap) else s
  }

  /** The struct loop from field `i` on. A hidden field is passed over
      without the MaxDiff check, as `continue` does. */
  function StructFrom(env: Env, s: Sink, path: seq<string>, a: Value, b: Value, level: int, ro: bool, i: nat): (r: Sink)
    requires a.Struct? && b.Struct? && |a.fields| == |b.fields|
    ensures Grows(env.opts, s, r)
    decreases a, b, 1, |a.fields| - i
  {
    if i >= |a.fields| then s
    else if Hidden(env.opts, a.fields[i]) then StructFrom(env, s, path, a, b, level, ro, i + 1)
    else
      var s' := FieldStep(env, s, path, a.fields[i], b.fields[i].value, level, ro);
      if |s'.diff| >= env.opts.maxDiff then s'
      else
        var r := StructFrom(env, s', path, a, b, level, ro, i + 1);
        GrowsTrans(env.opts, s, s', r);
        r
  }

  /** One visited field `f` of that loop, against the other side's value `y`
      of the same field: compared one level down under the field's segment,
      read-only from here on when the field is unexported. */
  function FieldStep(env: Env, s: Sink, path: seq<string>, f: Field, y: Value, level: int, ro: bool): (r: Sink)
    ensures Grows(env.opts, s, r)
    decreases f.value, y, 4
  {
    Walk(env, s, path + [Segment(f)], f.value, y, level + 1, ro || !f.exported)
  }

  /** The array loop and the slice loop from index `i` on: indices up to the
      longer length. For arrays both lengths are the type's length. */
  function IndexedFrom(env: Env, s: Sink, path: seq<string>, a: Value, b: Value, level: int, ro: bool, i: nat): (r: Sink)
    requires (a.Array? || a.Slice?) && (b.Array? || b.Slice?)
    ensures Grows(env.opts, s, r)
    decreases a, b, 1, MaxLen(a, b) - i
  {
    if i >= MaxLen(a, b) then s
    else
      var s' := IndexStep(env, s, path, a, b, level, ro, i);
      if |s'.diff| >= env.opts.maxDiff then s'
      else
        var r := IndexedFrom(env, s', path, a, b, level, ro, i + 1);
        GrowsTrans(env.opts, s, s', r);
        r
  }

  /** One index of those loops: elements both sides have are compared one
      level down; an index past one side's end is recorded against
      "[empty value]". */
  function IndexStep(env: Env, s: Sink, path: seq<string>, a: Value, b: Value, level: int, ro: bool, i: nat): (r: Sink)
    requires (a.Array? || a.Slice?) && (b.Array? || b.Slice?) && i < MaxLen(a, b)
    ensures Grows(env.opts, s, r)
    decreases a, b, 0, 0
  {
    var p := path + [IndexSegment(i)];
    if i < |a.elems| && i < |b.elems| then Walk(env, s, p, a.elems[i], b.elems[i], level + 1, ro)
    else if i < |a.elems| then Save(s, p, Reflected(a.elems[i]), Text(EmptyValue), env.opts.asMap)
    else Save(s, p, Text(EmptyValue), Reflected(b.elems[i]), env.opts.asMap)
  }

  function MaxLen(a: Value, b: Value): nat
    requires (a.Array? || a.Slice?) && (b.Array? || b.Slice?)
  {
    if |b.elems| > |a.elems| then |b.elems| else |a.elems|
  }

  /** The first map loop from entry `i` of `a` on, then the second loop. */
  function MapFrom(env: Env, s: Sink, path: seq<string>, a: Value, b: Value, level: int, ro: bool, i: nat): (r: Sink)
    requires a.Map? && b.Map?
    ensures Grows(env.opts, s, r)
    decreases a, b, 1, |a.entries| - i
  {
    if i >= |a.entries| then MapMissingFrom(env, s, path, a, b, 0)
    else
      var s' := KeyStep(env, s, path, a, b, level, ro, i);
      if |s'.diff| >= env.opts.maxDiff then s'
      else
        var r := MapFrom(env, s', path, a, b, level, ro, i + 1);
        GrowsTrans(env.opts, s, s', r);
        r
  }

  /** One key of `a` in the first map loop, under the key's `%s` text: the
      value pair compared one level down when `b` has the key, otherwise
      `a`'s value recorded against "[empty value]". */
  function KeyStep(env: Env, s: Sink, path: seq<string>, a: Value, b: Value, level: int, ro: bool, i: nat): (r: Sink)
    requires a.Map? && b.Map? && i < |a.entries|
    ensures Grows(env.opts, s, r)
    decreases a, b, 0, 0
  {
    var e := a.entries[i];
    var p := path + [KeyText(e.key)];
    match Lookup(b.entries, e.key)
    case Some(bv) => Walk(env, s, p, e.val, bv, level + 1, ro)
    case None => Save(s, p, Boxed(e.val), Text(EmptyValue), env.opts.asMap)
  }

  /** The second map loop from entry `j` of `b` on: keys of `b` that `a` lacks,
      with the key rendered by reflect.Value.String(). */
  function MapMissingFrom(env: Env, s: Sink, path: seq<string>, a: Value, b: Value, j: nat): (r: Sink)
    requires a.Map? && b.Map?
    ensures Grows(env.opts, s, r)
    decreases a, b, 0, |b.entries| - j
  {
    if j >= |b.entries| then s
    else
      var e := b.entries[j];
      if Lookup(a.entries, e.key).Some? then MapMissingFrom(env, s, path, a, b, j + 1)
      else
        var s' := Save(s, path + [ValueString(e.key)], Text(EmptyValue), Boxed(e.val), env.opts.asMap);
        if |s'.diff| >= env.opts.maxDiff then s'
        else
          var r := MapMissingFrom(env, s', path, a, b, j + 1);
          GrowsTrans(env.opts, s, s', r);
          r
  }

  /** compare(a, b, opts): the sinks after a whole comparison. A nil `a` or `b`
      at the top level is one record with the present side first. */
  function Run(env: Env, a: Value, b: Value): (r: Sink)
    ensures env.opts.asMap ==> (|r.diff| > 0 ==> ResultKey in r.diffM)
    ensures !env.opts.asMap ==> r.diffM == map[]
    ensures a.Nil? && b.Nil? ==> r == EmptySink
    ensures a.Nil? != b.Nil? ==> |r.diff| == 1
    ensures a.Nil? && !b.Nil? ==> r == Save(EmptySink, [], Boxed(b), Text(NilPointer), env.opts.asMap)
    ensures !a.Nil? && b.Nil? ==> r == Save(EmptySink, [], Boxed(a), Text(NilPointer), env.opts.asMap)
  {
    if a.Nil? && b.Nil? then EmptySink
    else
      var s1 :=
        if a.Nil? then Save(EmptySink, [], Boxed(b), Text(NilPointer), env.opts.asMap)
        else if b.Nil? then Save(EmptySink, [], Boxed(a), Text(NilPointer), env.opts.asMap)
        else EmptySink;
      if |s1.diff| > 0 then s1 else Walk(env, s1, [], a, b, 0, false)
  }

  /** compare's hasDiff: some record was made in either sink. */
  predicate HasDiff(s: Sink)
  {
    |s.diff| > 0 || |s.diffM| > 0
  }
}
