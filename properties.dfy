/** Properties of the comparison, proved about its functional specification
    (and so, through Comparator.Equals's postcondition, about the walk). */
module Properties {
  import opened Wrappers
  import opened GoStrings
  import opened Values
  import opened Tags
  import opened Diffs
  import opened WalkSpec

  /** Every type's Equal method says a value equals itself. */
  ghost predicate EqualIsReflexive(env: Env)
  {
    forall x :: env.equal(x, x)
  }

  // ---------------------------------------------------------------------
  // Reflexivity: comparing a value with itself records nothing.
  // ---------------------------------------------------------------------

  lemma {:induction false} WalkReflexive(env: Env, s: Sink, path: seq<string>, v: Value, level: int, ro: bool)
    requires WellFormed(v) && EqualIsReflexive(env)
    ensures Walk(env, s, path, v, v, level, ro) == s
    decreases v, 3, 0
  {
    if level > env.opts.maxDepth || v.Nil? {
    } else if ImplementsError(TypeOf(v)) && ErrorText(v).Some? {
    } else if IsIndirect(v) {
      WalkReflexive(env, s, path, Elem(v), level + 1, ro);
    } else {
      ByKindReflexive(env, s, path, v, level, ro);
    }
  }

  lemma {:induction false} ByKindReflexive(env: Env, s: Sink, path: seq<string>, v: Value, level: int, ro: bool)
    requires !v.Nil? && WellFormed(v) && EqualIsReflexive(env)
    ensures ByKind(env, s, path, v, v, level, ro) == s
    decreases v, 2, 0
  {
    match v
    case Struct(_, hasEqual, _) =>
      if !(hasEqual && !ro) {
        StructFromReflexive(env, s, path, v, level, ro, 0);
      }
    case Map(_, isNil, _) =>
      if !isNil {
        MapFromReflexive(env, s, path, v, level, ro, 0);
      }
    case Array(_, _) =>
      IndexedFromReflexive(env, s, path, v, level, ro, 0);
    case Slice(_, isNil, _) =>
      if !isNil {
        IndexedFromReflexive(env, s, path, v, level, ro, 0);
      }
    case _ =>
  }

  lemma {:induction false} StructFromReflexive(env: Env, s: Sink, path: seq<string>, v: Value, level: int, ro: bool, i: nat)
    requires v.Struct? && WellFormed(v) && EqualIsReflexive(env)
    ensures StructFrom(env, s, path, v, v, level, ro, i) == s
    decreases v, 1, |v.fields| - i
  {
    if i < |v.fields| {
      var f := v.fields[i];
      if !Hidden(env.opts, f) {
        WalkReflexive(env, s, path + [Segment(f)], f.value, level + 1, ro || !f.exported);
        assert FieldStep(env, s, path, f, f.value, level, ro) == s;
      }
      StructFromReflexive(env, s, path, v, level, ro, i + 1);
    }
  }

  lemma {:induction false} IndexedFromReflexive(env: Env, s: Sink, path: seq<string>, v: Value, level: int, ro: bool, i: nat)
    requires (v.Array? || v.Slice?) && WellFormed(v) && EqualIsReflexive(env)
    ensures IndexedFrom(env, s, path, v, v, level, ro, i) == s
    decreases v, 1, |v.elems| - i
  {
    if i < |v.elems| {
      WalkReflexive(env, s, path + [IndexSegment(i)], v.elems[i], level + 1, ro);
      IndexedFromReflexive(env, s, path, v, level, ro, i + 1);
    }
  }

  lemma {:induction false} MapFromReflexive(env: Env, s: Sink, path: seq<string>, v: Value, level: int, ro: bool, i: nat)
    requires v.Map? && WellFormed(v) && EqualIsReflexive(env)
    ensures MapFrom(env, s, path, v, v, level, ro, i) == s
    decreases v, 1, |v.entries| - i
  {
    if i < |v.entries| {
      var e := v.entries[i];
      LookupOwnKey(v.entries, i);
      WalkReflexive(env, s, path + [KeyText(e.key)], e.val, level + 1, ro);
      MapFromReflexive(env, s, path, v, level, ro, i + 1);
    } else {
      MapMissingReflexive(env, s, path, v, 0);
    }
  }

  lemma {:induction false} MapMissingReflexive(env: Env, s: Sink, path: seq<string>, v: Value, j: nat)
    requires v.Map?
    ensures MapMissingFrom(env, s, path, v, v, j) == s
    decreases |v.entries| - j
  {
    if j < |v.entries| {
      assert Lookup(v.entries, v.entries[j].key).Some?;
      MapMissingReflexive(env, s, path, v, j + 1);
    }
  }

  /** compare(v, v) reports no difference (the tests compare a map, an array
      and a slice with themselves). */
  lemma RunReflexive(env: Env, v: Value)
    requires WellFormed(v) && EqualIsReflexive(env)
    ensures Run(env, v, v) == EmptySink
    ensures !HasDiff(Run(env, v, v))
  {
    if !v.Nil? {
      WalkReflexive(env, EmptySink, [], v, 0, false);
    }
  }

  // ---------------------------------------------------------------------
  // Map mode: below the top level, records go to the map sink only.
  // ---------------------------------------------------------------------

  /** In map mode a step adds at most one line, and none at all below the
      top level: only a difference at the root is also written to the list
      sink, so MaxDiff never cuts a map-mode comparison short. */
  lemma {:induction false} WalkMapMode(env: Env, s: Sink, path: seq<string>, a: Value, b: Value, level: int, ro: bool)
    requires env.opts.asMap
    ensures var r := Walk(env, s, path, a, b, level, ro);
            |r.diff| <= |s.diff| + 1 && (|path| > 0 ==> r.diff == s.diff)
    decreases a, b, 3, 0
  {
    if level > env.opts.maxDepth || a.Nil? || b.Nil? || TypeOf(a) != TypeOf(b) {
    } else if ImplementsError(TypeOf(a)) && ImplementsError(TypeOf(b)) && ErrorText(a).Some? && ErrorText(b).Some? {
    } else if IsIndirect(a) || IsIndirect(b) {
      WalkMapMode(env, s, path, if IsIndirect(a) then Elem(a) else a, if IsIndirect(b) then Elem(b) else b, level + 1, ro);
    } else {
      ByKindMapMode(env, s, path, a, b, level, ro);
    }
  }

  lemma {:induction false} ByKindMapMode(env: Env, s: Sink, path: seq<string>, a: Value, b: Value, level: int, ro: bool)
    requires env.opts.asMap && !a.Nil? && !b.Nil? && TypeOf(a) == TypeOf(b)
    ensures var r := ByKind(env, s, path, a, b, level, ro);
            |r.diff| <= |s.diff| + 1 && (|path| > 0 ==> r.diff == s.diff)
    decreases a, b, 2, 0
  {
    SameTypeSameShape(a, b);
    match a
    case Struct(_, hasEqual, _) =>
      if !(hasEqual && !ro) {
        StructFromMapMode(env, s, path, a, b, level, ro, 0);
      }
    case Map(_, aNil, _) =>
      if !(aNil || b.isNil) {
        MapFromMapMode(env, s, path, a, b, level, ro, 0);
      }
    case Array(_, _) =>
      IndexedFromMapMode(env, s, path, a, b, level, ro, 0);
    case Slice(_, aNil, _) =>
      if !(aNil || b.isNil) {
        IndexedFromMapMode(env, s, path, a, b, level, ro, 0);
      }
    case _ =>
  }

  lemma {:induction false} StructFromMapMode(env: Env, s: Sink, path: seq<string>, a: Value, b: Value, level: int, ro: bool, i: nat)
    requires env.opts.asMap && a.Struct? && b.Struct? && |a.fields| == |b.fields|
    ensures StructFrom(env, s, path, a, b, level, ro, i).diff == s.diff
    decreases a, b, 1, |a.fields| - i
  {
    if i < |a.fields| {
      if Hidden(env.opts, a.fields[i]) {
        StructFromMapMode(env, s, path, a, b, level, ro, i + 1);
      } else {
        var f := a.fields[i];
        WalkMapMode(env, s, path + [Segment(f)], f.value, b.fields[i].value, level + 1, ro || !f.exported);
        var s' := FieldStep(env, s, path, f, b.fields[i].value, level, ro);
        StructFromMapMode(env, s', path, a, b, level, ro, i + 1);
      }
    }
  }

  lemma {:induction false} IndexedFromMapMode(env: Env, s: Sink, path: seq<string>, a: Value, b: Value, level: int, ro: bool, i: nat)
    requires env.opts.asMap && (a.Array? || a.Slice?) && (b.Array? || b.Slice?)
    ensures IndexedFrom(env, s, path, a, b, level, ro, i).diff == s.diff
    decreases a, b, 1, MaxLen(a, b) - i
  {
    if i < MaxLen(a, b) {
      if i < |a.elems| && i < |b.elems| {
        WalkMapMode(env, s, path + [IndexSegment(i)], a.elems[i], b.elems[i], level + 1, ro);
      }
      var s' := IndexStep(env, s, path, a, b, level, ro, i);
      IndexedFromMapMode(env, s', path, a, b, level, ro, i + 1);
    }
  }

  lemma {:induction false} MapFromMapMode(env: Env, s: Sink, path: seq<string>, a: Value, b: Value, level: int, ro: bool, i: nat)
    requires env.opts.asMap && a.Map? && b.Map?
    ensures MapFrom(env, s, path, a, b, level, ro, i).diff == s.diff
    decreases a, b, 1, |a.entries| - i
  {
    if i < |a.entries| {
      var e := a.entries[i];
      var p := path + [KeyText(e.key)];
      var s' :=
        match Lookup(b.entries, e.key)
        case Some(bv) => Walk(env, s, p, e.val, bv, level + 1, ro)
        case None => Save(s, p, Boxed(e.val), Text(EmptyValue), true);
      if Lookup(b.entries, e.key).Some? {
        WalkMapMode(env, s, p, e.val, Lookup(b.entries, e.key).value, level + 1, ro);
      }
      MapFromMapMode(env, s', path, a, b, level, ro, i + 1);
    } else {
      MapMissingMapMode(env, s, path, a, b, 0);
    }
  }

  lemma {:induction false} MapMissingMapMode(env: Env, s: Sink, path: seq<string>, a: Value, b: Value, j: nat)
    requires env.opts.asMap && a.Map? && b.Map?
    ensures MapMissingFrom(env, s, path, a, b, j).diff == s.diff
    decreases |b.entries| - j
  {
    if j < |b.entries| {
      var e := b.entries[j];
      if Lookup(a.entries, e.key).Some? {
        MapMissingMapMode(env, s, path, a, b, j + 1);
      } else {
        var s' := Save(s, path + [ValueString(e.key)], Text(EmptyValue), Boxed(e.val), true);
        MapMissingMapMode(env, s', path, a, b, j + 1);
      }
    }
  }

  /** CompareM leaves at most one line in the list sink, the root's. */
  lemma RunMapMode(env: Env, a: Value, b: Value)
    requires env.opts.asMap
    ensures |Run(env, a, b).diff| <= 1
  {
    if !(a.Nil? || b.Nil?) {
      WalkMapMode(env, EmptySink, [], a, b, 0, false);
    }
  }

  // ---------------------------------------------------------------------
  // One record and no descent for a nil/invalid side or differing types.
  // ---------------------------------------------------------------------

  /** Exactly one side invalid: one record, "<nil pointer>" against the
      other side's type, in whichever sink the mode selects; both invalid:
      nothing. */
  lemma NilRecordsOnce(env: Env, s: Sink, path: seq<string>, a: Value, b: Value, level: int, ro: bool)
    requires level <= env.opts.maxDepth && (a.Nil? || b.Nil?)
    ensures var x := if a.Nil? then Text(NilPointer) else TypeName(TypeOf(a));
            var y := if b.Nil? then Text(NilPointer) else TypeName(TypeOf(b));
            var r := Walk(env, s, path, a, b, level, ro);
            && (a.Nil? && b.Nil? ==> r == s)
            && (a.Nil? != b.Nil? ==> r == Save(s, path, x, y, env.opts.asMap))
            && (a.Nil? != b.Nil? && !env.opts.asMap ==> r.diff == s.diff + [Line(path, x, y)] && r.diffM == s.diffM)
            && (a.Nil? != b.Nil? && env.opts.asMap ==> r.diffM == s.diffM[DiffKey(path) := DiffResult(x, y)])
            && (a.Nil? != b.Nil? && env.opts.asMap && |path| > 0 ==> r.diff == s.diff)
  {
  }

  /** Two present values of different types: one record naming both types,
      whatever the values inside, in whichever sink the mode selects. */
  lemma TypeMismatchRecordsOnce(env: Env, s: Sink, path: seq<string>, a: Value, b: Value, level: int, ro: bool)
    requires level <= env.opts.maxDepth && !a.Nil? && !b.Nil? && TypeOf(a) != TypeOf(b)
    ensures var r := Walk(env, s, path, a, b, level, ro);
            var x, y := TypeName(TypeOf(a)), TypeName(TypeOf(b));
            && r == Save(s, path, x, y, env.opts.asMap)
            && (!env.opts.asMap ==> r.diff == s.diff + [Line(path, x, y)] && r.diffM == s.diffM)
            && (env.opts.asMap ==> r.diffM == s.diffM[DiffKey(path) := DiffResult(x, y)])
            && (env.opts.asMap && |path| > 0 ==> r.diff == s.diff)
  {
  }

  /** Two values of one error type that both hold an error are compared by
      their Error() strings alone: one record of the two messages when they
      differ, nothing when they agree, with no descent into the values. */
  lemma ErrorsCompareByMessage(env: Env, s: Sink, path: seq<string>, a: Value, b: Value, level: int, ro: bool)
    requires level <= env.opts.maxDepth && !a.Nil? && !b.Nil? && TypeOf(a) == TypeOf(b)
    requires ImplementsError(TypeOf(a)) && ErrorText(a).Some? && ErrorText(b).Some?
    ensures var r := Walk(env, s, path, a, b, level, ro);
            var x, y := ErrorText(a).value, ErrorText(b).value;
            && (x == y ==> r == s)
            && (x != y ==> r == Save(s, path, Text(x), Text(y), env.opts.asMap))
  {
  }

  /** A pointer or interface pair is compared by what it refers to, one level deeper. */
  lemma DerefCostsOneLevel(env: Env, s: Sink, path: seq<string>, a: Value, b: Value, level: int, ro: bool)
    requires level <= env.opts.maxDepth && a.Ptr? && b.Ptr? && a.ty == b.ty
    ensures Walk(env, s, path, a, b, level, ro) == Walk(env, s, path, a.target, b.target, level + 1, ro)
  {
  }

  /** At the top level, two structs of one type without their own Equal
      method go straight to the field loop. */
  lemma RunStructs(env: Env, a: Value, b: Value)
    requires a.Struct? && b.Struct? && TypeOf(a) == TypeOf(b) && !a.hasEqual && env.opts.maxDepth >= 0
    ensures Run(env, a, b) == StructFrom(env, EmptySink, [], a, b, 0, false, 0)
  {
    assert Walk(env, EmptySink, [], a, b, 0, false) == ByKind(env, EmptySink, [], a, b, 0, false);
  }

  /** At the top level, two non-nil maps go straight to the key loops and
      two non-nil slices to the index loop. */
  lemma RunCollections(env: Env, a: Value, b: Value)
    requires (a.Map? && b.Map?) || (a.Slice? && b.Slice?)
    requires a.ty == b.ty && !a.isNil && !b.isNil && env.opts.maxDepth >= 0
    ensures a.Map? ==> Run(env, a, b) == MapFrom(env, EmptySink, [], a, b, 0, false, 0)
    ensures a.Slice? ==> Run(env, a, b) == IndexedFrom(env, EmptySink, [], a, b, 0, false, 0)
  {
    assert TypeOf(a) == TypeOf(b);
    assert Walk(env, EmptySink, [], a, b, 0, false) == ByKind(env, EmptySink, [], a, b, 0, false);
  }

  // ---------------------------------------------------------------------
  // The difference count.
  // ---------------------------------------------------------------------

  /** A whole comparison leaves at most MaxDiff lines (one when MaxDiff is below one). */
  lemma RunBounded(env: Env, a: Value, b: Value)
    ensures |Run(env, a, b).diff| <= if env.opts.maxDiff >= 1 then env.opts.maxDiff else 1
  {
    if !(a.Nil? || b.Nil?) {
      var r := Walk(env, EmptySink, [], a, b, 0, false);
      assert Grows(env.opts, EmptySink, r);
    }
  }

  // ---------------------------------------------------------------------
  // Structs: hidden fields never produce records.
  // ---------------------------------------------------------------------

  /** A field's path segment is its tag when it has one and the tag has no
      comma, else its name; a tag with a comma hides the field; an exported
      field without such a tag is always visited. */
  lemma FieldNaming(opts: Options, f: Field)
    ensures ',' in f.tag ==> Hidden(opts, f)
    ensures ',' !in f.tag ==> Segment(f) == if |f.tag| > 0 then f.tag else f.name
    ensures f.exported && ',' !in f.tag ==> !Hidden(opts, f)
    ensures !f.exported && ',' !in f.tag ==> (Hidden(opts, f) <==> !opts.compareUnexportedFields)
  {
  }

  /** `v` with the value of field `k` replaced. */
  function WithField(v: Value, k: nat, x: Value): (r: Value)
    requires v.Struct? && k < |v.fields|
    ensures r.Struct? && |r.fields| == |v.fields|
  {
    v.(fields := v.fields[k := v.fields[k].(value := x)])
  }

  lemma {:induction false} HiddenFieldFrom(env: Env, s: Sink, path: seq<string>, a: Value, b: Value, level: int, ro: bool,
                                           k: nat, x: Value, y: Value, i: nat)
    requires a.Struct? && b.Struct? && |a.fields| == |b.fields| && k < |a.fields|
    requires Hidden(env.opts, a.fields[k])
    ensures StructFrom(env, s, path, a, b, level, ro, i)
         == StructFrom(env, s, path, WithField(a, k, x), WithField(b, k, y), level, ro, i)
    decreases |a.fields| - i
  {
    var a', b' := WithField(a, k, x), WithField(b, k, y);
    if i < |a.fields| {
      assert a'.fields[i].exported == a.fields[i].exported && a'.fields[i].tag == a.fields[i].tag;
      if Hidden(env.opts, a.fields[i]) {
        HiddenFieldFrom(env, s, path, a, b, level, ro, k, x, y, i + 1);
      } else {
        assert a'.fields[i] == a.fields[i] && b'.fields[i] == b.fields[i];
        var s' := FieldStep(env, s, path, a.fields[i], b.fields[i].value, level, ro);
        HiddenFieldFrom(env, s', path, a, b, level, ro, k, x, y, i + 1);
      }
    }
  }

  /** Changing the value of an unexported (while those are not compared) or
      skip-tagged field, on either side, does not change what is recorded,
      unless the struct's own Equal method decides. */
  lemma HiddenFieldInvisible(env: Env, s: Sink, path: seq<string>, a: Value, b: Value, level: int, ro: bool,
                             k: nat, x: Value, y: Value)
    requires a.Struct? && b.Struct? && |a.fields| == |b.fields| && k < |a.fields|
    requires Hidden(env.opts, a.fields[k])
    requires !a.hasEqual || ro
    ensures Walk(env, s, path, a, b, level, ro)
         == Walk(env, s, path, WithField(a, k, x), WithField(b, k, y), level, ro)
  {
    var a', b' := WithField(a, k, x), WithField(b, k, y);
    assert Decls(a'.fields) == Decls(a.fields);
    assert Decls(b'.fields) == Decls(b.fields);
    assert TypeOf(a') == TypeOf(a) && TypeOf(b') == TypeOf(b);
    HiddenFieldFrom(env, s, path, a, b, level, ro, k, x, y, 0);
  }

  // ---------------------------------------------------------------------
  // Slices and maps.
  // ---------------------------------------------------------------------

  /** A nil slice or map against a present one of the same type: one record
      for the whole value (a map boxed, a slice as the reflect.Value), in
      whichever sink the mode selects; two nil ones: nothing. */
  lemma NilCollectionRecordsOnce(env: Env, s: Sink, path: seq<string>, a: Value, b: Value, level: int, ro: bool)
    requires level <= env.opts.maxDepth
    requires (a.Slice? && b.Slice?) || (a.Map? && b.Map?)
    requires a.ty == b.ty && (a.isNil || b.isNil)
    ensures var r := Walk(env, s, path, a, b, level, ro);
            var x := if a.Map? then Boxed(a) else Reflected(a);
            var y := if b.Map? then Boxed(b) else Reflected(b);
            && (a.isNil && b.isNil ==> r == s)
            && (a.isNil && !b.isNil ==> r == Save(s, path, Text(EmptyValue), y, env.opts.asMap))
            && (!a.isNil && b.isNil ==> r == Save(s, path, x, Text(EmptyValue), env.opts.asMap))
  {
    assert TypeOf(a) == TypeOf(b);
  }

  /** The record for index `k` that only one side has. */
  function OverhangLine(path: seq<string>, a: Value, b: Value, k: nat): string
    requires (a.Array? || a.Slice?) && (b.Array? || b.Slice?)
    requires k < MaxLen(a, b)
  {
    if k < |a.elems| then Line(path + [IndexSegment(k)], Reflected(a.elems[k]), Text(EmptyValue))
    else Line(path + [IndexSegment(k)], Text(EmptyValue), Reflected(b.elems[k]))
  }

  /** The records for the indices from `i` on, all past one side's end. */
  function OverhangLines(path: seq<string>, a: Value, b: Value, i: nat): (r: seq<string>)
    requires (a.Array? || a.Slice?) && (b.Array? || b.Slice?)
    ensures |r| == if i < MaxLen(a, b) then MaxLen(a, b) - i else 0
    decreases MaxLen(a, b) - i
  {
    if i >= MaxLen(a, b) then [] else [OverhangLine(path, a, b, i)] + OverhangLines(path, a, b, i + 1)
  }

  /** How many of its remaining records a loop writes when it starts with
      `n` lines: those that fit below MaxDiff, and at least one, since the
      limit is checked only after each record. */
  function Room(n: nat, maxDiff: int): nat
  {
    Bound(n, maxDiff) - n
  }

  /** The first `room` of `lines`, or all of them when there are fewer. */
  function Capped<T>(lines: seq<T>, room: nat): seq<T>
  {
    if room < |lines| then lines[..room] else lines
  }

  /** One record written before the MaxDiff check: the loop's records are
      that record, then (when the list is still below MaxDiff) the capped
      rest. */
  lemma CappedStep<T>(d: seq<T>, x: T, rest: seq<T>, maxDiff: int, r: seq<T>)
    requires |d| + 1 < maxDiff ==> r == (d + [x]) + Capped(rest, Room(|d| + 1, maxDiff))
    requires |d| + 1 >= maxDiff ==> r == d + [x]
    ensures r == d + Capped([x] + rest, Room(|d|, maxDiff))
  {
    var room := Room(|d|, maxDiff);
    if room - 1 < |rest| {
      assert ([x] + rest)[..room] == [x] + rest[..room - 1];
    }
    assert Capped([x] + rest, room) == [x] + Capped(rest, room - 1);
    ConcatAssoc(d, [x], Capped(rest, room - 1));
  }

  /** With at least Room records to write, the loop stops at the bound. */
  lemma CappedBound<T>(d: seq<T>, lines: seq<T>, maxDiff: int)
    ensures |lines| >= Room(|d|, maxDiff) ==> |d + Capped(lines, Room(|d|, maxDiff))| == Bound(|d|, maxDiff)
  {
  }

  /** Past the shorter side's end, each index gives one "[empty value]"
      record, in index order, until the list reaches MaxDiff: the loop writes
      the first Room of those records, and exactly MaxDiff lines when it has
      at least that many to write. */
  lemma {:induction false} OverhangRecords(env: Env, s: Sink, path: seq<string>, a: Value, b: Value, level: int, ro: bool, i: nat)
    requires !env.opts.asMap
    requires a.Slice? && b.Slice?
    requires |a.elems| <= i || |b.elems| <= i
    ensures var lines := OverhangLines(path, a, b, i);
            var r := IndexedFrom(env, s, path, a, b, level, ro, i);
            && r.diff == s.diff + Capped(lines, Room(|s.diff|, env.opts.maxDiff))
            && (|lines| >= Room(|s.diff|, env.opts.maxDiff) ==> |r.diff| == Bound(|s.diff|, env.opts.maxDiff))
    decreases MaxLen(a, b) - i
  {
    if i < MaxLen(a, b) {
      var s' := IndexStep(env, s, path, a, b, level, ro, i);
      if |s'.diff| < env.opts.maxDiff {
        OverhangRecords(env, s', path, a, b, level, ro, i + 1);
      }
      OverhangStep(env, s, path, a, b, level, ro, i);
      OverhangLinesUnfold(path, a, b, i);
      IndexedCase(env, s, path, a, b, level, ro, i, OverhangLine(path, a, b, i), OverhangLines(path, a, b, i + 1));
    } else {
      assert s.diff + Capped([], Room(|s.diff|, env.opts.maxDiff)) == s.diff;
    }
    CappedBound(s.diff, OverhangLines(path, a, b, i), env.opts.maxDiff);
  }

  /** One index of an index loop whose step appends exactly one line: that
      line, then the loop's later lines when the list is still below MaxDiff. */
  lemma IndexedCase(env: Env, s: Sink, path: seq<string>, a: Value, b: Value, level: int, ro: bool, i: nat, line: string, rest: seq<string>)
    requires (a.Array? || a.Slice?) && (b.Array? || b.Slice?) && i < MaxLen(a, b)
    requires IndexStep(env, s, path, a, b, level, ro, i).diff == s.diff + [line]
    requires var s' := IndexStep(env, s, path, a, b, level, ro, i);
             |s'.diff| < env.opts.maxDiff ==>
               IndexedFrom(env, s', path, a, b, level, ro, i + 1).diff
               == s'.diff + Capped(rest, Room(|s'.diff|, env.opts.maxDiff))
    ensures IndexedFrom(env, s, path, a, b, level, ro, i).diff
         == s.diff + Capped([line] + rest, Room(|s.diff|, env.opts.maxDiff))
  {
    IndexedFromUnfold(env, s, path, a, b, level, ro, i);
    CappedStep(s.diff, line, rest, env.opts.maxDiff, IndexedFrom(env, s, path, a, b, level, ro, i).diff);
  }

  /** The index loop's first step. */
  lemma IndexedFromUnfold(env: Env, s: Sink, path: seq<string>, a: Value, b: Value, level: int, ro: bool, i: nat)
    requires (a.Array? || a.Slice?) && (b.Array? || b.Slice?) && i < MaxLen(a, b)
    ensures IndexedFrom(env, s, path, a, b, level, ro, i)
         == var s' := IndexStep(env, s, path, a, b, level, ro, i);
            if |s'.diff| >= env.opts.maxDiff then s' else IndexedFrom(env, s', path, a, b, level, ro, i + 1)
  {
  }

  /** The overhang lines' first line. */
  lemma OverhangLinesUnfold(path: seq<string>, a: Value, b: Value, i: nat)
    requires a.Slice? && b.Slice? && i < MaxLen(a, b)
    ensures OverhangLines(path, a, b, i) == [OverhangLine(path, a, b, i)] + OverhangLines(path, a, b, i + 1)
  {
  }

  /** One index past one side's end gives its one record. */
  lemma OverhangStep(env: Env, s: Sink, path: seq<string>, a: Value, b: Value, level: int, ro: bool, i: nat)
    requires !env.opts.asMap
    requires (a.Array? || a.Slice?) && (b.Array? || b.Slice?)
    requires (|a.elems| <= i || |b.elems| <= i) && i < MaxLen(a, b)
    ensures IndexStep(env, s, path, a, b, level, ro, i).diff == s.diff + [OverhangLine(path, a, b, i)]
  {
  }

  /** Both sides hold integers of one type that differ at every index. */
  predicate DifferingInts(a: Value, b: Value)
    requires (a.Array? || a.Slice?) && (b.Array? || b.Slice?)
  {
    && |a.elems| == |b.elems|
    && forall k :: 0 <= k < |a.elems| ==>
         a.elems[k].Int? && b.elems[k].Int? && a.elems[k].ty == b.elems[k].ty && a.elems[k].intVal != b.elems[k].intVal
  }

  /** The records `#k: x != y` for all those indices. */
  function IntLines(path: seq<string>, a: Value, b: Value): (r: seq<string>)
    requires (a.Array? || a.Slice?) && (b.Array? || b.Slice?) && DifferingInts(a, b)
    ensures |r| == |a.elems|
  {
    seq(|a.elems|, k requires 0 <= k < |a.elems| =>
      Line(path + [IndexSegment(k)], RawInt(a.elems[k].intVal), RawInt(b.elems[k].intVal)))
  }

  /** One index holding two different integers of one type, within the
      depth limit: its one record. */
  lemma IntStep(env: Env, s: Sink, path: seq<string>, a: Value, b: Value, level: int, ro: bool, i: nat)
    requires !env.opts.asMap && level + 1 <= env.opts.maxDepth
    requires (a.Array? || a.Slice?) && (b.Array? || b.Slice?) && DifferingInts(a, b) && i < |a.elems|
    ensures IndexStep(env, s, path, a, b, level, ro, i).diff == s.diff + [IntLines(path, a, b)[i]]
  {
    var x, y := a.elems[i], b.elems[i];
    var p := path + [IndexSegment(i)];
    assert TypeOf(x) == TypeOf(y);
    assert Walk(env, s, p, x, y, level + 1, ro) == ByKind(env, s, p, x, y, level + 1, ro);
  }

  /** The index loop over such arrays from index `i` on: it writes the first
      Room of the records for indices `i` onwards. */
  lemma {:induction false} IntsFrom(env: Env, s: Sink, path: seq<string>, a: Value, b: Value, level: int, ro: bool, i: nat)
    requires !env.opts.asMap && level + 1 <= env.opts.maxDepth
    requires (a.Array? || a.Slice?) && (b.Array? || b.Slice?) && DifferingInts(a, b) && i <= |a.elems|
    ensures IndexedFrom(env, s, path, a, b, level, ro, i).diff
         == s.diff + Capped(IntLines(path, a, b)[i..], Room(|s.diff|, env.opts.maxDiff))
    decreases |a.elems| - i
  {
    var lines := IntLines(path, a, b);
    if i < |a.elems| {
      IntStep(env, s, path, a, b, level, ro, i);
      var s' := IndexStep(env, s, path, a, b, level, ro, i);
      if |s'.diff| < env.opts.maxDiff {
        IntsFrom(env, s', path, a, b, level, ro, i + 1);
      }
      IndexedCase(env, s, path, a, b, level, ro, i, lines[i], lines[i + 1..]);
      assert [lines[i]] + lines[i + 1..] == lines[i..];
    } else {
      assert s.diff + Capped(lines[i..], Room(|s.diff|, env.opts.maxDiff)) == s.diff;
    }
  }

  /** Arrays or slices of one length whose integers differ at every index:
      each index gives one `#k: x != y` record, in index order, until the list
      reaches MaxDiff; with enough of them, exactly MaxDiff lines. */
  lemma DifferingIntsRecords(env: Env, s: Sink, path: seq<string>, a: Value, b: Value, level: int, ro: bool)
    requires !env.opts.asMap && level + 1 <= env.opts.maxDepth
    requires (a.Array? || a.Slice?) && (b.Array? || b.Slice?) && DifferingInts(a, b)
    ensures var lines := IntLines(path, a, b);
            var r := IndexedFrom(env, s, path, a, b, level, ro, 0);
            && r.diff == s.diff + Capped(lines, Room(|s.diff|, env.opts.maxDiff))
            && (|lines| >= Room(|s.diff|, env.opts.maxDiff) ==> |r.diff| == Bound(|s.diff|, env.opts.maxDiff))
  {
    var lines := IntLines(path, a, b);
    IntsFrom(env, s, path, a, b, level, ro, 0);
    assert lines[0..] == lines;
    CappedBound(s.diff, lines, env.opts.maxDiff);
  }

  /** The keys of `b` from entry `j` on that `a` lacks, as the second map
      loop renders them. */
  function MissingLines(path: seq<string>, a: Value, b: Value, j: nat): seq<string>
    requires a.Map? && b.Map?
    decreases |b.entries| - j
  {
    if j >= |b.entries| then []
    else
      var e := b.entries[j];
      var rest := MissingLines(path, a, b, j + 1);
      if Lookup(a.entries, e.key).Some? then rest
      else [Line(path + [ValueString(e.key)], Text(EmptyValue), Boxed(e.val))] + rest
  }

  /** Keys only in `b` each give one "[empty value] != v" record, in `b`'s
      order, until the list reaches MaxDiff: the loop writes the first Room of
      those records, and exactly MaxDiff lines when it has at least that many
      to write. */
  lemma {:induction false} MissingKeysRecords(env: Env, s: Sink, path: seq<string>, a: Value, b: Value, j: nat)
    requires !env.opts.asMap && a.Map? && b.Map?
    ensures var lines := MissingLines(path, a, b, j);
            var r := MapMissingFrom(env, s, path, a, b, j);
            && r.diff == s.diff + Capped(lines, Room(|s.diff|, env.opts.maxDiff))
            && (|lines| >= Room(|s.diff|, env.opts.maxDiff) ==> |r.diff| == Bound(|s.diff|, env.opts.maxDiff))
    decreases |b.entries| - j
  {
    if j < |b.entries| {
      var e := b.entries[j];
      if Lookup(a.entries, e.key).Some? {
        MissingKeysRecords(env, s, path, a, b, j + 1);
      } else {
        var line := Line(path + [ValueString(e.key)], Text(EmptyValue), Boxed(e.val));
        var s' := Save(s, path + [ValueString(e.key)], Text(EmptyValue), Boxed(e.val), false);
        assert s'.diff == s.diff + [line];
        assert MissingLines(path, a, b, j) == [line] + MissingLines(path, a, b, j + 1);
        if |s'.diff| < env.opts.maxDiff {
          MissingKeysRecords(env, s', path, a, b, j + 1);
        }
        CappedStep(s.diff, line, MissingLines(path, a, b, j + 1), env.opts.maxDiff,
                   MapMissingFrom(env, s, path, a, b, j).diff);
      }
    } else {
      assert s.diff + Capped([], Room(|s.diff|, env.opts.maxDiff)) == s.diff;
    }
    CappedBound(s.diff, MissingLines(path, a, b, j), env.opts.maxDiff);
  }

  /** Keys of `a` that `b` holds with the same value record nothing: while
      the list is below MaxDiff, the first loop hands the sinks unchanged to
      the second. */
  lemma {:induction false} MatchingKeysRecordNothing(env: Env, s: Sink, path: seq<string>, a: Value, b: Value, level: int, ro: bool, i: nat)
    requires a.Map? && b.Map? && WellFormed(a) && EqualIsReflexive(env)
    requires forall k :: i <= k < |a.entries| ==> Lookup(b.entries, a.entries[k].key) == Some(a.entries[k].val)
    requires |s.diff| < env.opts.maxDiff
    ensures MapFrom(env, s, path, a, b, level, ro, i) == MapMissingFrom(env, s, path, a, b, 0)
    decreases |a.entries| - i
  {
    if i < |a.entries| {
      var e := a.entries[i];
      assert WellFormed(e.val) && Lookup(b.entries, e.key) == Some(e.val);
      WalkReflexive(env, s, path + [KeyText(e.key)], e.val, level + 1, ro);
      MatchingKeysRecordNothing(env, s, path, a, b, level, ro, i + 1);
    }
  }

  /** CompareS of two maps where `b` holds all of `a` and more keys than
      MaxDiff besides: exactly MaxDiff lines. */
  lemma TooManyMissingKeys(env: Env, a: Value, b: Value)
    requires !env.opts.asMap && env.opts.maxDepth >= 0 && EqualIsReflexive(env)
    requires a.Map? && b.Map? && a.ty == b.ty && !a.isNil && !b.isNil && WellFormed(a)
    requires forall k :: 0 <= k < |a.entries| ==> Lookup(b.entries, a.entries[k].key) == Some(a.entries[k].val)
    requires 1 <= env.opts.maxDiff <= |MissingLines([], a, b, 0)|
    ensures |Run(env, a, b).diff| == env.opts.maxDiff
  {
    RunCollections(env, a, b);
    MatchingKeysRecordNothing(env, EmptySink, [], a, b, 0, false, 0);
    MissingKeysRecords(env, EmptySink, [], a, b, 0);
  }

  /** The first key loop on a key of `a` that `b` lacks: one record of the
      boxed value against "[empty value]" under the key's `%s` text, then the
      MaxDiff check, then the next key. */
  lemma AbsentKeyStep(env: Env, s: Sink, path: seq<string>, a: Value, b: Value, level: int, ro: bool, i: nat)
    requires a.Map? && b.Map? && i < |a.entries| && Lookup(b.entries, a.entries[i].key).None?
    ensures var e := a.entries[i];
            var p := path + [KeyText(e.key)];
            var s' := Save(s, p, Boxed(e.val), Text(EmptyValue), env.opts.asMap);
            && MapFrom(env, s, path, a, b, level, ro, i)
               == (if |s'.diff| >= env.opts.maxDiff then s' else MapFrom(env, s', path, a, b, level, ro, i + 1))
            && (!env.opts.asMap ==> s'.diff == s.diff + [Line(p, Boxed(e.val), Text(EmptyValue))])
  {
  }

  /** The second key loop names a missing key by reflect.Value.String(),
      which gives "<T Value>" for every non-string key of type T: in map mode
      two missing int keys land on the same map-sink key, and only the last
      one's value is kept. */
  lemma MissingIntKeysShareOneSlot(env: Env, s: Sink, path: seq<string>, a: Value, b: Value)
    requires env.opts.asMap && a.Map? && b.Map? && |a.entries| == 0 && |b.entries| == 2
    requires b.entries[0].key.Int? && b.entries[1].key.Int? && b.entries[0].key.ty == b.entries[1].key.ty
    requires |s.diff| < env.opts.maxDiff
    ensures var k := DiffKey(path + ["<" + b.entries[0].key.ty + " Value>"]);
            var r := MapMissingFrom(env, s, path, a, b, 0);
            r.diff == s.diff && r.diffM == s.diffM[k := DiffResult(Text(EmptyValue), Boxed(b.entries[1].val))]
  {
    var p := path + ["<" + b.entries[0].key.ty + " Value>"];
    assert ValueString(b.entries[1].key) == ValueString(b.entries[0].key);
    var s1 := Save(s, p, Text(EmptyValue), Boxed(b.entries[0].val), true);
    var s2 := Save(s1, p, Text(EmptyValue), Boxed(b.entries[1].val), true);
    assert MapMissingFrom(env, s2, path, a, b, 2) == s2;
    assert MapMissingFrom(env, s1, path, a, b, 1) == s2;
  }
}
