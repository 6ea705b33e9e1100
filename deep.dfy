/** The comparator itself: the `cmp` record with its path stack and sinks,
    the recursive `equals` walk that updates them, and the entry points. */
module Deep {
  import opened Wrappers
  import opened Values
  import opened Tags
  import opened Diffs
  import opened WalkSpec

  /** The per-comparison state `cmp`. */
  class Comparator {
    /** The list sink. */
    var diff: seq<string>
    /** The map sink (used when `opts.asMap`). */
    var diffM: map<string, DiffResult>
    /** The path stack: one segment per struct field, map key or index
        entered. */
    var buff: seq<string>
    const opts: Options
    /** The semantics of the types' own Equal methods. */
    const equal: (Value, Value) -> bool

    function State(): Sink
      reads this
    {
      Sink(diff, diffM)
    }

    function Env(): Env
    {
      WalkSpec.Env(opts, equal)
    }

    constructor (opts: Options, equal: (Value, Value) -> bool)
      ensures State() == EmptySink && buff == []
      ensures this.opts == opts && this.equal == equal
    {
      this.diff := [];
      this.diffM := map[];
      this.buff := [];
      this.opts := opts;
      this.equal := equal;
    }

    /** push: enter a path segment. */
    method Push(name: string)
      modifies this`buff
      ensures buff == old(buff) + [name]
    {
      buff := buff + [name];
    }

    /** pop: leave the innermost segment; an empty stack stays empty. */
    method Pop()
      modifies this`buff
      ensures |old(buff)| > 0 ==> buff == old(buff)[..|old(buff)| - 1]
      ensures old(buff) == [] ==> buff == []
    {
      if |buff| > 0 {
        buff := buff[..|buff| - 1];
      }
    }

    /** saveDiff: record one difference at the current path. */
    method SaveDiff(x: Shown, y: Shown)
      modifies this`diff, this`diffM
      ensures State() == Save(old(State()), buff, x, y, opts.asMap)
    {
      if |buff| > 0 {
        var varName := GoStrings.Join(buff, '.');
        if opts.asMap {
          diffM := diffM[varName := DiffResult(x, y)];
          return;
        }
        diff := diff + [varName + ": " + Render(x) + " != " + Render(y)];
      } else {
        if opts.asMap {
          diffM := diffM[ResultKey := DiffResult(x, y)];
        }
        diff := diff + [Render(x) + " != " + Render(y)];
      }
    }

    /** equals: compare `a` with `b` at depth `level`, recording every
        difference below the current path. The path stack is the same on
        return. */
    method Equals(a: Value, b: Value, level: int, ro: bool)
      modifies this`diff, this`diffM, this`buff
      ensures buff == old(buff)
      ensures State() == Walk(Env(), old(State()), old(buff), a, b, level, ro)
      decreases a, b, 3
    {
      if level > opts.maxDepth {
        return;
      }

      if a.Nil? || b.Nil? {
        if !a.Nil? && b.Nil? {
          SaveDiff(TypeName(TypeOf(a)), Text(NilPointer));
        } else if a.Nil? && !b.Nil? {
          SaveDiff(Text(NilPointer), TypeName(TypeOf(b)));
        }
        return;
      }

      var aType := TypeOf(a);
      var bType := TypeOf(b);
      if aType != bType {
        SaveDiff(TypeName(aType), TypeName(bType));
        return;
      }

      if ImplementsError(aType) && ImplementsError(bType) {
        if ErrorText(a).Some? && ErrorText(b).Some? {
          var aString := ErrorText(a).value;
          var bString := ErrorText(b).value;
          if aString != bString {
            SaveDiff(Text(aString), Text(bString));
          }
          return;
        }
      }

      var aElem, bElem := IsIndirect(a), IsIndirect(b);
      if aElem || bElem {
        var a', b' := a, b;
        if aElem {
          a' := Elem(a);
        }
        if bElem {
          b' := Elem(b);
        }
        Equals(a', b', level + 1, ro);
        return;
      }

      EqualsByKind(a, b, level, ro);
    }

    /** The kind switch of `equals`. */
    method EqualsByKind(a: Value, b: Value, level: int, ro: bool)
      requires !a.Nil? && !b.Nil? && TypeOf(a) == TypeOf(b)
      modifies this`diff, this`diffM, this`buff
      ensures buff == old(buff)
      ensures State() == ByKind(Env(), old(State()), old(buff), a, b, level, ro)
      decreases a, b, 2
    {
      SameTypeSameShape(a, b);
      match a {
        case Struct(_, hasEqual, _) =>
          if hasEqual && !ro {
            if !equal(a, b) {
              SaveDiff(Reflected(a), Reflected(b));
            }
            return;
          }
          EqualsFields(a, b, level, ro);
        case Map(_, aNil, _) =>
          if aNil || b.isNil {
            if aNil && !b.isNil {
              SaveDiff(Text(EmptyValue), Boxed(b));
            } else if !aNil && b.isNil {
              SaveDiff(Boxed(a), Text(EmptyValue));
            }
            return;
          }
          EqualsEntries(a, b, level, ro);
        case Array(_, _) =>
          EqualsElements(a, b, level, ro);
        case Slice(_, aNil, _) =>
          if aNil || b.isNil {
            if aNil && !b.isNil {
              SaveDiff(Text(EmptyValue), Reflected(b));
            } else if !aNil && b.isNil {
              SaveDiff(Reflected(a), Text(EmptyValue));
            }
            return;
          }
          EqualsElements(a, b, level, ro);
        case Bool(_, x) =>
          if x != b.boolVal {
            SaveDiff(RawBool(x), RawBool(b.boolVal));
          }
        case Int(_, x) =>
          if x != b.intVal {
            SaveDiff(RawInt(x), RawInt(b.intVal));
          }
        case Uint(_, x) =>
          if x != b.uintVal {
            SaveDiff(RawUint(x), RawUint(b.uintVal));
          }
        case Str(_, x) =>
          if x != b.strVal {
            SaveDiff(Text(x), Text(b.strVal));
          }
        case _ =>
      }
    }

    /** The field loop of `equals` for two structs of one type: fields in
        declared order, hidden ones passed over, stopping once the list sink
        reaches MaxDiff. */
    method EqualsFields(a: Value, b: Value, level: int, ro: bool)
      requires a.Struct? && b.Struct? && |a.fields| == |b.fields|
      modifies this`diff, this`diffM, this`buff
      ensures buff == old(buff)
      ensures State() == StructFrom(Env(), old(State()), old(buff), a, b, level, ro, 0)
      decreases a, b, 1
    {
      ghost var target := StructFrom(Env(), State(), buff, a, b, level, ro, 0);
      for i := 0 to |a.fields|
        invariant buff == old(buff)
        invariant StructFrom(Env(), State(), buff, a, b, level, ro, i) == target
      {
        var f := a.fields[i];
        if !f.exported && !opts.compareUnexportedFields {
          continue;
        }
        var tagOpts := GetTagOpts(f.tag);
        if tagOpts.skip {
          continue;
        }
        if tagOpts.present {
          Push(tagOpts.name);
        } else {
          Push(f.name);
        }
        Equals(f.value, b.fields[i].value, level + 1, ro || !f.exported);
        Pop();
        if |diff| >= opts.maxDiff {
          break;
        }
      }
    }

    /** The key loops of `equals` for two non-nil maps: keys of `a` (in `b`
        or not), then keys only in `b`, returning once the list sink reaches
        MaxDiff. */
    method EqualsEntries(a: Value, b: Value, level: int, ro: bool)
      requires a.Map? && b.Map?
      modifies this`diff, this`diffM, this`buff
      ensures buff == old(buff)
      ensures State() == MapFrom(Env(), old(State()), old(buff), a, b, level, ro, 0)
      decreases a, b, 1
    {
      ghost var target := MapFrom(Env(), State(), buff, a, b, level, ro, 0);
      for i := 0 to |a.entries|
        invariant buff == old(buff)
        invariant MapFrom(Env(), State(), buff, a, b, level, ro, i) == target
      {
        EqualsKey(a, b, level, ro, i);
        if |diff| >= opts.maxDiff {
          return;
        }
      }
      EqualsMissing(a, b);
    }

    /** One key of the first key loop: the value pair compared one level
        down when `b` has the key, otherwise `a`'s value recorded against
        "[empty value]". */
    method EqualsKey(a: Value, b: Value, level: int, ro: bool, i: nat)
      requires a.Map? && b.Map? && i < |a.entries|
      modifies this`diff, this`diffM, this`buff
      ensures buff == old(buff)
      ensures State() == KeyStep(Env(), old(State()), old(buff), a, b, level, ro, i)
      decreases a, b, 0
    {
      var key := a.entries[i].key;
      Push(KeyText(key));
      var aVal := a.entries[i].val;
      var bVal := Lookup(b.entries, key);
      if bVal.Some? {
        Equals(aVal, bVal.value, level + 1, ro);
      } else {
        SaveDiff(Boxed(aVal), Text(EmptyValue));
      }
      Pop();
    }

    /** The second key loop of `equals`: keys only in `b`, rendered by
        reflect.Value.String(), returning once the list sink reaches MaxDiff. */
    method EqualsMissing(a: Value, b: Value)
      requires a.Map? && b.Map?
      modifies this`diff, this`diffM, this`buff
      ensures buff == old(buff)
      ensures State() == MapMissingFrom(Env(), old(State()), old(buff), a, b, 0)
      decreases a, b, 0
    {
      ghost var target := MapMissingFrom(Env(), State(), buff, a, b, 0);
      for j := 0 to |b.entries|
        invariant buff == old(buff)
        invariant MapMissingFrom(Env(), State(), buff, a, b, j) == target
      {
        var key := b.entries[j].key;
        if Lookup(a.entries, key).Some? {
          continue;
        }
        Push(ValueString(key));
        SaveDiff(Text(EmptyValue), Boxed(b.entries[j].val));
        Pop();
        if |diff| >= opts.maxDiff {
          return;
        }
      }
    }

    /** The index loop of `equals` for two arrays of one type (equal lengths)
        or two non-nil slices: indices up to the longer length, stopping once
        the list sink reaches MaxDiff. */
    method EqualsElements(a: Value, b: Value, level: int, ro: bool)
      requires (a.Array? && b.Array? && |a.elems| == |b.elems|) || (a.Slice? && b.Slice?)
      modifies this`diff, this`diffM, this`buff
      ensures buff == old(buff)
      ensures State() == IndexedFrom(Env(), old(State()), old(buff), a, b, level, ro, 0)
      decreases a, b, 1
    {
      ghost var target := IndexedFrom(Env(), State(), buff, a, b, level, ro, 0);
      var n := |a.elems|;
      if |b.elems| > n {
        n := |b.elems|;
      }
      for i := 0 to n
        invariant buff == old(buff)
        invariant IndexedFrom(Env(), State(), buff, a, b, level, ro, i) == target
      {
        EqualsIndex(a, b, level, ro, i);
        if |diff| >= opts.maxDiff {
          break;
        }
      }
    }

    /** One index of that loop: both elements compared one level down, or
        the one present recorded against "[empty value]". */
    method EqualsIndex(a: Value, b: Value, level: int, ro: bool, i: nat)
      requires (a.Array? || a.Slice?) && (b.Array? || b.Slice?) && i < MaxLen(a, b)
      modifies this`diff, this`diffM, this`buff
      ensures buff == old(buff)
      ensures State() == IndexStep(Env(), old(State()), old(buff), a, b, level, ro, i)
      decreases a, b, 0
    {
      var aLen, bLen := |a.elems|, |b.elems|;
      Push(IndexSegment(i));
      if i < aLen && i < bLen {
        Equals(a.elems[i], b.elems[i], level + 1, ro);
      } else if i < aLen {
        SaveDiff(Reflected(a.elems[i]), Text(EmptyValue));
      } else {
        SaveDiff(Text(EmptyValue), Reflected(b.elems[i]));
      }
      Pop();
    }
  }

  /** The options in effect: the first one given, else DefaultOptions. */
  function ChooseOptions(opts: seq<Options>): (r: Options)
    ensures |opts| > 0 ==> r == opts[0]
    ensures |opts| == 0 ==> r == DefaultOptions
  {
    if |opts| > 0 then opts[0] else DefaultOptions
  }

  /** compare: a fresh comparator driven over `a` and `b`. */
  method Compare(a: Value, b: Value, opts: Options, equal: (Value, Value) -> bool) returns (c: Comparator, hasDiff: bool)
    ensures fresh(c) && c.opts == opts && c.buff == []
    ensures c.State() == Run(WalkSpec.Env(opts, equal), a, b)
    ensures hasDiff == HasDiff(c.State())
  {
    c := new Comparator(opts, equal);
    if a.Nil? && b.Nil? {
      return c, false;
    } else if a.Nil? && !b.Nil? {
      c.SaveDiff(Boxed(b), Text(NilPointer));
    } else if !a.Nil? && b.Nil? {
      c.SaveDiff(Boxed(a), Text(NilPointer));
    }
    if |c.diff| > 0 {
      return c, true;
    }
    c.Equals(a, b, 0, false);
    hasDiff := |c.diff| > 0 || |c.diffM| > 0;
  }

  /** CompareS: the list of difference lines, or nothing. */
  method CompareS(a: Value, b: Value, equal: (Value, Value) -> bool, opts: seq<Options>) returns (diff: seq<string>, hasDiff: bool)
    ensures hasDiff == HasDiff(Run(WalkSpec.Env(ChooseOptions(opts), equal), a, b))
    ensures diff == if hasDiff then Run(WalkSpec.Env(ChooseOptions(opts), equal), a, b).diff else []
    ensures !ChooseOptions(opts).asMap ==> (hasDiff <==> diff != [])
  {
    var o := ChooseOptions(opts);
    var c, has := Compare(a, b, o, equal);
    if has {
      return c.diff, has;
    }
    return [], false;
  }

  /** CompareM: the map from dotted path to old/new pair, or nothing. */
  method CompareM(a: Value, b: Value, equal: (Value, Value) -> bool, opts: seq<Options>) returns (diffM: map<string, DiffResult>, hasDiff: bool)
    ensures hasDiff == HasDiff(Run(WalkSpec.Env(ChooseOptions(opts).(asMap := true), equal), a, b))
    ensures diffM == if hasDiff then Run(WalkSpec.Env(ChooseOptions(opts).(asMap := true), equal), a, b).diffM else map[]
    ensures hasDiff <==> |diffM| > 0
  {
    var o := ChooseOptions(opts);
    o := o.(asMap := true);
    var c, has := Compare(a, b, o, equal);
    if has {
      return c.diffM, has;
    }
    return map[], false;
  }
}
