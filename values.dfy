/** A closed model of the Go values the comparator walks, standing in for
    `reflect.Value` and `reflect.Type`, together with the `fmt` renderings the
    comparator asks for (`%v`, `%s` of a key, `reflect.Value.String()`). */
module Values {
  import opened Wrappers
  import opened GoStrings

  /** One field of a struct value: its declared name, whether it is exported,
      the value of its `compare:"..."` struct tag ("" when absent), and its value. */
  datatype Field = Field(name: string, exported: bool, tag: string, value: Value)

  /** One key/value pair of a map. Go maps have distinct keys; the entry order
      stands for one run's iteration order. */
  datatype Entry = Entry(key: Value, val: Value)

  /** A Go value as reflection sees it. Every present value carries the name of
      its concrete type (`ty`). `Nil` is the invalid reflect.Value: what
      reflect.ValueOf(nil) gives and what Elem() gives for a nil pointer or a nil
      interface. */
  datatype Value =
    | Nil
    | Bool(ty: string, boolVal: bool)
    | Int(ty: string, intVal: int)
    | Uint(ty: string, uintVal: nat)
    | Str(ty: string, strVal: string)
      /** `hasEqual`: the type has its own `Equal(T) bool` method (not one promoted from an embedded field). */
    | Struct(ty: string, hasEqual: bool, fields: seq<Field>)
    | Map(ty: string, isNil: bool, entries: seq<Entry>)
    | Array(ty: string, elems: seq<Value>)
    | Slice(ty: string, isNil: bool, elems: seq<Value>)
      /** A pointer; `target` is `Nil` for a nil pointer. */
    | Ptr(ty: string, target: Value)
      /** A value of interface type (a struct field, map value or slice element
          declared `interface{}` or `error`); `content` is `Nil` for a nil
          interface. `isError`: the interface type is `error`. */
    | Iface(ty: string, isError: bool, content: Value)
      /** A non-nil pointer of a concrete type implementing `error`, whose
          Error() method returns `msg` (e.g. `*errors.errorString`). */
    | Err(ty: string, msg: string)
      /** A function value: a kind the comparator does not handle. */
    | Func(ty: string)

  /** What reflect.Type.Field(i) tells about a struct field. */
  datatype FieldDecl = FieldDecl(name: string, exported: bool, tag: string)

  /** A reflect.Type. Equal types have the same kind; a struct type fixes the
      field declarations and an array type its length, as in Go. */
  datatype Type =
    | BoolType(name: string)
    | IntType(name: string)
    | UintType(name: string)
    | StringType(name: string)
    | StructType(name: string, decls: seq<FieldDecl>, hasEqual: bool)
    | MapType(name: string)
    | ArrayType(name: string, len: nat)
    | SliceType(name: string)
    | PtrType(name: string)
    | IfaceType(name: string, isError: bool)
    | ErrType(name: string)
    | FuncType(name: string)

  function Decls(fs: seq<Field>): (ds: seq<FieldDecl>)
    ensures |ds| == |fs|
  {
    seq(|fs|, i requires 0 <= i < |fs| => FieldDecl(fs[i].name, fs[i].exported, fs[i].tag))
  }

  /** reflect.Value.Type(); the invalid value has no type. */
  function TypeOf(v: Value): (t: Type)
    requires !v.Nil?
    ensures t.StructType? <==> v.Struct?
    ensures v.Struct? ==> t.decls == Decls(v.fields) && t.hasEqual == v.hasEqual
    ensures t.MapType? <==> v.Map?
    ensures t.ArrayType? <==> v.Array?
    ensures v.Array? ==> t.len == |v.elems|
    ensures t.SliceType? <==> v.Slice?
    ensures t.BoolType? <==> v.Bool?
    ensures t.IntType? <==> v.Int?
    ensures t.UintType? <==> v.Uint?
    ensures t.StringType? <==> v.Str?
    ensures t.PtrType? <==> v.Ptr?
    ensures t.IfaceType? <==> v.Iface?
    ensures v.Iface? ==> t.isError == v.isError
    ensures t.ErrType? <==> v.Err?
    ensures t.FuncType? <==> v.Func?
    ensures t.name == v.ty
  {
    match v
    case Bool(ty, _) => BoolType(ty)
    case Int(ty, _) => IntType(ty)
    case Uint(ty, _) => UintType(ty)
    case Str(ty, _) => StringType(ty)
    case Struct(ty, hasEqual, fields) => StructType(ty, Decls(fields), hasEqual)
    case Map(ty, _, _) => MapType(ty)
    case Array(ty, elems) => ArrayType(ty, |elems|)
    case Slice(ty, _, _) => SliceType(ty)
    case Ptr(ty, _) => PtrType(ty)
    case Iface(ty, isError, _) => IfaceType(ty, isError)
    case Err(ty, _) => ErrType(ty)
    case Func(ty) => FuncType(ty)
  }

  /** Two values of one type have the same shape: same kind, same number of
      struct fields, same array length. */
  lemma SameTypeSameShape(a: Value, b: Value)
    requires !a.Nil? && !b.Nil? && TypeOf(a) == TypeOf(b)
    ensures a.Struct? <==> b.Struct?
    ensures a.Struct? ==> |a.fields| == |b.fields|
    ensures a.Array? <==> b.Array?
    ensures a.Array? ==> |a.elems| == |b.elems|
    ensures a.Map? <==> b.Map?
    ensures a.Slice? <==> b.Slice?
    ensures a.Bool? <==> b.Bool?
    ensures a.Int? <==> b.Int?
    ensures a.Uint? <==> b.Uint?
    ensures a.Str? <==> b.Str?
  {
    if a.Struct? {
      assert |Decls(a.fields)| == |Decls(b.fields)|;
    }
  }

  /** Type.Implements(errorType): the `error` interface type itself and the
      concrete error types. */
  predicate ImplementsError(t: Type)
  {
    t.ErrType? || (t.IfaceType? && t.isError)
  }

  /** The result of calling Error() on a value whose Elem() is valid: the
      message of a concrete error, or of the error an `error` interface holds.
      None when Elem() is invalid (a nil interface). */
  function ErrorText(v: Value): (r: Option<string>)
    ensures r.Some? <==> v.Err? || (v.Iface? && v.content.Err?)
    ensures v.Err? ==> r == Some(v.msg)
    ensures v.Iface? && v.content.Err? ==> r == Some(v.content.msg)
  {
    match v
    case Err(_, msg) => Some(msg)
    case Iface(_, _, Err(_, msg)) => Some(msg)
    case _ => None
  }

  /** Kind is Ptr or Interface: the comparator dereferences such a value. */
  predicate IsIndirect(v: Value)
  {
    v.Ptr? || v.Iface?
  }

  /** reflect.Value.Elem() of a pointer or interface value. */
  function Elem(v: Value): (r: Value)
    requires IsIndirect(v)
    ensures r < v
    ensures v.Ptr? ==> r == v.target
    ensures v.Iface? ==> r == v.content
  {
    if v.Ptr? then v.target else v.content
  }

  /** reflect.Value.MapIndex(key): the value stored under `key`, if any. */
  function Lookup(entries: seq<Entry>, key: Value): (r: Option<Value>)
    ensures r.None? <==> forall i :: 0 <= i < |entries| ==> entries[i].key != key
    ensures r.Some? ==> exists i :: 0 <= i < |entries| && entries[i] == Entry(key, r.value)
  {
    if |entries| == 0 then None
    else if entries[0].key == key then Some(entries[0].val)
    else
      var r := Lookup(entries[1..], key);
      assert forall i :: 1 <= i < |entries| ==> entries[i] == entries[1..][i - 1];
      r
  }

  /** Go maps never hold a key twice. */
  predicate DistinctKeys(entries: seq<Entry>)
  {
    forall i, j :: 0 <= i < j < |entries| ==> entries[i].key != entries[j].key
  }

  /** A value Go can build: every map inside it has distinct keys. */
  predicate WellFormed(v: Value)
  {
    match v
    case Struct(_, _, fields) => forall i :: 0 <= i < |fields| ==> WellFormed(fields[i].value)
    case Map(_, _, entries) =>
      && DistinctKeys(entries)
      && forall i :: 0 <= i < |entries| ==> WellFormed(entries[i].val)
    case Array(_, elems) => forall i :: 0 <= i < |elems| ==> WellFormed(elems[i])
    case Slice(_, _, elems) => forall i :: 0 <= i < |elems| ==> WellFormed(elems[i])
    case Ptr(_, target) => WellFormed(target)
    case Iface(_, _, content) => WellFormed(content)
    case _ => true
  }

  /** With distinct keys, looking up the key of the i-th entry finds that entry's value. */
  lemma {:induction false} LookupOwnKey(entries: seq<Entry>, i: nat)
    requires DistinctKeys(entries) && i < |entries|
    ensures Lookup(entries, entries[i].key) == Some(entries[i].val)
  {
    if i > 0 {
      assert entries[0].key != entries[i].key;
      assert DistinctKeys(entries[1..]) by {
        forall p, q | 0 <= p < q < |entries[1..]|
          ensures entries[1..][p].key != entries[1..][q].key
        {
          assert entries[1..][p] == entries[p + 1] && entries[1..][q] == entries[q + 1];
        }
      }
      LookupOwnKey(entries[1..], i - 1);
      assert entries[1..][i - 1] == entries[i];
    }
  }

  /** The name reflect.Type.String() gives. */
  function TypeString(t: Type): string
  {
    t.name
  }

  /** The parts, space-separated, between an opening text and a closing
      character, as fmt prints composite values. */
  function Bracketed(open: string, parts: seq<string>, close: char): (r: string)
    ensures |r| > |open| && r[..|open|] == open && r[|r| - 1] == close
  {
    open + Join(parts, ' ') + [close]
  }

  /** `%v` of a value, in the shape fmt prints it: scalars as their text,
      `{f1 f2}` for a struct, `map[k:v ...]`, `[e1 e2]` for arrays and slices,
      `&` before a pointed-to value, `<nil>` for a nil pointer or interface. */
  function RenderValue(v: Value): string
  {
    match v
    case Nil => "<invalid reflect.Value>"
    case Bool(_, x) => if x then "true" else "false"
    case Int(_, x) => IntToString(x)
    case Uint(_, x) => NatToString(x)
    case Str(_, x) => x
    case Struct(_, _, fs) => Bracketed("{", seq(|fs|, i requires 0 <= i < |fs| => RenderValue(fs[i].value)), '}')
    case Map(_, _, es) =>
      Bracketed("map[", seq(|es|, i requires 0 <= i < |es| => RenderValue(es[i].key) + ":" + RenderValue(es[i].val)), ']')
    case Array(_, es) => Bracketed("[", seq(|es|, i requires 0 <= i < |es| => RenderValue(es[i])), ']')
    case Slice(_, _, es) => Bracketed("[", seq(|es|, i requires 0 <= i < |es| => RenderValue(es[i])), ']')
    case Ptr(_, t) => if t.Nil? then "<nil>" else "&" + RenderValue(t)
    case Iface(_, _, c) => if c.Nil? then "<nil>" else RenderValue(c)
    case Err(_, msg) => msg
    case Func(ty) => ty
  }

  /** fmt.Sprintf("%s", key) for a map key held in a reflect.Value: strings and
      errors print as their text, other scalars get fmt's bad-verb form
      `%!s(<type>=<value>)`, an interface prints what it holds, and structs
      and arrays print their parts the same way. */
  function KeyText(k: Value): string
  {
    match k
    case Str(_, s) => s
    case Err(_, msg) => msg
    case Bool(ty, _) => "%!s(" + ty + "=" + RenderValue(k) + ")"
    case Int(ty, _) => "%!s(" + ty + "=" + RenderValue(k) + ")"
    case Uint(ty, _) => "%!s(" + ty + "=" + RenderValue(k) + ")"
    case Iface(_, _, c) => if c.Nil? then "<nil>" else KeyText(c)
    case Struct(_, _, fs) => Bracketed("{", seq(|fs|, i requires 0 <= i < |fs| => KeyText(fs[i].value)), '}')
    case Array(_, es) => Bracketed("[", seq(|es|, i requires 0 <= i < |es| => KeyText(es[i])), ']')
    case _ => RenderValue(k)
  }

  /** `%v` of a scalar: a string as its text, a bool as "true" or "false",
      and a number as decimal digits that read back as the number. */
  lemma RenderScalars(v: Value)
    ensures v.Str? ==> RenderValue(v) == v.strVal
    ensures v.Bool? ==> (RenderValue(v) == "true" <==> v.boolVal) && (RenderValue(v) == "false" <==> !v.boolVal)
    ensures v.Uint? ==> Digits(RenderValue(v)) && ParseNat(RenderValue(v)) == v.uintVal
    ensures v.Int? && v.intVal >= 0 ==> Digits(RenderValue(v)) && ParseNat(RenderValue(v)) == v.intVal
    ensures v.Int? && v.intVal < 0 ==>
              |RenderValue(v)| > 1 && RenderValue(v)[0] == '-' && Digits(RenderValue(v)[1..]) && ParseNat(RenderValue(v)[1..]) == -v.intVal
  {
    if v.Uint? {
      ParseNatToString(v.uintVal);
    } else if v.Int? {
      IntToStringReads(v.intVal);
    }
  }

  /** `%v` of the other kinds: `<nil>` for a nil pointer or interface, `&`
      before a pointed-to value, and composite values inside their brackets. */
  lemma RenderComposites(v: Value)
    ensures (v.Ptr? && v.target.Nil?) || (v.Iface? && v.content.Nil?) ==> RenderValue(v) == "<nil>"
    ensures v.Ptr? && !v.target.Nil? ==> RenderValue(v) == "&" + RenderValue(v.target)
    ensures v.Struct? ==> |RenderValue(v)| >= 2 && RenderValue(v)[0] == '{' && RenderValue(v)[|RenderValue(v)| - 1] == '}'
    ensures v.Map? ==> |RenderValue(v)| >= 5 && RenderValue(v)[..4] == "map[" && RenderValue(v)[|RenderValue(v)| - 1] == ']'
    ensures v.Array? || v.Slice? ==> |RenderValue(v)| >= 2 && RenderValue(v)[0] == '[' && RenderValue(v)[|RenderValue(v)| - 1] == ']'
  {
  }

  /** What `%s` prints for a map key of each kind. */
  lemma KeyTextShapes(k: Value)
    ensures k.Str? ==> KeyText(k) == k.strVal
    ensures k.Err? ==> KeyText(k) == k.msg
    ensures k.Int? ==> KeyText(k) == "%!s(" + k.ty + "=" + IntToString(k.intVal) + ")"
    ensures k.Uint? ==> KeyText(k) == "%!s(" + k.ty + "=" + NatToString(k.uintVal) + ")"
    ensures k.Bool? ==> KeyText(k) == "%!s(" + k.ty + "=" + (if k.boolVal then "true" else "false") + ")"
    ensures k.Iface? && !k.content.Nil? ==> KeyText(k) == KeyText(k.content)
    ensures k.Struct? ==> |KeyText(k)| >= 2 && KeyText(k)[0] == '{' && KeyText(k)[|KeyText(k)| - 1] == '}'
    ensures k.Array? ==> |KeyText(k)| >= 2 && KeyText(k)[0] == '[' && KeyText(k)[|KeyText(k)| - 1] == ']'
  {
  }

  /** reflect.Value.String(): the text of a string value, and `<T Value>` for
      every other kind. */
  function ValueString(k: Value): (r: string)
    ensures k.Str? ==> r == k.strVal
    ensures !k.Str? && !k.Nil? ==> r == "<" + k.ty + " Value>"
  {
    match k
    case Nil => "<invalid Value>"
    case Str(_, s) => s
    case _ => "<" + k.ty + " Value>"
  }
}
