/** The comparator's options and its two difference sinks: the list of
    formatted lines (`diff`) and the map from dotted path to old/new pair
    (`diffM`), written by one save operation (`saveDiff`). */
module Diffs {
  import opened GoStrings
  import opened Values

  /** Options. `asMap` is unexported in Go: only CompareM sets it. */
  datatype Options = Options(
    floatPrecision: int,
    maxDiff: int,
    maxDepth: int,
    logErrors: bool,
    compareUnexportedFields: bool,
    asMap: bool)

  /** The initial value of DefaultOptions. */
  const DefaultOptions := Options(10, 10, 10, false, false, false)

  const NilPointer := "<nil pointer>"
  const EmptyValue := "[empty value]"
  /** The map-sink key used for a difference found at the top level. */
  const ResultKey := "result"

  /** An argument of saveDiff (an `interface{}` in Go): a string, a
      reflect.Type, a raw bool/int64/uint64, a reflect.Value passed as is, or
      the Go value that reflect.Value.Interface() boxes. */
  datatype Shown =
    | Text(text: string)
    | TypeName(t: Type)
    | RawBool(b: bool)
    | RawInt(i: int)
    | RawUint(u: nat)
    | Reflected(v: Value)
    | Boxed(v: Value)

  /** `%v` of a saveDiff argument. */
  function Render(x: Shown): string
  {
    match x
    case Text(s) => s
    case TypeName(t) => TypeString(t)
    case RawBool(b) => if b then "true" else "false"
    case RawInt(i) => IntToString(i)
    case RawUint(u) => NatToString(u)
    case Reflected(v) => RenderValue(v)
    case Boxed(v) => if v.Nil? then "<nil>" else RenderValue(v)
  }

  /** What each kind of saveDiff argument prints as: text as itself, a type
      as its name, raw bools and numbers as their text, reflected and boxed
      values by `%v` of the value. */
  lemma RenderShown(x: Shown)
    ensures x.Text? ==> Render(x) == x.text
    ensures x.TypeName? ==> Render(x) == x.t.name
    ensures x.RawBool? ==> (Render(x) == "true" <==> x.b) && (Render(x) == "false" <==> !x.b)
    ensures x.RawInt? && x.i >= 0 ==> Digits(Render(x)) && ParseNat(Render(x)) == x.i
    ensures x.RawInt? && x.i < 0 ==>
              |Render(x)| > 1 && Render(x)[0] == '-' && Digits(Render(x)[1..]) && ParseNat(Render(x)[1..]) == -x.i
    ensures x.RawUint? ==> Digits(Render(x)) && ParseNat(Render(x)) == x.u
    ensures x.Reflected? || (x.Boxed? && !x.v.Nil?) ==> Render(x) == RenderValue(x.v)
  {
    if x.RawUint? {
      ParseNatToString(x.u);
    } else if x.RawInt? {
      IntToStringReads(x.i);
    }
  }

  datatype DiffResult = DiffResult(oldValue: Shown, newValue: Shown)

  /** The two sinks of a comparison. */
  datatype Sink = Sink(diff: seq<string>, diffM: map<string, DiffResult>)

  const EmptySink := Sink([], map[])

  /** The map-sink key for a difference at `path`. */
  function DiffKey(path: seq<string>): string
  {
    if |path| > 0 then Join(path, '.') else ResultKey
  }

  /** The map-sink key is "result" at the root, the one segment for a
      one-segment path, and otherwise starts with the first segment and a dot. */
  lemma DiffKeyShape(path: seq<string>)
    ensures |path| == 0 ==> DiffKey(path) == ResultKey
    ensures |path| == 1 ==> DiffKey(path) == path[0]
    ensures |path| > 1 ==> |path[0]| < |DiffKey(path)| && path[0] <= DiffKey(path) && DiffKey(path)[|path[0]|] == '.'
  {
    JoinShape(path, '.');
  }

  /** No segment of the path contains a dot. */
  predicate DotFree(path: seq<string>)
  {
    forall i :: 0 <= i < |path| ==> '.' !in path[i]
  }

  /** Below the top level, the map-sink key gives the path back when no
      segment contains a dot, so such paths get distinct keys. */
  lemma DiffKeyInjective(p: seq<string>, q: seq<string>)
    requires |p| > 0 && |q| > 0 && DotFree(p) && DotFree(q)
    ensures DiffKey(p) == DiffKey(q) <==> p == q
  {
    SplitJoin(p, '.');
    SplitJoin(q, '.');
  }

  /** A segment with a dot in it (a map key "a.b") and a field named "result"
      at the top level collide with other paths in the map sink. */
  lemma DiffKeyCollisions()
    ensures DiffKey(["a.b"]) == DiffKey(["a", "b"])
    ensures DiffKey([ResultKey]) == DiffKey([])
  {
    assert Join(["a", "b"], '.') == "a" + "." + Join(["b"], '.');
  }

  /** The list-sink line for a difference at `path`: below the top level it
      starts with the key the map sink would use. */
  function Line(path: seq<string>, x: Shown, y: Shown): string
  {
    if |path| > 0 then DiffKey(path) + ": " + Render(x) + " != " + Render(y)
    else Render(x) + " != " + Render(y)
  }

  /** A list line names the difference's path first, when there is one, and
      ends with the old and new values around " != ". */
  lemma LineShape(path: seq<string>, x: Shown, y: Shown)
    ensures |path| > 0 ==> DiffKey(path) + ": " <= Line(path, x, y)
    ensures |path| == 0 ==> Line(path, x, y) == Render(x) + " != " + Render(y)
    ensures var tail := " != " + Render(y);
            |tail| <= |Line(path, x, y)| && Line(path, x, y)[|Line(path, x, y)| - |tail|..] == tail
  {
    var tail := " != " + Render(y);
    var head := if |path| > 0 then DiffKey(path) + ": " else [];
    ConcatAssoc(Render(x), " != ", Render(y));
    if |path| > 0 {
      ConcatAssoc(head + Render(x), " != ", Render(y));
    }
    assert Line(path, x, y) == (head + Render(x)) + tail;
    Ends(head, Render(x), tail);
  }

  /** saveDiff: list mode appends one line; map mode stores the pair under
      the dotted path, and at the top level stores it under "result" AND
      appends a line as well. */
  function Save(s: Sink, path: seq<string>, x: Shown, y: Shown, asMap: bool): (r: Sink)
    ensures |r.diff| <= |s.diff| + 1 && s.diff <= r.diff
    ensures !asMap ==> |r.diff| == |s.diff| + 1 && r.diffM == s.diffM
    ensures asMap ==> r.diffM == s.diffM[DiffKey(path) := DiffResult(x, y)]
    ensures asMap && |path| > 0 ==> r.diff == s.diff
    ensures |path| == 0 ==> |r.diff| == |s.diff| + 1
    ensures |r.diff| > |s.diff| ==> r.diff[|s.diff|] == Line(path, x, y)
  {
    if |path| > 0 then
      if asMap then s.(diffM := s.diffM[Join(path, '.') := DiffResult(x, y)])
      else s.(diff := s.diff + [Line(path, x, y)])
    else
      var s1 := if asMap then s.(diffM := s.diffM[ResultKey := DiffResult(x, y)]) else s;
      s1.(diff := s1.diff + [Line(path, x, y)])
  }

  /** The most lines a comparison step may leave when it starts with `n`
      lines: up to the limit when below it, otherwise one more at most
      (the first visited child is compared before the limit is checked). */
  function Bound(n: nat, maxDiff: int): int
  {
    if n < maxDiff then maxDiff else n + 1
  }

  /** How a comparison step may change the sinks: lines are only appended,
      never beyond Bound; in map mode keys are only added, and a new line comes
      with the "result" key; in list mode the map sink is untouched. */
  predicate Grows(opts: Options, s: Sink, r: Sink)
  {
    && s.diff <= r.diff
    && |r.diff| <= Bound(|s.diff|, opts.maxDiff)
    && (opts.asMap ==> s.diffM.Keys <= r.diffM.Keys && (|r.diff| > |s.diff| ==> ResultKey in r.diffM))
    && (!opts.asMap ==> r.diffM == s.diffM)
  }

  /** Two steps chain when the first leaves the list below the limit, as the
      comparator's loops check after each child. */
  lemma GrowsTrans(opts: Options, s: Sink, m: Sink, r: Sink)
    requires Grows(opts, s, m) && Grows(opts, m, r)
    requires |m.diff| < opts.maxDiff
    ensures Grows(opts, s, r)
  {
  }
}
