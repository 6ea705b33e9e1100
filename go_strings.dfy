/** The few pieces of Go's `strings` and `strconv` packages that the comparator
    relies on: `strings.Join` (path rendering), `strings.Split` (struct tag
    parsing) and decimal rendering of integers (`#<i>` segments and `%v` of
    integers). */
module GoStrings {

  /** Position of the first `c` in `s`, or `|s|` when there is none. */
  function IndexOf(s: string, c: char): (k: nat)
    ensures k <= |s|
    ensures c !in s[..k]
    ensures k < |s| ==> s[k] == c
    ensures k == |s| <==> c !in s
  {
    if |s| == 0 then 0
    else if s[0] == c then 0
    else
      var k := 1 + IndexOf(s[1..], c);
      assert s[..k] == [s[0]] + s[1..][..k - 1];
      k
  }

  /** strings.Join(xs, string(sep)): the pieces with `sep` between neighbours. */
  function Join(xs: seq<string>, sep: char): string
  {
    if |xs| == 0 then ""
    else if |xs| == 1 then xs[0]
    else xs[0] + [sep] + Join(xs[1..], sep)
  }

  /** One piece joins to itself; more pieces start with the first one and the
      separator; with separator-free pieces the separator occurs in the result
      iff there is more than one piece. */
  lemma {:induction false} JoinShape(xs: seq<string>, sep: char)
    ensures |xs| == 1 ==> Join(xs, sep) == xs[0]
    ensures |xs| > 1 ==> |xs[0]| < |Join(xs, sep)| && xs[0] <= Join(xs, sep) && Join(xs, sep)[|xs[0]|] == sep
    ensures (forall i :: 0 <= i < |xs| ==> sep !in xs[i]) ==> (sep in Join(xs, sep) <==> |xs| > 1)
    decreases |xs|
  {
    if |xs| > 1 {
      JoinShape(xs[1..], sep);
      var r := Join(xs, sep);
      assert r == xs[0] + [sep] + Join(xs[1..], sep);
      assert r[|xs[0]|] == sep;
      if forall i :: 0 <= i < |xs| ==> sep !in xs[i] {
        assert sep in r;
      }
    }
  }

  /** strings.Split(s, string(sep)): the pieces of `s` between the separators;
      one piece (`s` itself) when `sep` does not occur, `[""]` for "". */
  function Split(s: string, sep: char): (r: seq<string>)
    ensures |r| >= 1
    ensures |r| > 1 <==> sep in s
    ensures sep !in r[0]
    ensures |r| == 1 ==> r[0] == s
    ensures |r| > 1 ==> |r[0]| < |s| && s[..|r[0]|] == r[0] && s[|r[0]|] == sep
    decreases |s|
  {
    var k := IndexOf(s, sep);
    if k == |s| then [s]
    else [s[..k]] + Split(s[k + 1..], sep)
  }

  /** Joining the pieces of a split gives back the original text. */
  lemma {:induction false} JoinSplit(s: string, sep: char)
    ensures Join(Split(s, sep), sep) == s
    decreases |s|
  {
    var k := IndexOf(s, sep);
    if k < |s| {
      var rest := s[k + 1..];
      var pieces := Split(rest, sep);
      calc {
        Join(Split(s, sep), sep);
        Join([s[..k]] + pieces, sep);
        { JoinCons(s[..k], pieces, sep); }
        s[..k] + [sep] + Join(pieces, sep);
        { JoinSplit(rest, sep); }
        s[..k] + [sep] + rest;
        { SplitAt(s, k); }
        s;
      }
    }
  }

  /** Joining a piece in front of a non-empty list puts one separator between. */
  lemma JoinCons(x: string, xs: seq<string>, sep: char)
    requires |xs| > 0
    ensures Join([x] + xs, sep) == x + [sep] + Join(xs, sep)
  {
    assert ([x] + xs)[1..] == xs;
  }

  /** A string is its prefix, the character at the cut and the rest. */
  lemma SplitAt(s: string, k: nat)
    requires k < |s|
    ensures s == s[..k] + [s[k]] + s[k + 1..]
  {
  }

  /** A non-empty sequence is its head before its tail. */
  lemma HeadTail<T>(xs: seq<T>)
    requires |xs| > 0
    ensures [xs[0]] + xs[1..] == xs
  {
  }

  /** Dropping a one-element head leaves the rest. */
  lemma DropHead<T>(x: seq<T>, y: seq<T>)
    requires |x| == 1
    ensures (x + y)[0] == x[0] && (x + y)[1..] == y
  {
  }

  /** The ends of a three-part concatenation: it starts with the first part
      and its last elements are the third. */
  lemma Ends<T>(x: seq<T>, y: seq<T>, z: seq<T>)
    ensures x <= (x + y) + z
    ensures |z| <= |(x + y) + z| && ((x + y) + z)[|(x + y) + z| - |z|..] == z
  {
    assert ((x + y) + z)[..|x|] == x;
  }

  /** Concatenation is associative. */
  lemma ConcatAssoc<T>(x: seq<T>, y: seq<T>, z: seq<T>)
    ensures (x + y) + z == x + (y + z)
  {
  }

  /** Splitting a join gives back the pieces, provided none contains the separator. */
  lemma {:induction false} SplitJoin(xs: seq<string>, sep: char)
    requires |xs| > 0
    requires forall i :: 0 <= i < |xs| ==> sep !in xs[i]
    ensures Split(Join(xs, sep), sep) == xs
  {
    if |xs| > 1 {
      SplitJoin(xs[1..], sep);
      var j := Join(xs, sep);
      assert j == xs[0] + [sep] + Join(xs[1..], sep);
      var k := IndexOf(j, sep);
      assert j[|xs[0]|] == sep;
      assert j[..|xs[0]|] == xs[0];
      assert k == |xs[0]|;
      assert j[k + 1..] == Join(xs[1..], sep);
      assert Split(j, sep) == [xs[0]] + xs[1..];
      HeadTail(xs);
    } else {
      assert Join(xs, sep) == xs[0];
    }
  }

  /** Every character is a decimal digit. */
  predicate Digits(s: string)
  {
    forall i :: 0 <= i < |s| ==> '0' <= s[i] <= '9'
  }

  /** The decimal digit for `d`. */
  function Digit(d: nat): char
    requires d < 10
  {
    "0123456789"[d]
  }

  /** strconv.Itoa for a natural number: its decimal digits, most significant first. */
  function NatToString(n: nat): (r: string)
    ensures |r| >= 1
    ensures Digits(r)
    ensures n < 10 ==> r == [Digit(n)]
    ensures n >= 10 ==> r[0] != '0'
    decreases n
  {
    if n < 10 then [Digit(n)] else NatToString(n / 10) + [Digit(n % 10)]
  }

  /** strconv.Itoa: a minus sign in front of the digits of a negative number. */
  function IntToString(i: int): string
  {
    if i < 0 then "-" + NatToString(-i) else NatToString(i)
  }

  /** A minus sign in front of digits: the digits follow it unchanged. */
  lemma MinusDigits(d: string)
    requires |d| >= 1 && Digits(d)
    ensures var r := "-" + d; |r| > 1 && r[0] == '-' && r[1..] == d && Digits(r[1..])
  {
    DropHead("-", d);
  }

  /** The rendering of a signed integer reads back as the number: its digits
      alone when it is not negative, after one `-` when it is. */
  lemma IntToStringReads(i: int)
    ensures i >= 0 ==> Digits(IntToString(i)) && ParseNat(IntToString(i)) == i
    ensures i < 0 ==> var r := IntToString(i);
                      |r| > 1 && r[0] == '-' && Digits(r[1..]) && ParseNat(r[1..]) == -i
  {
    if i < 0 {
      ParseNatToString(-i);
      MinusDigits(NatToString(-i));
    } else {
      ParseNatToString(i);
    }
  }

  /** Reads a string of decimal digits back as a number (the partner of NatToString). */
  function ParseNat(s: string): nat
    requires Digits(s)
  {
    if |s| == 0 then 0 else 10 * ParseNat(s[..|s| - 1]) + (s[|s| - 1] as int - '0' as int)
  }

  /** Reading back the decimal rendering gives the number: distinct indices get
      distinct `#<i>` path segments. */
  lemma {:induction false} ParseNatToString(n: nat)
    ensures ParseNat(NatToString(n)) == n
    decreases n
  {
    var r := NatToString(n);
    if n >= 10 {
      ParseNatToString(n / 10);
      assert r[..|r| - 1] == NatToString(n / 10);
    }
  }
}
