/** The PHP string built-ins the calculator relies on: `empty`, `explode`,
    `implode` and `str_pad`. Strings are sequences of characters; `strlen`
    is the length of the sequence. */
module PhpStrings {
  import opened Positional

  /** `empty($s)` for a string: true for "" and for "0", false otherwise,
      that is for the strings of at most one character made only of '0'. */
  predicate IsPhpEmpty(s: string)
    ensures IsPhpEmpty(s) <==> |s| <= 1 && (|s| == 1 ==> s[0] == '0')
  {
    s == "" || s == "0"
  }

  /** Number of occurrences of `d` in `s`. */
  function Count(s: string, d: char): nat {
    if |s| == 0 then 0 else (if s[0] == d then 1 else 0) + Count(s[1..], d)
  }

  lemma {:induction false} CountConcat(s: string, t: string, d: char)
    ensures Count(s + t, d) == Count(s, d) + Count(t, d)
  {
    if s != [] {
      CountConcat(s[1..], t, d);
      assert (s + t)[1..] == s[1..] + t;
    } else {
      assert s + t == t;
    }
  }

  lemma {:induction false} CountAbsent(s: string, d: char)
    requires d !in s
    ensures Count(s, d) == 0
  {
    if s != [] {
      CountAbsent(s[1..], d);
    }
  }

  /** `implode($d, $parts)`: the parts separated by `d`. */
  function Join(parts: seq<string>, d: char): string {
    if |parts| == 0 then ""
    else if |parts| == 1 then parts[0]
    else parts[0] + [d] + Join(parts[1..], d)
  }

  /** Joining parts that do not hold `d` puts exactly one `d` between each
      two of them. */
  lemma {:induction false} JoinCount(parts: seq<string>, d: char)
    requires |parts| >= 1 && forall i :: 0 <= i < |parts| ==> d !in parts[i]
    ensures Count(Join(parts, d), d) + 1 == |parts|
  {
    CountAbsent(parts[0], d);
    if |parts| >= 2 {
      JoinCount(parts[1..], d);
      CountConcat(parts[0] + [d], Join(parts[1..], d), d);
      CountConcat(parts[0], [d], d);
    }
  }

  /** `explode($d, $s)`: the maximal pieces of `s` between occurrences of `d`.
      There is always one piece more than there are separators, and joining
      the pieces gives `s` back. */
  function Split(s: string, d: char): (parts: seq<string>)
    ensures |parts| == Count(s, d) + 1
    ensures forall i :: 0 <= i < |parts| ==> d !in parts[i]
    ensures Join(parts, d) == s
  {
    if |s| == 0 then [""]
    else
      var rest := Split(s[1..], d);
      if s[0] == d then
        assert Join([""] + rest, d) == [d] + Join(rest, d) by {
          assert ([""] + rest)[1..] == rest;
        }
        [""] + rest
      else
        var head := [s[0]] + rest[0];
        assert Join([head] + rest[1..], d) == [s[0]] + Join(rest, d) by {
          assert ([head] + rest[1..])[1..] == rest[1..];
        }
        [head] + rest[1..]
  }

  /** Splitting at a separator that follows a separator-free piece. */
  lemma {:induction false} SplitAfterPiece(x: string, y: string, d: char)
    requires d !in x
    ensures Split(x + [d] + y, d) == [x] + Split(y, d)
  {
    if x == [] {
      assert x + [d] + y == [d] + y;
      assert ([d] + y)[1..] == y;
    } else {
      SplitAfterPiece(x[1..], y, d);
      assert (x + [d] + y)[1..] == x[1..] + [d] + y;
      assert [x[0]] + x[1..] == x;
    }
  }

  /** A string without separator is one piece. */
  lemma {:induction false} SplitWhole(x: string, d: char)
    requires d !in x
    ensures Split(x, d) == [x]
  {
    if x != [] {
      SplitWhole(x[1..], d);
      assert [x[0]] + x[1..] == x;
    }
  }

  /** `explode` undoes `implode` when no part contains the separator. */
  lemma {:induction false} SplitJoin(parts: seq<string>, d: char)
    requires |parts| >= 1
    requires forall i :: 0 <= i < |parts| ==> d !in parts[i]
    ensures Split(Join(parts, d), d) == parts
  {
    if |parts| == 1 {
      SplitWhole(parts[0], d);
    } else {
      SplitJoin(parts[1..], d);
      SplitAfterPiece(parts[0], Join(parts[1..], d), d);
      assert [parts[0]] + parts[1..] == parts;
    }
  }

  /** A separator between two strings splits them apart. */
  lemma {:induction false} SplitAtSeparator(x: string, y: string, d: char)
    ensures Split(x + [d] + y, d) == Split(x, d) + Split(y, d)
  {
    if x == [] {
      SplitCons(d, y, d);
      assert x + [d] + y == [d] + y;
    } else {
      var c, xs := x[0], x[1..];
      assert x + [d] + y == [c] + (xs + [d] + y);
      assert x == [c] + xs;
      SplitAtSeparator(xs, y, d);
      SplitConsConcat(c, xs + [d] + y, Split(xs, d), Split(y, d), d);
      SplitCons(c, xs, d);
    }
  }

  lemma SplitConsConcat(c: char, s: string, a: seq<string>, b: seq<string>, d: char)
    requires Split(s, d) == a + b && |a| >= 1
    ensures Split([c] + s, d)
      == if c == d then [""] + a + b else [[c] + a[0]] + a[1..] + b
  {
    SplitCons(c, s, d);
    assert (a + b)[0] == a[0] && (a + b)[1..] == a[1..] + b;
  }

  /** One step of `Split` at the front of a string. */
  lemma SplitCons(c: char, s: string, d: char)
    ensures Split([c] + s, d)
      == if c == d then [""] + Split(s, d) else [[c] + Split(s, d)[0]] + Split(s, d)[1..]
  {
    assert ([c] + s)[1..] == s;
  }

  /** `str_pad($s, $n, $c, STR_PAD_LEFT)`: nothing happens when `s` is long enough. */
  function PadLeft(s: string, n: nat, c: char): (r: string)
    ensures |r| == if |s| >= n then |s| else n
  {
    if |s| >= n then s else Repeat(c, n - |s|) + s
  }

  /** `str_pad($s, $n, $c, STR_PAD_RIGHT)`. */
  function PadRight(s: string, n: nat, c: char): (r: string)
    ensures |r| == if |s| >= n then |s| else n
  {
    if |s| >= n then s else s + Repeat(c, n - |s|)
  }
}
