/** String helpers shared by the news client model: prefix and suffix tests,
    character counting, and the `sep.join` / `s.split(sep)` pair that is
    used to state how query strings are laid out. */
module Strings {

  /** `s.startswith(c)` for a one-character argument. */
  predicate StartsWith(s: string, c: char) {
    |s| > 0 && s[0] == c
  }

  /** `s.endswith(c)` for a one-character argument. */
  predicate EndsWith(s: string, c: char) {
    |s| > 0 && s[|s| - 1] == c
  }

  predicate IsPrefix(p: string, s: string) {
    |p| <= |s| && s[..|p|] == p
  }

  predicate IsSuffix(p: string, s: string) {
    |p| <= |s| && s[|s| - |p|..] == p
  }

  /** Concatenation regroups freely; stated once so that proofs can use it
      on terms the solver would otherwise compare element by element. */
  lemma Regroup(a: string, b: string, c: string)
    ensures (a + b) + c == a + (b + c)
  {
  }

  /** The number of occurrences of `c` in `s` (`s.count(c)`). */
  function Count(s: string, c: char): nat {
    if s == [] then 0
    else Count(s[..|s| - 1], c) + (if s[|s| - 1] == c then 1 else 0)
  }

  lemma {:induction false} CountAppend(a: string, b: string, c: char)
    ensures Count(a + b, c) == Count(a, c) + Count(b, c)
  {
    if b != [] {
      assert (a + b)[..|a + b| - 1] == a + b[..|b| - 1];
      CountAppend(a, b[..|b| - 1], c);
    } else {
      assert a + b == a;
    }
  }

  lemma {:induction false} CountZero(s: string, c: char)
    ensures Count(s, c) == 0 <==> c !in s
  {
    if s != [] {
      CountZero(s[..|s| - 1], c);
      assert s == s[..|s| - 1] + [s[|s| - 1]];
    }
  }

  /** `sep.join(items)`: the items in order, with one `sep` between
      neighbours and none at either end. */
  function JoinWith(sep: char, items: seq<string>): string {
    if items == [] then ""
    else if |items| == 1 then items[0]
    else items[0] + [sep] + JoinWith(sep, items[1..])
  }

  /** `s.split(sep)`: the maximal `sep`-free pieces of `s`, in order; the
      empty string splits into one empty piece. */
  function Split(sep: char, s: string): (r: seq<string>)
    ensures |r| >= 1
  {
    if s == [] then [""]
    else
      var rest := Split(sep, s[1..]);
      if s[0] == sep then [""] + rest
      else [[s[0]] + rest[0]] + rest[1..]
  }

  /** A `sep`-free head merges into the first piece of whatever follows it. */
  lemma {:induction false} SplitFreeHead(sep: char, x: string, tail: string)
    requires sep !in x
    ensures Split(sep, x + tail) == [x + Split(sep, tail)[0]] + Split(sep, tail)[1..]
  {
    if x != [] {
      assert (x + tail)[1..] == x[1..] + tail;
      SplitFreeHead(sep, x[1..], tail);
      assert [x[0]] + (x[1..] + Split(sep, tail)[0]) == x + Split(sep, tail)[0];
    } else {
      var r := Split(sep, tail);
      assert x + tail == tail && x + r[0] == r[0];
      assert r == [r[0]] + r[1..];
    }
  }

  /** Splitting undoes joining when no item contains the separator. */
  lemma {:induction false} SplitJoin(sep: char, items: seq<string>)
    requires |items| >= 1
    requires forall i :: 0 <= i < |items| ==> sep !in items[i]
    ensures Split(sep, JoinWith(sep, items)) == items
  {
    if |items| == 1 {
      SplitFreeHead(sep, items[0], "");
      assert items[0] + "" == items[0];
    } else {
      var rest := JoinWith(sep, items[1..]);
      SplitJoin(sep, items[1..]);
      assert items[0] + [sep] + rest == items[0] + ([sep] + rest);
      SplitFreeHead(sep, items[0], [sep] + rest);
      assert ([sep] + rest)[1..] == rest;
      assert Split(sep, [sep] + rest) == [""] + items[1..];
      assert items[0] + "" == items[0];
      assert items == [items[0]] + items[1..];
    }
  }

  /** A join of `n >= 1` separator-free items holds exactly `n - 1` separators. */
  lemma {:induction false} JoinWithCount(sep: char, items: seq<string>)
    requires |items| >= 1
    requires forall i :: 0 <= i < |items| ==> sep !in items[i]
    ensures Count(JoinWith(sep, items), sep) == |items| - 1
  {
    CountZero(items[0], sep);
    if |items| > 1 {
      JoinWithCount(sep, items[1..]);
      CountAppend(items[0] + [sep], JoinWith(sep, items[1..]), sep);
      CountAppend(items[0], [sep], sep);
      assert [sep][..0] == [];
    }
  }

  /** A character other than the separator occurs in the join only if it
      occurs in some item. */
  lemma {:induction false} JoinWithFree(c: char, sep: char, items: seq<string>)
    requires c != sep
    requires forall i :: 0 <= i < |items| ==> c !in items[i]
    ensures c !in JoinWith(sep, items)
  {
    if |items| > 1 {
      JoinWithFree(c, sep, items[1..]);
      var rest := JoinWith(sep, items[1..]);
      assert forall k :: 0 <= k < |items[0] + [sep] + rest| ==>
        (items[0] + [sep] + rest)[k] in items[0] || (items[0] + [sep] + rest)[k] == sep ||
        (items[0] + [sep] + rest)[k] in rest;
    }
  }
}
