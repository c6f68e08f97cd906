/**
 * The two .NET string operations the core relies on: `string.Join` with a
 * separator and `string.Split` on one character.
 */
module Strings {

  /** `string.Join(sep, parts)`: the parts with `sep` between neighbours, none before the first or after the last. */
  function Join(parts: seq<string>, sep: string): string
  {
    if |parts| == 0 then ""
    else if |parts| == 1 then parts[0]
    else parts[0] + sep + Join(parts[1..], sep)
  }

  /** Position of the first `c` in `s`. */
  function IndexOf(s: string, c: char): (i: nat)
    requires c in s
    ensures i < |s| && s[i] == c && c !in s[..i]
  {
    if s[0] == c then 0 else 1 + IndexOf(s[1..], c)
  }

  /** `s.Split(c)`: every run between two occurrences of `c`, empty runs included. */
  function Split(s: string, c: char): (r: seq<string>)
    ensures |r| >= 1
    decreases |s|
  {
    if c !in s then [s]
    else
      var i := IndexOf(s, c);
      [s[..i]] + Split(s[i + 1..], c)
  }

  /** The first occurrence of `c` in `a + [c] + b` is the one right after `a` when `a` has none. */
  lemma {:induction false} IndexOfAfterPrefix(a: string, c: char, b: string)
    requires c !in a
    ensures c in a + [c] + b && IndexOf(a + [c] + b, c) == |a|
  {
    var s := a + [c] + b;
    assert s[|a|] == c;
  }

  /** Joining pieces that do not contain `c` with `c` and splitting on `c` gives the pieces back. */
  lemma {:induction false} SplitJoin(parts: seq<string>, c: char)
    requires |parts| >= 1
    requires forall k :: 0 <= k < |parts| ==> c !in parts[k]
    ensures Split(Join(parts, [c]), c) == parts
  {
    if |parts| > 1 {
      var rest := Join(parts[1..], [c]);
      IndexOfAfterPrefix(parts[0], c, rest);
      var s := parts[0] + [c] + rest;
      assert s[..|parts[0]|] == parts[0];
      assert s[|parts[0]| + 1..] == rest;
      SplitJoin(parts[1..], c);
    }
  }

  /** A string that ends with the separator has an empty piece: the one after that separator. */
  lemma {:induction false} SplitTrailing(s: string, c: char)
    ensures "" in Split(s + [c], c)
    decreases |s|
  {
    var t := s + [c];
    if c !in s {
      assert t[..|s|] == s && t[|s| + 1..] == "";
      SplitAt(t, c, |s|);
      assert Split("", c) == [""];
    } else {
      var i := IndexOf(s, c);
      assert t[..i] == s[..i] && t[i + 1..] == s[i + 1..] + [c];
      SplitAt(t, c, i);
      SplitTrailing(s[i + 1..], c);
    }
  }

  /** A `c` with none before it is the one `IndexOf` finds. */
  lemma {:induction false} IndexOfFirst(s: string, c: char, i: nat)
    requires i < |s| && s[i] == c && c !in s[..i]
    ensures IndexOf(s, c) == i
  {
    if i > 0 {
      assert s[..i][0] == s[0];
      assert s[1..][..i - 1] == s[..i][1..];
      IndexOfFirst(s[1..], c, i - 1);
    }
  }

  /** When the first `c` of `s` is at `i`, the first piece is `s[..i]` and the rest is split after it. */
  lemma {:induction false} SplitAt(s: string, c: char, i: nat)
    requires i < |s| && s[i] == c && c !in s[..i]
    ensures Split(s, c) == [s[..i]] + Split(s[i + 1..], c)
  {
    IndexOfFirst(s, c, i);
  }

  /** Two separators in a row produce an empty piece. */
  lemma {:induction false} SplitDouble(a: string, c: char, b: string)
    ensures "" in Split(a + [c, c] + b, c)
    decreases |a|
  {
    var t := a + [c, c] + b;
    if c !in a {
      assert t[..|a|] == a && t[|a| + 1..] == [c] + b;
      SplitAt(t, c, |a|);
      var r := [c] + b;
      assert r[..0] == "" && r[1..] == b;
      SplitAt(r, c, 0);
    } else {
      var i := IndexOf(a, c);
      assert t[..i] == a[..i] && t[i + 1..] == a[i + 1..] + [c, c] + b;
      SplitAt(t, c, i);
      SplitDouble(a[i + 1..], c, b);
    }
  }
}
