/**
 * The command layer's two helpers: reading a dot-separated list of broadcast
 * ids (`GetIntArguments`) and printing a list for a reply (`GetStringFromArray`),
 * together with the pieces of .NET they stand on: `int.TryParse` and
 * `int.ToString`.
 */
module CommandUtilities {
  import opened NetTypes
  import opened Optional
  import opened Strings

  // ---------------------------------------------------------------------------
  // int.TryParse (NumberStyles.Integer, invariant culture)
  // ---------------------------------------------------------------------------

  /** The white space .NET's number parser skips: U+0009 to U+000D and the space. */
  predicate IsWhite(c: char) { c == ' ' || '\t' <= c <= '\r' }

  predicate IsDigit(c: char) { '0' <= c <= '9' }

  predicate AllDigits(s: string) { forall k :: 0 <= k < |s| ==> IsDigit(s[k]) }

  function TrimStart(s: string): (r: string)
    ensures |r| == 0 || !IsWhite(r[0])
    decreases |s|
  {
    if |s| > 0 && IsWhite(s[0]) then TrimStart(s[1..]) else s
  }

  function TrimEnd(s: string): (r: string)
    ensures |r| == 0 || !IsWhite(r[|r| - 1])
    decreases |s|
  {
    if |s| > 0 && IsWhite(s[|s| - 1]) then TrimEnd(s[..|s| - 1]) else s
  }

  /**
   * After the number and its trailing white space, .NET's parser also accepts
   * a run of `'\0'` characters up to the end of the text (`TrailingZeros`).
   */
  function TrimNuls(s: string): (r: string)
    ensures |r| == 0 || r[|r| - 1] != '\0'
    decreases |s|
  {
    if |s| > 0 && s[|s| - 1] == '\0' then TrimNuls(s[..|s| - 1]) else s
  }

  /** Stripping the trailing `'\0'`s keeps a prefix and drops nothing else. */
  lemma {:induction false} TrimNulsPrefix(s: string)
    ensures TrimNuls(s) <= s && forall k :: |TrimNuls(s)| <= k < |s| ==> s[k] == '\0'
    decreases |s|
  {
    if |s| > 0 && s[|s| - 1] == '\0' {
      TrimNulsPrefix(s[..|s| - 1]);
    }
  }

  /** The value of a run of decimal digits, read most significant first. */
  function DigitsValue(s: string): nat
    requires AllDigits(s)
  {
    if |s| == 0 then 0 else 10 * DigitsValue(s[..|s| - 1]) + (s[|s| - 1] - '0') as int
  }

  /**
   * `int.TryParse(s, out v)`: optional white space around an optional `+` or `-`
   * followed by at least one decimal digit, whose value must fit in an `int`,
   * and then nothing but `'\0'` characters.
   */
  function TryParse(s: string): Option<Int32>
  {
    ParseTrimmed(TrimEnd(TrimStart(TrimNuls(s))))
  }

  /** The number itself, once the white space and the trailing `'\0'`s are gone. */
  function ParseTrimmed(t: string): Option<Int32>
  {
    var negative := |t| > 0 && t[0] == '-';
    var digits := if |t| > 0 && (t[0] == '-' || t[0] == '+') then t[1..] else t;
    if |digits| == 0 || !AllDigits(digits) then None
    else
      var v: int := if negative then 0 - DigitsValue(digits) else DigitsValue(digits);
      if INT_MIN <= v <= INT_MAX then Some(v) else None
  }


  // ---------------------------------------------------------------------------
  // int.ToString
  // ---------------------------------------------------------------------------

  function DigitChar(d: nat): char
    requires d < 10
  {
    ('0' as int + d) as char
  }

  function NatToString(n: nat): string
  {
    if n < 10 then [DigitChar(n)] else NatToString(n / 10) + [DigitChar(n % 10)]
  }

  /** `x.ToString()`: shortest decimal form, `-` in front of a negative value. */
  function IntToString(x: int): string
  {
    if x < 0 then "-" + NatToString(-x) else NatToString(x)
  }

  lemma {:induction false} NatToStringDigits(n: nat)
    ensures |NatToString(n)| >= 1
    ensures AllDigits(NatToString(n))
    ensures DigitsValue(NatToString(n)) == n
  {
    if n >= 10 {
      NatToStringDigits(n / 10);
      var s := NatToString(n);
      assert s[..|s| - 1] == NatToString(n / 10);
    }
  }

  lemma {:induction false} TrimNothing(s: string)
    requires |s| >= 1 && !IsWhite(s[0]) && !IsWhite(s[|s| - 1])
    ensures TrimEnd(TrimStart(s)) == s
  {
  }

  /** What `ToString` prints, `TryParse` reads back: the two are inverse on every `int`. */
  lemma {:induction false} ParseToString(x: Int32)
    ensures TryParse(IntToString(x)) == Some(x)
  {
    if x < 0 {
      ParseNegative(x);
    } else {
      ParseNonNegative(x);
    }
  }

  lemma {:induction false} ParseNonNegative(x: Int32)
    requires 0 <= x
    ensures TryParse(IntToString(x)) == Some(x)
  {
    NatToStringDigits(x);
    var s := NatToString(x);
    assert IsDigit(s[0]) && IsDigit(s[|s| - 1]);
    assert TrimNuls(s) == s;
    TrimNothing(s);
    assert s[0] != '-' && s[0] != '+';
  }

  lemma {:induction false} ParseNegative(x: Int32)
    requires x < 0
    ensures TryParse(IntToString(x)) == Some(x)
  {
    var m: nat := 0 - x as int;
    NatToStringDigits(m);
    var d := NatToString(m);
    var s := "-" + d;
    assert s == IntToString(x);
    assert IsDigit(d[|d| - 1]) && s[|s| - 1] == d[|d| - 1];
    assert TrimNuls(s) == s;
    TrimNothing(s);
    assert s[0] == '-' && s[1..] == d;
    assert 0 - DigitsValue(d) == x;
  }

  /** Leading white space does not change what `TryParse` reads. */
  lemma {:induction false} ParseSkipsLeadingWhite(w: string, s: string)
    requires forall k :: 0 <= k < |w| ==> IsWhite(w[k])
    ensures TryParse(w + s) == TryParse(s)
  {
    NulsAfterWhite(w, s);
    assert TrimStart(w + TrimNuls(s)) == TrimStart(TrimNuls(s)) by {
      TrimStartWhite(w, TrimNuls(s));
    }
  }

  /** Trailing `'\0'`s are stripped from the text after a white prefix, never from the prefix. */
  lemma {:induction false} NulsAfterWhite(w: string, s: string)
    requires forall k :: 0 <= k < |w| ==> IsWhite(w[k])
    ensures TrimNuls(w + s) == w + TrimNuls(s)
    decreases |s|
  {
    if |s| > 0 && s[|s| - 1] == '\0' {
      assert (w + s)[..|w + s| - 1] == w + s[..|s| - 1];
      NulsAfterWhite(w, s[..|s| - 1]);
    } else if |s| == 0 {
      assert w + s == w;
      if |w| > 0 {
        assert IsWhite(w[|w| - 1]);
      }
    }
  }

  /** .NET reads `"1\0"` as 1: a `'\0'` may follow the digits. */
  lemma {:induction false} TrailingNul()
    ensures TryParse("1\0") == Some(1)
  {
    assert TrimNuls("1\0") == "1" by {
      assert "1\0"[..1] == "1";
    }
  }

  /** `'\0'`s may also follow the trailing white space. */
  lemma {:induction false} NulsAfterTrailingWhite()
    ensures TryParse("12 \0\0") == Some(12)
  {
    assert TrimNuls("12 \0\0") == "12 " by {
      assert "12 \0\0"[..4] == "12 \0";
      assert "12 \0"[..3] == "12 ";
    }
    assert TrimEnd("12 ") == "12" by {
      assert "12 "[..2] == "12";
    }
    assert TrimStart("12") == "12";
    assert "12"[..1] == "1" && "1"[..0] == "";
    assert DigitsValue("12") == 12;
    assert ParseTrimmed("12") == Some(12);
  }

  /** Nothing but `'\0'`s may come after them, and the digits are still needed. */
  lemma {:induction false} WhiteAfterNulFails()
    ensures TryParse("1\0 ") == None
    ensures TryParse("\0") == None
  {
    assert TrimNuls("\0") == "" by {
      assert "\0"[..0] == "";
    }
    assert TrimEnd("1\0 ") == "1\0" by {
      assert "1\0 "[..2] == "1\0";
    }
  }


  lemma {:induction false} TrimStartWhite(w: string, s: string)
    requires forall k :: 0 <= k < |w| ==> IsWhite(w[k])
    ensures TrimStart(w + s) == TrimStart(s)
    decreases |w|
  {
    if |w| > 0 {
      assert (w + s)[0] == w[0];
      assert (w + s)[1..] == w[1..] + s;
      assert TrimStart(w + s) == TrimStart(w[1..] + s);
      TrimStartWhite(w[1..], s);
    } else {
      assert w + s == s;
    }
  }

  // ---------------------------------------------------------------------------
  // GetIntArguments
  // ---------------------------------------------------------------------------

  /** Parses every token, failing as a whole on the first one `TryParse` rejects. */
  function ParseTokens(tokens: seq<string>): (r: Option<seq<Int32>>)
    ensures r.Some? <==> forall k :: 0 <= k < |tokens| ==> TryParse(tokens[k]).Some?
    ensures r.Some? ==> |r.value| == |tokens|
    ensures r.Some? ==> forall k :: 0 <= k < |tokens| ==> Some(r.value[k]) == TryParse(tokens[k])
  {
    if |tokens| == 0 then Some([])
    else
      match TryParse(tokens[0])
      case None => None
      case Some(v) =>
        match ParseTokens(tokens[1..])
        case None => None
        case Some(vs) => Some([v] + vs)
  }

  /** The ids named by a command argument: the text split on `'.'` only, every piece an `int`. */
  function ParseIdList(text: string): Option<seq<Int32>>
  {
    ParseTokens(Split(text, '.'))
  }

  /** `int.Parse` on a string `TryParse` accepts. */
  function Parse(s: string): Int32
    requires TryParse(s).Some?
  {
    TryParse(s).value
  }

  /**
   * `GetIntArguments(text, out args)`: splits on `'.'`, rewrites each piece in
   * place as the canonical form of its value, and stops with `false` and an
   * empty `args` at the first piece that is not an `int`.
   */
  method GetIntArguments(text: string) returns (ok: bool, args: seq<Int32>)
    ensures ok <==> ParseIdList(text).Some?
    ensures ok ==> args == ParseIdList(text).value
    ensures !ok ==> args == []
  {
    var tokens := Split(text, '.');
    var arg := new string[|tokens|](k requires 0 <= k < |tokens| => tokens[k]);
    ghost var values;
    ok, values := Canonicalize(arg);
    if !ok {
      args := [];
      return;
    }
    forall k | 0 <= k < arg.Length ensures TryParse(arg[k]) == Some(values[k]) {
      ParseToString(values[k]);
    }
    args := ParseAll(arg[..]);
    ParseTokensAll(tokens, values);
    assert forall k :: 0 <= k < |args| ==> args[k] == values[k];
    assert args == values;
  }

  /**
   * The first loop of `GetIntArguments`: each piece in turn is parsed and
   * overwritten by the decimal form of its value; the loop stops at the first
   * piece that does not parse.
   */
  method Canonicalize(arg: array<string>) returns (ok: bool, ghost values: seq<Int32>)
    modifies arg
    ensures ok ==> |values| == arg.Length
    ensures ok ==> forall k :: 0 <= k < arg.Length ==> TryParse(old(arg[k])) == Some(values[k])
    ensures ok ==> forall k {:trigger arg[k]} :: 0 <= k < arg.Length ==> arg[k] == IntToString(values[k])
    ensures !ok <==> exists k :: 0 <= k < arg.Length && TryParse(old(arg[k])).None?
  {
    ghost var pieces := arg[..];
    values := [];
    for i := 0 to arg.Length
      invariant |values| == i
      invariant forall k :: 0 <= k < i ==> TryParse(pieces[k]) == Some(values[k])
      invariant forall k {:trigger arg[k]} :: 0 <= k < i ==> arg[k] == IntToString(values[k])
      invariant forall k :: i <= k < arg.Length ==> arg[k] == pieces[k]
    {
      var result := TryParse(arg[i]);
      if result.None? {
        assert TryParse(pieces[i]).None?;
        return false, values;
      }
      arg[i] := IntToString(result.value);
      values := values + [result.value];
    }
    ok := true;
  }

  /** `pieces.Select(int.Parse)` on pieces that all parse. */
  method ParseAll(pieces: seq<string>) returns (vs: seq<Int32>)
    requires forall k :: 0 <= k < |pieces| ==> TryParse(pieces[k]).Some?
    ensures |vs| == |pieces|
    ensures forall k :: 0 <= k < |pieces| ==> Some(vs[k]) == TryParse(pieces[k])
  {
    vs := [];
    for i := 0 to |pieces|
      invariant |vs| == i
      invariant forall k :: 0 <= k < i ==> Some(vs[k]) == TryParse(pieces[k])
    {
      vs := vs + [Parse(pieces[i])];
    }
  }

  /** When every token parses, the list parses to exactly those values. */
  lemma {:induction false} ParseTokensAll(tokens: seq<string>, values: seq<Int32>)
    requires |values| == |tokens|
    requires forall k :: 0 <= k < |tokens| ==> TryParse(tokens[k]) == Some(values[k])
    ensures ParseTokens(tokens) == Some(values)
  {
    var r := ParseTokens(tokens);
    assert r.Some?;
    assert |r.value| == |values|;
    assert forall k :: 0 <= k < |tokens| ==> r.value[k] == values[k];
    assert r.value == values;
  }

  /** Decimal forms of the elements, in order. */
  function IntStrings(xs: seq<int>): (r: seq<string>)
    ensures |r| == |xs| && forall k :: 0 <= k < |xs| ==> r[k] == IntToString(xs[k])
  {
    if |xs| == 0 then [] else [IntToString(xs[0])] + IntStrings(xs[1..])
  }

  /** Printing with `'.'` and reading back gives every non-empty id list. */
  lemma {:induction false} ParseIdListRoundTrip(xs: seq<Int32>)
    requires |xs| >= 1
    ensures ParseIdList(Join(IntStrings(xs), ".")) == Some(xs)
  {
    var parts := IntStrings(xs);
    forall k | 0 <= k < |parts| ensures '.' !in parts[k] && TryParse(parts[k]) == Some(xs[k]) {
      NoSeparatorInNumber(xs[k]);
      ParseToString(xs[k]);
    }
    SplitJoin(parts, '.');
    assert Split(Join(parts, "."), '.') == parts;
    var r := ParseTokens(parts);
    assert r.Some?;
    assert |r.value| == |xs|;
    assert forall k :: 0 <= k < |xs| ==> r.value[k] == xs[k];
    assert r.value == xs;
  }

  lemma {:induction false} NoSeparatorInNumber(x: int)
    ensures '.' !in IntToString(x) && ',' !in IntToString(x)
  {
    var m: nat := if x < 0 then -x else x;
    NatToStringDigits(m);
    var s := IntToString(x);
    if x < 0 {
      assert s[1..] == NatToString(m);
      assert forall k :: 1 <= k < |s| ==> s[k] == NatToString(m)[k - 1];
    }
  }

  /** An empty piece never parses, so an empty text, `..` or a trailing `.` fails the whole list. */
  lemma {:induction false} EmptyTokenFails(text: string)
    requires "" in Split(text, '.')
    ensures ParseIdList(text) == None
  {
    assert TryParse("") == None;
  }

  lemma {:induction false} EmptyTextFails()
    ensures ParseIdList("") == None
  {
    assert Split("", '.') == [""];
  }

  lemma {:induction false} TrailingDotFails(s: string)
    ensures ParseIdList(s + ".") == None
  {
    SplitTrailing(s, '.');
    EmptyTokenFails(s + ".");
  }

  lemma {:induction false} DoubleDotFails(a: string, b: string)
    ensures ParseIdList(a + ".." + b) == None
  {
    assert a + ".." + b == a + ['.', '.'] + b;
    SplitDouble(a, '.', b);
    EmptyTokenFails(a + ".." + b);
  }

  // ---------------------------------------------------------------------------
  // GetStringFromArray
  // ---------------------------------------------------------------------------

  /** `GetStringFromArray(array)` for the `int` arrays the commands print: `string.Join(", ", array)`. */
  function GetStringFromArray(items: seq<int>): (r: string)
    ensures r == "" <==> |items| == 0
  {
    var parts := IntStrings(items);
    if |items| == 0 then Join(parts, ", ")
    else
      var x := items[0];
      NatToStringDigits(if x < 0 then -x else x);
      assert |parts[0]| >= 1;
      assert |Join(parts, ", ")| >= |parts[0]|;
      Join(parts, ", ")
  }

  function PrefixSpaces(parts: seq<string>): (r: seq<string>)
    ensures |r| == |parts| && forall k :: 0 <= k < |parts| ==> r[k] == " " + parts[k]
  {
    if |parts| == 0 then [] else [" " + parts[0]] + PrefixSpaces(parts[1..])
  }

  /** Joining with `", "` is joining with `","` after giving every part but the first a leading space. */
  lemma {:induction false} JoinCommaSpace(parts: seq<string>)
    requires |parts| >= 1
    ensures Join(parts, ", ") == Join([parts[0]] + PrefixSpaces(parts[1..]), ",")
  {
    if |parts| > 1 {
      var tail := parts[1..];
      JoinCommaSpace(tail);
      var q := [tail[0]] + PrefixSpaces(tail[1..]);
      assert Join(tail, ", ") == Join(q, ",");
      var whole := [parts[0]] + PrefixSpaces(tail);
      assert whole[1..] == [" " + tail[0]] + PrefixSpaces(tail[1..]);
      JoinSpaceFirst(tail[0], PrefixSpaces(tail[1..]));
    }
  }

  lemma {:induction false} JoinSpaceFirst(p: string, rest: seq<string>)
    ensures Join([" " + p] + rest, ",") == " " + Join([p] + rest, ",")
  {
    if |rest| > 0 {
      assert ([" " + p] + rest)[1..] == rest;
      assert ([p] + rest)[1..] == rest;
    }
  }

  /**
   * The printed list can be read back by splitting on `','` and parsing each
   * piece (the space after each comma is white space `TryParse` skips).
   */
  lemma {:induction false} PrintedListSplitsOnComma(xs: seq<Int32>)
    requires |xs| >= 1
    ensures ParseTokens(Split(GetStringFromArray(xs), ',')) == Some(xs)
  {
    var parts := IntStrings(xs);
    JoinCommaSpace(parts);
    var spaced := [parts[0]] + PrefixSpaces(parts[1..]);
    forall k | 0 <= k < |spaced| ensures ',' !in spaced[k] && TryParse(spaced[k]) == Some(xs[k]) {
      NoSeparatorInNumber(xs[k]);
      ParseToString(xs[k]);
      if k > 0 {
        ParseSkipsLeadingWhite(" ", parts[k]);
      }
    }
    SplitJoin(spaced, ',');
    assert Split(GetStringFromArray(xs), ',') == spaced;
    var r := ParseTokens(spaced);
    assert r.Some?;
    assert |r.value| == |xs|;
    assert forall k :: 0 <= k < |xs| ==> r.value[k] == xs[k];
    assert r.value == xs;
  }

  /** ... but not by `GetIntArguments`, which splits on `'.'` only: a printed list of two ids is rejected. */
  lemma {:induction false} PrintedListNotReparsable(x: Int32, y: Int32)
    ensures ParseIdList(GetStringFromArray([x, y])) == None
  {
    var s := GetStringFromArray([x, y]);
    NoSeparatorInNumber(x);
    NoSeparatorInNumber(y);
    var parts := IntStrings([x, y]);
    assert parts == [IntToString(x), IntToString(y)];
    assert parts[1..] == [IntToString(y)];
    assert Join(parts[1..], ", ") == IntToString(y);
    assert s == IntToString(x) + ", " + IntToString(y);
    assert '.' !in s;
    assert Split(s, '.') == [s];
    assert s[|IntToString(x)|] == ',';
    CommaNeverParses(s);
  }

  /** A comma survives trimming and is no digit, so no string holding one parses. */
  lemma {:induction false} CommaNeverParses(s: string)
    requires ',' in s
    ensures TryParse(s) == None
  {
    assert ',' in TrimNuls(s) by {
      TrimNulsPrefix(s);
      var k :| 0 <= k < |s| && s[k] == ',';
      assert k < |TrimNuls(s)| && TrimNuls(s)[k] == ',';
    }
    TrimKeepsNonWhite(TrimNuls(s), ',');
  }

  lemma {:induction false} TrimKeepsNonWhite(s: string, c: char)
    requires c in s && !IsWhite(c)
    ensures c in TrimStart(s) && c in TrimEnd(TrimStart(s))
    decreases |s|
  {
    if |s| > 0 && IsWhite(s[0]) {
      TrimKeepsNonWhite(s[1..], c);
    } else {
      TrimEndKeepsNonWhite(s, c);
    }
  }

  lemma {:induction false} TrimEndKeepsNonWhite(s: string, c: char)
    requires c in s && !IsWhite(c)
    ensures c in TrimEnd(s)
    decreases |s|
  {
    if |s| > 0 && IsWhite(s[|s| - 1]) {
      assert c in s[..|s| - 1];
      TrimEndKeepsNonWhite(s[..|s| - 1], c);
    }
  }
}
