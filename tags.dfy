/**
 * `BroadcastUtilities.AutoCloseTags`: appends a closing tag for every opening
 * tag the pattern `<(\w+)(?:=[^>]*)?>` finds, last opened first closed.
 * The regular expression is modelled as a hand-written matcher for that one
 * pattern, with `Regex.Matches`' left-to-right, non-overlapping search.
 */
module BroadcastUtilities {
  import opened Optional

  /** `\w`, restricted to ASCII: letters, digits and the underscore. */
  predicate IsWordChar(c: char)
  {
    'a' <= c <= 'z' || 'A' <= c <= 'Z' || '0' <= c <= '9' || c == '_'
  }

  /** End of the longest run of word characters starting at `i` (what greedy `\w+` consumes). */
  function WordEnd(s: string, i: nat): (j: nat)
    requires i <= |s|
    ensures i <= j <= |s|
    ensures forall k :: i <= k < j ==> IsWordChar(s[k])
    ensures j == |s| || !IsWordChar(s[j])
    decreases |s| - i
  {
    if i < |s| && IsWordChar(s[i]) then WordEnd(s, i + 1) else i
  }

  /** Position of the first `>` at or after `i` (where `[^>]*>` stops). */
  function AngleFrom(s: string, i: nat): (r: Option<nat>)
    requires i <= |s|
    ensures r.Some? ==> i <= r.value < |s| && s[r.value] == '>'
    ensures r.Some? ==> forall k :: i <= k < r.value ==> s[k] != '>'
    ensures r.None? ==> forall k :: i <= k < |s| ==> s[k] != '>'
    decreases |s| - i
  {
    if i == |s| then None else if s[i] == '>' then Some(i) else AngleFrom(s, i + 1)
  }

  /** One match: the captured tag name and the position just past the closing `>`. */
  datatype TagMatch = TagMatch(name: string, end: nat)

  /**
   * The pattern tried at position `i`. Greedy `\w+` takes the whole word run;
   * giving a character back never helps, because the character after a
   * shorter run is a word character, neither `=` nor `>`.
   */
  function MatchAt(s: string, i: nat): (r: Option<TagMatch>)
    requires i <= |s|
    ensures r.Some? ==> i + 3 <= r.value.end <= |s|
    ensures r.Some? ==> s[i] == '<' && s[r.value.end - 1] == '>'
    ensures r.Some? ==> |r.value.name| >= 1 && i + 1 + |r.value.name| < r.value.end
    ensures r.Some? ==> r.value.name == s[i + 1..i + 1 + |r.value.name|]
    ensures r.Some? ==> forall k :: 0 <= k < |r.value.name| ==> IsWordChar(r.value.name[k])
  {
    if i >= |s| || s[i] != '<' then None
    else
      var j := WordEnd(s, i + 1);
      if j == i + 1 || j == |s| then None
      else if s[j] == '>' then Some(TagMatch(s[i + 1..j], j + 1))
      else if s[j] == '=' then
        match AngleFrom(s, j + 1)
        case None => None
        case Some(k) => Some(TagMatch(s[i + 1..j], k + 1))
      else None
  }

  /** Tag names of the successive matches from position `i` on: a failed try moves one character on, a match moves past its `>`. */
  function MatchesFrom(s: string, i: nat): seq<string>
    requires i <= |s|
    decreases |s| - i
  {
    if i == |s| then []
    else
      match MatchAt(s, i)
      case Some(m) => [m.name] + MatchesFrom(s, m.end)
      case None => MatchesFrom(s, i + 1)
  }

  /** `regex.Matches(input)`, each match reduced to its first group. */
  function Matches(s: string): seq<string>
  {
    MatchesFrom(s, 0)
  }

  function Closer(name: string): string
  {
    "</" + name + ">"
  }

  /** What popping the whole tag stack appends: the top (last pushed) closer first. */
  function ClosingTags(stack: seq<string>): string
  {
    if |stack| == 0 then "" else Closer(stack[|stack| - 1]) + ClosingTags(stack[..|stack| - 1])
  }

  /** The text `AutoCloseTags` returns for `input`. */
  function AutoClosed(input: string): string
  {
    input + ClosingTags(Matches(input))
  }

  /**
   * `AutoCloseTags(input)`: pushes the name of every match on a stack, then
   * pops the stack, appending `</name>` for each.
   */
  method AutoCloseTags(input: string) returns (output: string)
    ensures output == AutoClosed(input)
    ensures |output| >= |input| && output[..|input|] == input
    ensures output == input <==> Matches(input) == []
  {
    var matches := Matches(input);
    var tagStack: seq<string> := [];
    for k := 0 to |matches|
      invariant tagStack == matches[..k]
    {
      tagStack := tagStack + [matches[k]];
    }
    assert tagStack == matches;
    output := input;
    while |tagStack| > 0
      invariant output + ClosingTags(tagStack) == input + ClosingTags(matches)
    {
      var tag := tagStack[|tagStack| - 1];
      tagStack := tagStack[..|tagStack| - 1];
      output := output + "</" + tag + ">";
    }
    assert output == input + ClosingTags(matches);
    assert output[..|input|] == input;
    ClosingTagsEmpty(matches);
  }

  lemma {:induction false} ClosingTagsEmpty(stack: seq<string>)
    ensures ClosingTags(stack) == "" <==> stack == []
  {
    if |stack| > 0 {
      assert |Closer(stack[|stack| - 1])| >= 3;
    }
  }

  // ---------------------------------------------------------------------------
  // Order of the closers
  // ---------------------------------------------------------------------------

  function Reverse(s: seq<string>): (r: seq<string>)
    ensures |r| == |s|
  {
    if |s| == 0 then [] else Reverse(s[1..]) + [s[0]]
  }

  /** Each name's closer, in the order given. */
  function CloseEach(names: seq<string>): string
  {
    if |names| == 0 then "" else Closer(names[0]) + CloseEach(names[1..])
  }

  lemma {:induction false} CloseEachAppend(a: seq<string>, b: seq<string>)
    ensures CloseEach(a + b) == CloseEach(a) + CloseEach(b)
  {
    if |a| > 0 {
      assert (a + b)[1..] == a[1..] + b;
      CloseEachAppend(a[1..], b);
    } else {
      assert a + b == b;
    }
  }

  /** The closers are those of the opening tags in reverse order of appearance. */
  lemma {:induction false} ClosingTagsReversed(stack: seq<string>)
    ensures ClosingTags(stack) == CloseEach(Reverse(stack))
  {
    if |stack| > 0 {
      var init := stack[..|stack| - 1];
      var last := stack[|stack| - 1];
      ClosingTagsReversed(init);
      ReverseSnoc(init, last);
      assert init + [last] == stack;
      CloseEachAppend([last], Reverse(init));
    }
  }

  lemma {:induction false} ReverseSnoc(s: seq<string>, x: string)
    ensures Reverse(s + [x]) == [x] + Reverse(s)
  {
    if |s| > 0 {
      assert (s + [x])[1..] == s[1..] + [x];
      ReverseSnoc(s[1..], x);
    } else {
      assert s + [x] == [x];
    }
  }

  /** The first tag opened is the last one closed. */
  lemma {:induction false} FirstOpenedClosedLast(first: string, rest: seq<string>)
    ensures ClosingTags([first] + rest) == ClosingTags(rest) + Closer(first)
  {
    ClosingTagsReversed([first] + rest);
    ClosingTagsReversed(rest);
    assert ([first] + rest)[1..] == rest;
    CloseEachAppend(Reverse(rest), [first]);
  }

  // ---------------------------------------------------------------------------
  // What does and does not match
  // ---------------------------------------------------------------------------

  /** A closing tag `</...` never matches: `/` is not a word character. */
  lemma {:induction false} ClosingTagNeverMatches(s: string, i: nat)
    requires i + 1 < |s| && s[i] == '<' && s[i + 1] == '/'
    ensures MatchAt(s, i) == None
  {
  }

  /** Text without `<` has no match, so `AutoCloseTags` returns it unchanged. */
  lemma {:induction false} NoAngleNoMatch(s: string, i: nat)
    requires i <= |s|
    requires forall k :: i <= k < |s| ==> s[k] != '<'
    ensures MatchesFrom(s, i) == []
    ensures i == 0 ==> AutoClosed(s) == s
    decreases |s| - i
  {
    if i < |s| {
      NoAngleNoMatch(s, i + 1);
    }
  }

  lemma {:induction false} WordEndExtend(s: string, t: string, i: nat)
    requires i <= |s| && WordEnd(s, i) < |s|
    ensures WordEnd(s + t, i) == WordEnd(s, i)
    decreases |s| - i
  {
    if IsWordChar(s[i]) {
      WordEndExtend(s, t, i + 1);
    }
  }

  lemma {:induction false} AngleFromExtend(s: string, t: string, i: nat)
    requires i <= |s| && AngleFrom(s, i).Some?
    ensures AngleFrom(s + t, i) == AngleFrom(s, i)
    decreases |s| - i
  {
    if s[i] != '>' {
      AngleFromExtend(s, t, i + 1);
    }
  }

  /** The name of a match and the character after it are the same in any extension of `s`. */
  lemma {:induction false} NameExtend(s: string, t: string, i: nat)
    requires i < |s| && s[i] == '<' && WordEnd(s, i + 1) < |s|
    ensures var j := WordEnd(s, i + 1);
            WordEnd(s + t, i + 1) == j && (s + t)[i] == '<' && (s + t)[j] == s[j] && (s + t)[i + 1..j] == s[i + 1..j]
  {
    WordEndExtend(s, t, i + 1);
    var j := WordEnd(s, i + 1);
    assert (s + t)[i + 1..j] == s[i + 1..j];
  }

  /** A match found in `s` is found, unchanged, in any extension of `s`. */
  lemma {:induction false} MatchAtExtend(s: string, t: string, i: nat)
    requires i <= |s| && MatchAt(s, i).Some?
    ensures MatchAt(s + t, i) == MatchAt(s, i)
  {
    NameExtend(s, t, i);
    var j := WordEnd(s, i + 1);
    if s[j] == '=' {
      AngleFromExtend(s, t, j + 1);
    }
  }

  /** Appending text never makes matches disappear altogether. */
  lemma {:induction false} MatchesSurviveExtension(s: string, t: string, i: nat)
    requires i <= |s| && MatchesFrom(s, i) != []
    ensures MatchesFrom(s + t, i) != []
    decreases |s| - i
  {
    if MatchAt(s, i).Some? {
      MatchAtExtend(s, t, i);
    } else if MatchAt(s + t, i).None? {
      MatchesSurviveExtension(s, t, i + 1);
    }
  }

  /**
   * `AutoCloseTags` is not idempotent: applied to its own output it appends the
   * closers again whenever the input had a tag, since closers never match and
   * the original openers still do.
   */
  lemma {:induction false} NotIdempotent(s: string)
    requires Matches(s) != []
    ensures AutoClosed(AutoClosed(s)) != AutoClosed(s)
  {
    var once := AutoClosed(s);
    MatchesSurviveExtension(s, ClosingTags(Matches(s)), 0);
    ClosingTagsEmpty(Matches(once));
  }

  // ---------------------------------------------------------------------------
  // Worked examples
  // ---------------------------------------------------------------------------

  lemma {:induction false} ExampleBold(s: string)
    requires s == "<b>hi"
    ensures AutoClosed(s) == s + "</b>"
  {
    assert WordEnd(s, 2) == 2;
    assert WordEnd(s, 1) == 2;
    assert s[1..2] == "b";
    assert MatchAt(s, 0) == Some(TagMatch("b", 3));
    NoAngleNoMatch(s, 3);
    assert Matches(s) == ["b"];
    ClosingTagsOfOne("b");
  }

  lemma {:induction false} NestedOuterMatch(s: string)
    requires s == "<color=red>x<b>y"
    ensures MatchAt(s, 0) == Some(TagMatch("color", 11))
  {
    assert WordEnd(s, 6) == 6;
    assert WordEnd(s, 5) == 6;
    assert WordEnd(s, 4) == 6;
    assert WordEnd(s, 3) == 6;
    assert WordEnd(s, 2) == 6;
    assert WordEnd(s, 1) == 6;
    assert s[1..6] == "color";
    assert AngleFrom(s, 10) == Some(10);
    assert AngleFrom(s, 9) == Some(10);
    assert AngleFrom(s, 8) == Some(10);
    assert AngleFrom(s, 7) == Some(10);
  }

  lemma {:induction false} NestedInnerMatch(s: string)
    requires s == "<color=red>x<b>y"
    ensures MatchesFrom(s, 11) == ["b"]
  {
    assert MatchAt(s, 11) == None;
    assert WordEnd(s, 14) == 14;
    assert WordEnd(s, 13) == 14;
    assert s[13..14] == "b";
    assert MatchAt(s, 12) == Some(TagMatch("b", 15));
    NoAngleNoMatch(s, 15);
    assert MatchesFrom(s, 12) == ["b"];
  }

  lemma {:induction false} ExampleNested(s: string)
    requires s == "<color=red>x<b>y"
    ensures AutoClosed(s) == s + "</b></color>"
  {
    NestedMatches(s);
    ClosingTagsOfTwo("color", "b");
  }

  lemma {:induction false} NestedMatches(s: string)
    requires s == "<color=red>x<b>y"
    ensures Matches(s) == ["color", "b"]
  {
    NestedOuterMatch(s);
    NestedInnerMatch(s);
  }

  lemma {:induction false} ClosingTagsOfOne(a: string)
    ensures ClosingTags([a]) == "</" + a + ">"
  {
    assert [a][..0] == [];
    assert ClosingTags([a]) == Closer(a) + ClosingTags([]);
  }

  lemma {:induction false} ClosingTagsOfTwo(a: string, b: string)
    ensures ClosingTags([a, b]) == "</" + b + ">" + "</" + a + ">"
  {
    assert [a, b][..1] == [a];
    assert ClosingTags([a, b]) == Closer(b) + ClosingTags([a]);
    ClosingTagsOfOne(a);
  }

  /** Already balanced markup still gets a closer: `<b>x</b>` becomes `<b>x</b></b>`. */
  lemma {:induction false} ExampleBalanced(s: string)
    requires s == "<b>x</b>"
    ensures AutoClosed(s) == s + "</b>"
  {
    assert WordEnd(s, 2) == 2;
    assert WordEnd(s, 1) == 2;
    assert s[1..2] == "b";
    assert MatchAt(s, 0) == Some(TagMatch("b", 3));
    assert MatchAt(s, 3) == None;
    ClosingTagNeverMatches(s, 4);
    NoAngleNoMatch(s, 5);
    assert MatchesFrom(s, 4) == [];
    assert MatchesFrom(s, 3) == [];
    assert Matches(s) == ["b"];
    ClosingTagsOfOne("b");
  }
}
