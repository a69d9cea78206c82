/**
  The Python string operations the narrator relies on: str.isspace, str.strip(),
  str.split() with no argument, str.split(sep) with a one-character separator,
  and str.join.
 */
module Text {

  /**
    The characters Python's str.isspace() accepts, which are the ones
    str.strip() and str.split() with no argument treat as blanks: the
    controls U+0009-U+000D and U+001C-U+001F, the space, U+0085, U+00A0,
    U+1680, U+2000-U+200A, U+2028, U+2029, U+202F, U+205F and U+3000.
   */
  const Blanks: set<char> := {
    '\U{0009}', '\U{000A}', '\U{000B}', '\U{000C}', '\U{000D}', '\U{001C}', '\U{001D}', '\U{001E}',
    '\U{001F}', '\U{0020}', '\U{0085}', '\U{00A0}', '\U{1680}', '\U{2000}', '\U{2001}', '\U{2002}',
    '\U{2003}', '\U{2004}', '\U{2005}', '\U{2006}', '\U{2007}', '\U{2008}', '\U{2009}', '\U{200A}',
    '\U{2028}', '\U{2029}', '\U{202F}', '\U{205F}', '\U{3000}'
  }

  predicate IsWhitespace(c: char) {
    c in Blanks
  }

  predicate NoWhitespace(s: string) {
    forall i :: 0 <= i < |s| ==> !IsWhitespace(s[i])
  }

  predicate AllWhitespace(s: string) {
    forall i :: 0 <= i < |s| ==> IsWhitespace(s[i])
  }

  /** The first index at or after i that does not hold whitespace, or |s|. */
  function SkipSpace(s: string, i: nat): (j: nat)
    requires i <= |s|
    ensures i <= j <= |s|
    ensures forall k :: i <= k < j ==> IsWhitespace(s[k])
    ensures j == |s| || !IsWhitespace(s[j])
    decreases |s| - i
  {
    if i == |s| || !IsWhitespace(s[i]) then i else SkipSpace(s, i + 1)
  }

  /** The first index at or after i that holds whitespace, or |s|. */
  function SkipToken(s: string, i: nat): (j: nat)
    requires i <= |s|
    ensures i <= j <= |s|
    ensures forall k :: i <= k < j ==> !IsWhitespace(s[k])
    ensures j == |s| || IsWhitespace(s[j])
    decreases |s| - i
  {
    if i == |s| || IsWhitespace(s[i]) then i else SkipToken(s, i + 1)
  }

  /** Walking back from j, but not below lo: the index just past the last non-whitespace character, or lo. */
  function TrimEnd(s: string, lo: nat, j: nat): (e: nat)
    requires lo <= j <= |s|
    ensures lo <= e <= j
    ensures forall k :: e <= k < j ==> IsWhitespace(s[k])
    ensures e == lo || !IsWhitespace(s[e - 1])
    decreases j
  {
    if j == lo || !IsWhitespace(s[j - 1]) then j else TrimEnd(s, lo, j - 1)
  }

  /** Walking back from j: where the run of non-whitespace characters that ends at j begins. */
  function TokenStart(s: string, j: nat): (t: nat)
    requires j <= |s|
    ensures t <= j
    ensures forall k :: t <= k < j ==> !IsWhitespace(s[k])
    ensures t == 0 || IsWhitespace(s[t - 1])
    decreases j
  {
    if j == 0 || IsWhitespace(s[j - 1]) then j else TokenStart(s, j - 1)
  }

  /**
    str.strip(): the input with its leading and trailing whitespace removed.
    The result is empty exactly when the input is blank, and otherwise
    starts and ends with a non-whitespace character.
   */
  function Strip(s: string): (r: string)
    ensures r == [] <==> AllWhitespace(s)
    ensures r != [] ==> !IsWhitespace(r[0]) && !IsWhitespace(r[|r| - 1])
  {
    var a := SkipSpace(s, 0);
    var e := TrimEnd(s, a, |s|);
    assert a < |s| ==> e > a;
    s[a..e]
  }

  /** A string that neither starts nor ends with whitespace is left as it is by strip(). */
  lemma StripTrimmed(s: string)
    requires s != [] && !IsWhitespace(s[0]) && !IsWhitespace(s[|s| - 1])
    ensures Strip(s) == s
  {
    assert SkipSpace(s, 0) == 0;
    assert TrimEnd(s, 0, |s|) == |s|;
  }

  /** What strip() removes is whitespace on both sides: the result sits inside the input between two blank pieces. */
  lemma StripInside(s: string)
    ensures exists i :: 0 <= i <= |s| - |Strip(s)| && s[i..i + |Strip(s)|] == Strip(s)
                        && AllWhitespace(s[..i]) && AllWhitespace(s[i + |Strip(s)|..])
  {
    var a := SkipSpace(s, 0);
    var e := TrimEnd(s, a, |s|);
    assert a < |s| ==> e > a;
    assert forall k :: 0 <= k < a ==> s[..a][k] == s[k];
    assert forall k :: 0 <= k < |s| - e ==> s[e..][k] == s[e + k];
    assert AllWhitespace(s[..a]) && AllWhitespace(s[e..]);
  }

  /** The tokens of s that start at or after i, where i is not inside a token. */
  function SplitFrom(s: string, i: nat): seq<string>
    requires i <= |s|
    decreases |s| - i
  {
    var a := SkipSpace(s, i);
    if a == |s| then []
    else
      var b := SkipToken(s, a);
      [s[a..b]] + SplitFrom(s, b)
  }

  /** str.split() with no argument: the maximal runs of non-whitespace characters, left to right. */
  function Split(s: string): seq<string> {
    SplitFrom(s, 0)
  }

  /** No token is empty or holds whitespace; there are none exactly when what is left is blank. */
  lemma {:induction false} SplitFromTokens(s: string, i: nat)
    requires i <= |s|
    ensures forall k :: 0 <= k < |SplitFrom(s, i)| ==> SplitFrom(s, i)[k] != [] && NoWhitespace(SplitFrom(s, i)[k])
    ensures SplitFrom(s, i) == [] <==> forall k :: i <= k < |s| ==> IsWhitespace(s[k])
    decreases |s| - i
  {
    var a := SkipSpace(s, i);
    if a < |s| {
      var b := SkipToken(s, a);
      SplitFromTokens(s, b);
      assert NoWhitespace(s[a..b]) by {
        assert forall k :: 0 <= k < b - a ==> s[a..b][k] == s[a + k];
      }
    }
  }

  /**
    The tokens str.split() returns are non-empty and hold no whitespace, and
    there are none exactly when the input is blank.
   */
  lemma SplitTokens(s: string)
    ensures forall k :: 0 <= k < |Split(s)| ==> Split(s)[k] != [] && NoWhitespace(Split(s)[k])
    ensures Split(s) == [] <==> AllWhitespace(s)
  {
    SplitFromTokens(s, 0);
  }

  /** The longest suffix without whitespace. */
  function TrailingToken(s: string): (r: string)
    ensures |r| <= |s| && r == s[|s| - |r|..]
    ensures NoWhitespace(r)
    ensures |r| == |s| || IsWhitespace(s[|s| - |r| - 1])
  {
    var t := TokenStart(s, |s|);
    assert forall k :: 0 <= k < |s| - t ==> s[t..][k] == s[t + k];
    s[t..]
  }

  /** A run of non-whitespace characters ending at j that is preceded by whitespace or by nothing starts where TokenStart says. */
  lemma {:induction false} TokenStartUnique(s: string, t: nat, j: nat)
    requires t <= j <= |s|
    requires forall k :: t <= k < j ==> !IsWhitespace(s[k])
    requires t == 0 || IsWhitespace(s[t - 1])
    ensures TokenStart(s, j) == t
    decreases j
  {
    if j > t {
      TokenStartUnique(s, t, j - 1);
    }
  }

  /**
    Splitting from a position that is not inside a token of a string that
    ends in a non-whitespace character: the last token is the trailing token.
   */
  lemma {:induction false} SplitFromLast(s: string, i: nat)
    requires i < |s| && !IsWhitespace(s[|s| - 1])
    requires i == 0 || IsWhitespace(s[i - 1]) || IsWhitespace(s[i])
    ensures SplitFrom(s, i) != []
    ensures SplitFrom(s, i)[|SplitFrom(s, i)| - 1] == TrailingToken(s)
    decreases |s| - i
  {
    var a := SkipSpace(s, i);
    var b := SkipToken(s, a);
    var rest := SplitFrom(s, b);
    assert SplitFrom(s, i) == [s[a..b]] + rest;
    if b == |s| {
      TokenStartUnique(s, a, |s|);
    } else {
      SplitFromLast(s, b);
    }
  }

  /**
    When a string ends in a non-whitespace character, split() yields at least
    one token and the last one is the string's trailing token, so
    `s.split()[-1]` is always defined there.
   */
  lemma SplitLast(s: string)
    requires s != [] && !IsWhitespace(s[|s| - 1])
    ensures Split(s) != [] && Split(s)[|Split(s)| - 1] == TrailingToken(s)
  {
    SplitFromLast(s, 0);
  }

  /**
    str.split(sep) for a one-character separator: the pieces between the
    separators, empty pieces included; there is always at least one, none
    holds the separator, and the first is the text before the first separator.
   */
  function SplitOn(s: string, sep: char): (r: seq<string>)
    ensures |r| >= 1
    ensures forall i :: 0 <= i < |r| ==> sep !in r[i]
    ensures |r[0]| <= |s| && r[0] == s[..|r[0]|]
    ensures |r[0]| == |s| || s[|r[0]|] == sep
  {
    if s == [] then [""]
    else if s[0] == sep then [""] + SplitOn(s[1..], sep)
    else
      var rest := SplitOn(s[1..], sep);
      [[s[0]] + rest[0]] + rest[1..]
  }

  /** str.join: the items with the separator between consecutive ones. */
  function JoinWith(sep: string, items: seq<string>): string
    decreases |items|
  {
    if items == [] then ""
    else if |items| == 1 then items[0]
    else items[0] + sep + JoinWith(sep, items[1..])
  }

  /** Joining the pieces of split(sep) with sep gives back the original string. */
  lemma {:induction false} JoinSplitOn(s: string, sep: char)
    ensures JoinWith([sep], SplitOn(s, sep)) == s
    decreases |s|
  {
    if s != [] {
      var rest := SplitOn(s[1..], sep);
      JoinSplitOn(s[1..], sep);
      assert s == [s[0]] + s[1..];
      if s[0] == sep {
        assert SplitOn(s, sep) == [""] + rest;
        JoinCons("", rest, [sep]);
      } else {
        assert SplitOn(s, sep) == [[s[0]] + rest[0]] + rest[1..];
        JoinGrowFirst(s[0], rest, [sep]);
      }
    }
  }

  /** Joining with one more item in front: that item and a separator come first. */
  lemma JoinCons(x: string, items: seq<string>, sep: string)
    requires items != []
    ensures JoinWith(sep, [x] + items) == x + sep + JoinWith(sep, items)
  {
    assert ([x] + items)[1..] == items;
  }

  /** Joining after putting a character in front of the first item puts it in front of the join. */
  lemma JoinGrowFirst(c: char, items: seq<string>, sep: string)
    requires items != []
    ensures JoinWith(sep, [[c] + items[0]] + items[1..]) == [c] + JoinWith(sep, items)
  {
    var r := [[c] + items[0]] + items[1..];
    if |items| > 1 {
      assert r[1..] == items[1..];
      assert JoinWith(sep, r) == r[0] + sep + JoinWith(sep, items[1..]);
      assert JoinWith(sep, items) == items[0] + sep + JoinWith(sep, items[1..]);
    }
  }

  /** A string with no separator in it is split into itself alone. */
  lemma {:induction false} SplitOnNoSeparator(s: string, sep: char)
    requires sep !in s
    ensures SplitOn(s, sep) == [s]
    decreases |s|
  {
    if s != [] {
      SplitOnNoSeparator(s[1..], sep);
      assert [s[0]] + s[1..] == s;
    }
  }

  /** Splitting right after a separator-free prefix and its separator. */
  lemma {:induction false} SplitOnAfter(a: string, b: string, sep: char)
    requires sep !in a
    ensures SplitOn(a + [sep] + b, sep) == [a] + SplitOn(b, sep)
    decreases |a|
  {
    var s := a + [sep] + b;
    if a == [] {
      assert s[1..] == b;
    } else {
      assert s[1..] == a[1..] + [sep] + b;
      SplitOnAfter(a[1..], b, sep);
      assert [a[0]] + a[1..] == a;
    }
  }

  /** Splitting a join of separator-free pieces gives back the pieces. */
  lemma {:induction false} SplitOnJoin(items: seq<string>, sep: char)
    requires items != []
    requires forall i :: 0 <= i < |items| ==> sep !in items[i]
    ensures SplitOn(JoinWith([sep], items), sep) == items
    decreases |items|
  {
    if |items| == 1 {
      SplitOnNoSeparator(items[0], sep);
    } else {
      SplitOnJoin(items[1..], sep);
      SplitOnAfter(items[0], JoinWith([sep], items[1..]), sep);
      assert [items[0]] + items[1..] == items;
    }
  }

  /** Joining a concatenation: the two joins with one separator between them. */
  lemma {:induction false} JoinWithAppend(sep: string, a: seq<string>, b: seq<string>)
    requires a != [] && b != []
    ensures JoinWith(sep, a + b) == JoinWith(sep, a) + sep + JoinWith(sep, b)
    decreases |a|
  {
    if |a| == 1 {
      assert (a + b)[1..] == b;
    } else {
      JoinWithAppend(sep, a[1..], b);
      assert (a + b)[1..] == a[1..] + b;
    }
  }
}
