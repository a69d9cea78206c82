/**
  The line normaliser that every reader's output passes through
  (`processing_string`): fragments are stripped, blank ones are dropped, and
  a word broken by a trailing hyphen is carried over and glued onto the next
  non-blank fragment.
 */
module Normaliser {
  import opened Text

  /** Python's `s[:-k]` for k >= 1: all but the last k characters, or "" when k exceeds the length. */
  function DropLast(s: string, k: nat): string
    requires k >= 1
  {
    if k <= |s| then s[..|s| - k] else ""
  }

  predicate EndsInHyphen(s: string) {
    s != [] && s[|s| - 1] == '-'
  }

  /** What one non-blank line turns into: the text yielded and the new pending word. */
  datatype Carry = Carry(emitted: string, pending: string)

  /**
    The hyphen rule, applied to a non-blank line (the pending word already
    glued on): a line ending in '-' gives up its last whitespace-delimited
    token, which is what `line.split()[-1]` is (SplitLast), and the one
    character before it.
   */
  function CutHyphen(line: string): Carry
    requires line != []
  {
    if line[|line| - 1] == '-' then
      var word := TrailingToken(line);
      Carry(DropLast(line, |word| + 1), DropLast(word, 1))
    else
      Carry(line, "")
  }

  /**
    A line that does not end in '-' is yielded whole and nothing is pending.
    A line that ends in '-' loses its last whitespace-delimited token and the
    one character before it, which is whitespace; that token minus its '-' is
    the new pending word, which holds no whitespace. When the token is the
    whole line, "" is yielded.
   */
  lemma CutHyphenSpec(line: string)
    requires line != []
    ensures !EndsInHyphen(line) ==> CutHyphen(line) == Carry(line, "")
    ensures EndsInHyphen(line) ==> NoWhitespace(CutHyphen(line).pending)
    ensures EndsInHyphen(line) && |CutHyphen(line).pending| + 1 < |line| ==>
      var c := CutHyphen(line);
      var k := |line| - |c.pending| - 2;
      |c.emitted| == k && IsWhitespace(line[k]) && line == c.emitted + [line[k]] + c.pending + "-"
    ensures EndsInHyphen(line) && |CutHyphen(line).pending| + 1 >= |line| ==>
      CutHyphen(line).emitted == "" && line == CutHyphen(line).pending + "-"
  {
    if EndsInHyphen(line) {
      CutShape(line, TrailingToken(line));
    }
  }

  /** How a hyphen-ending line splits around its trailing token. */
  lemma CutShape(line: string, word: string)
    requires EndsInHyphen(line) && word == TrailingToken(line)
    ensures word != [] && word[|word| - 1] == '-'
    ensures NoWhitespace(word[..|word| - 1])
    ensures |word| < |line| ==>
      var k := |line| - |word| - 1;
      line == DropLast(line, |word| + 1) + [line[k]] + word[..|word| - 1] + "-" && IsWhitespace(line[k])
          && |DropLast(line, |word| + 1)| == k
    ensures |word| >= |line| ==> DropLast(line, |word| + 1) == "" && line == word[..|word| - 1] + "-"
  {
    var n := |line|;
    assert word != [] && word[|word| - 1] == '-' by {
      assert !IsWhitespace(line[n - 1]);
    }
    var p := word[..|word| - 1];
    assert word == p + "-";
    assert NoWhitespace(p) by {
      forall k | 0 <= k < |p| ensures !IsWhitespace(p[k]) {
        assert p[k] == word[k];
      }
    }
    if |word| < n {
      var k := n - |word| - 1;
      assert |DropLast(line, |word| + 1)| == k && DropLast(line, |word| + 1) == line[..k];
      assert line == DropLast(line, |word| + 1) + [line[k]] + p + "-" by {
        assert line[k + 1..] == word;
        assert line == line[..k] + [line[k]] + line[k + 1..];
      }
    } else {
      assert line == word;
    }
  }

  /** The loop's state: the pending word and the lines yielded so far. */
  datatype State = State(pending: string, lines: seq<string>)

  /** The pending word, when there is one, glued onto the front of a line with no space. */
  function Glue(pending: string, line: string): string {
    if pending != "" then pending + line else line
  }

  /**
    One iteration of the loop over a raw fragment. A blank fragment changes
    nothing; any other yields exactly one line, after the ones before it.
   */
  function Feed(st: State, raw: string): (r: State)
    ensures Strip(raw) == [] ==> r == st
    ensures Strip(raw) != [] ==> |r.lines| == |st.lines| + 1 && r.lines[..|st.lines|] == st.lines
  {
    var line := Strip(raw);
    if |line| == 0 then st
    else
      var c := CutHyphen(Glue(st.pending, line));
      assert (st.lines + [c.emitted])[..|st.lines|] == st.lines;
      State(c.pending, st.lines + [c.emitted])
  }

  /** The state after the loop has consumed all of `fragments`, starting with nothing pending. */
  function Run(fragments: seq<string>): State
    decreases |fragments|
  {
    if fragments == [] then State("", [])
    else Feed(Run(fragments[..|fragments| - 1]), fragments[|fragments| - 1])
  }

  /** The lines `processing` yields; the word still pending at the end is dropped. */
  function Normalise(fragments: seq<string>): seq<string> {
    Run(fragments).lines
  }

  /** The loop of `processing`, over the whole fragment sequence. */
  method Process(fragments: seq<string>) returns (lines: seq<string>)
    ensures lines == Normalise(fragments)
  {
    var wordWrapped := "";
    lines := [];
    var i := 0;
    while i < |fragments|
      invariant 0 <= i <= |fragments|
      invariant Run(fragments[..i]) == State(wordWrapped, lines)
    {
      wordWrapped, lines := ProcessLine(wordWrapped, lines, fragments[i]);
      RunStep(fragments, i);
      i := i + 1;
    }
    assert fragments[..|fragments|] == fragments;
  }

  /**
    The body of the loop for one raw fragment: strip it, skip it when blank,
    otherwise glue on the pending word, apply the hyphen rule and yield.
   */
  method ProcessLine(wordWrapped: string, lines: seq<string>, raw: string)
    returns (wordWrapped': string, lines': seq<string>)
    ensures State(wordWrapped', lines') == Feed(State(wordWrapped, lines), raw)
  {
    wordWrapped', lines' := wordWrapped, lines;
    var line := Strip(raw);
    if |line| == 0 {
      return;
    }
    if wordWrapped' != "" {
      line := wordWrapped' + line;
      wordWrapped' := "";
    }
    ghost var glued := line;
    assert glued == Glue(wordWrapped, Strip(raw));
    if line[|line| - 1] == '-' {
      line, wordWrapped' := Unhyphenate(line);
    }
    assert CutHyphen(glued) == Carry(line, wordWrapped');
    lines' := lines' + [line];
    FeedStep(State(wordWrapped, lines), raw);
  }

  /**
    The hyphen branch of the loop body: the line without its last token and
    the character before it, and that token without its '-'.
   */
  method Unhyphenate(line: string) returns (kept: string, word: string)
    requires EndsInHyphen(line)
    ensures CutHyphen(line) == Carry(kept, word)
  {
    SplitLast(line);
    word := Split(line)[|Split(line)| - 1];
    kept := DropLast(line, |word| + 1);
    word := DropLast(word, 1);
  }

  /** A non-blank fragment goes through the hyphen rule after the pending word is glued on. */
  lemma FeedStep(st: State, raw: string)
    requires Strip(raw) != []
    ensures var c := CutHyphen(Glue(st.pending, Strip(raw)));
      Feed(st, raw) == State(c.pending, st.lines + [c.emitted])
  {
  }

  /** A fragment whose stripped form, with nothing pending, does not end in '-' is yielded stripped. */
  lemma FeedPlain(st: State, raw: string)
    requires st.pending == "" && !EndsInHyphen(Strip(raw))
    ensures Feed(st, raw) == State("", st.lines + (if Strip(raw) == [] then [] else [Strip(raw)]))
  {
  }

  /** Run takes one more fragment through Feed. */
  lemma RunStep(fragments: seq<string>, i: nat)
    requires i < |fragments|
    ensures Run(fragments[..i + 1]) == Feed(Run(fragments[..i]), fragments[i])
  {
    assert fragments[..i + 1][..i] == fragments[..i];
  }

  /** The stripped forms of the non-blank fragments, in order. */
  function NonBlank(fragments: seq<string>): seq<string>
    decreases |fragments|
  {
    if fragments == [] then []
    else
      var last := Strip(fragments[|fragments| - 1]);
      NonBlank(fragments[..|fragments| - 1]) + (if last == [] then [] else [last])
  }

  /** One line comes out per non-blank fragment. */
  lemma {:induction false} NormaliseLength(fragments: seq<string>)
    ensures |Normalise(fragments)| == |NonBlank(fragments)|
    decreases |fragments|
  {
    if fragments != [] {
      NormaliseLength(fragments[..|fragments| - 1]);
    }
  }

  /** When no stripped fragment ends in '-', the output is the stripped non-blank fragments and nothing is pending. */
  lemma {:induction false} NoHyphenIsStrip(fragments: seq<string>)
    requires forall i :: 0 <= i < |fragments| ==> !EndsInHyphen(Strip(fragments[i]))
    ensures Normalise(fragments) == NonBlank(fragments)
    ensures Run(fragments).pending == ""
    decreases |fragments|
  {
    if fragments != [] {
      var init := fragments[..|fragments| - 1];
      forall i | 0 <= i < |init| ensures !EndsInHyphen(Strip(init[i])) {
        assert init[i] == fragments[i];
      }
      NoHyphenIsStrip(init);
      FeedPlain(Run(init), fragments[|fragments| - 1]);
    }
  }

  /** The pending word is a single split() token, so it never holds whitespace. */
  lemma {:induction false} PendingHasNoWhitespace(fragments: seq<string>)
    ensures NoWhitespace(Run(fragments).pending)
    decreases |fragments|
  {
    if fragments != [] {
      var st := Run(fragments[..|fragments| - 1]);
      var raw := fragments[|fragments| - 1];
      PendingHasNoWhitespace(fragments[..|fragments| - 1]);
      if Strip(raw) != [] {
        FeedStep(st, raw);
        CutHyphenSpec(Glue(st.pending, Strip(raw)));
      }
    }
  }

  /**
    A pending word is glued, with no space, onto the next non-blank fragment
    and then cleared: the glued line goes through the hyphen rule, which
    decides what is yielded and what is pending next.
   */
  lemma GlueOntoNext(st: State, raw: string)
    requires Strip(raw) != []
    ensures var g := st.pending + Strip(raw);
      Feed(st, raw) == State(CutHyphen(g).pending, st.lines + [CutHyphen(g).emitted])
  {
    if st.pending == "" {
      assert st.pending + Strip(raw) == Strip(raw);
    }
  }

  /** Yielded lines are final: more fragments only add lines after them. */
  lemma {:induction false} NormalisePrefix(fragments: seq<string>, more: seq<string>)
    ensures |Normalise(fragments)| <= |Normalise(fragments + more)|
    ensures Normalise(fragments + more)[..|Normalise(fragments)|] == Normalise(fragments)
    decreases |more|
  {
    if more == [] {
      assert fragments + more == fragments;
    } else {
      var init := more[..|more| - 1];
      NormalisePrefix(fragments, init);
      assert (fragments + more)[..|fragments + more| - 1] == fragments + init;
      var a := Normalise(fragments);
      var b := Normalise(fragments + init);
      var c := Normalise(fragments + more);
      assert c[..|b|] == b;
      assert c[..|a|] == c[..|b|][..|a|];
    }
  }

  /** Two fragments fed one after the other from the start state. */
  lemma RunTwo(a: string, b: string)
    ensures Run([a, b]) == Feed(Feed(State("", []), a), b)
  {
    var f := [a, b];
    RunStep(f, 0);
    RunStep(f, 1);
    assert f[..0] == [] && f[..2] == f;
  }

  lemma CarryOverFirst()
    ensures Feed(State("", []), "Hello wor-") == State("wor", ["Hello"])
  {
    StripTrimmed("Hello wor-");
    TokenStartUnique("Hello wor-", 6, 10);
    assert CutHyphen("Hello wor-") == Carry("Hello", "wor");
  }

  lemma CarryOverSecond()
    ensures Feed(State("wor", ["Hello"]), "ld today") == State("", ["Hello", "world today"])
  {
    StripTrimmed("ld today");
    assert Glue("wor", "ld today") == "world today";
    assert CutHyphen("world today") == Carry("world today", "");
  }

  /** "Hello wor-" then "ld today": the broken word is rejoined at the front of the second line. */
  lemma ExampleCarryOver()
    ensures Normalise(["Hello wor-", "ld today"]) == ["Hello", "world today"]
  {
    RunTwo("Hello wor-", "ld today");
    CarryOverFirst();
    CarryOverSecond();
  }

  lemma EmptyLineFirst()
    ensures Feed(State("", []), "exam-") == State("exam", [""])
  {
    StripTrimmed("exam-");
    TokenStartUnique("exam-", 0, 5);
    assert CutHyphen("exam-") == Carry("", "exam");
  }

  lemma EmptyLineSecond()
    ensures Feed(State("exam", [""]), "ple text") == State("", ["", "example text"])
  {
    StripTrimmed("ple text");
    assert Glue("exam", "ple text") == "example text";
    assert CutHyphen("example text") == Carry("example text", "");
  }

  /** "exam-" then "ple text": a line that is one hyphenated token yields the empty string, not nothing. */
  lemma ExampleEmptyLine()
    ensures Normalise(["exam-", "ple text"]) == ["", "example text"]
  {
    RunTwo("exam-", "ple text");
    EmptyLineFirst();
    EmptyLineSecond();
  }

  /** "wor-" alone: "" is yielded and the pending "wor" is never yielded. */
  lemma ExampleDanglingLost()
    ensures Normalise(["wor-"]) == [""] && Run(["wor-"]).pending == "wor"
  {
    TokenStartUnique("wor-", 0, 4);
  }

  /** A blank fragment yields nothing; a lone "-" (after stripping) yields "". */
  lemma ExampleLoneHyphen()
    ensures Normalise([" \t", " - "]) == [""]
  {
    var f := [" \t", " - "];
    assert Strip(f[0]) == "";
    assert Strip(f[1]) == "-";
    assert f[..1] == [f[0]];
    assert Run(f[..1]) == State("", []);
  }
}
