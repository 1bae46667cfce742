/** The processor of the morphological analyzer's output: one token per line,
    `@` lines are metadata, an `EOS` line ends the sentence, and every other
    line holds the surface form and the reading as its first two
    space-separated fields. Each token yields either its surface form or its
    ruby markup, and the assembled text optionally goes through the highlight
    pass. */
module Parser {
  import opened Results
  import opened Text
  import opened Furigana
  import opened Highlighting

  /** The line that ends the analyzer's output for a sentence. */
  const EOS := "EOS"

  /** Analyzer metadata lines start with `@`. */
  predicate IsMeta(line: string): (b: bool)
    ensures b <==> "@" <= line
  {
    |line| > 0 && line[0] == '@'
  }

  predicate HasKanji(s: string, isKanji: char -> bool)
  {
    exists i | 0 <= i < |s| :: isKanji(s[i])
  }

  /** How many characters of `s` are kanji. */
  function KanjiCount(s: string, isKanji: char -> bool): (n: nat)
    ensures n <= |s|
    ensures n > 0 <==> HasKanji(s, isKanji)
  {
    if s == [] then 0
    else
      assert forall i :: 0 < i < |s| ==> s[i] == s[1..][i - 1];
      (if isKanji(s[0]) then 1 else 0) + KanjiCount(s[1..], isKanji)
  }

  /** The markup of one token line. The ruby markup is computed before the
      kanji test, so its failure aborts even a line whose surface form has no
      kanji; a line without a space has no reading field. */
  function LineMarkup(line: string, isKanji: char -> bool, diff: (string, string) -> seq<Segment>): (r: Result<string>)
    ensures ' ' !in line ==> r == Err(MissingReading(line))
    ensures ' ' in line ==>
      var fields := Split(line, ' ');
      |fields| >= 2 &&
      var ruby := Render(diff(fields[0], fields[1]));
      (ruby.Err? ==> r == ruby) &&
      (ruby.Ok? && HasKanji(fields[0], isKanji) ==> r == ruby) &&
      (ruby.Ok? && !HasKanji(fields[0], isKanji) ==> r == Ok(fields[0]))
  {
    var fields := Split(line, ' ');
    SplitHasSecondField(line, ' ');
    if |fields| < 2 then Err(MissingReading(line))
    else
      match Render(diff(fields[0], fields[1]))
      case Err(e) => Err(e)
      case Ok(ruby) => Ok(if KanjiCount(fields[0], isKanji) > 0 then ruby else fields[0])
  }

  /** The markup of the analyzer's lines up to the first `EOS` line. A
      failure is the failure of one token line before that `EOS`. */
  function Markup(lines: seq<string>, isKanji: char -> bool, diff: (string, string) -> seq<Segment>): (r: Result<string>)
    ensures r.Err? ==> exists k | 0 <= k < |lines| ::
      EOS !in lines[..k + 1] && !IsMeta(lines[k]) && r == LineMarkup(lines[k], isKanji, diff)
    decreases |lines|
  {
    if lines == [] || lines[0] == EOS then Ok("")
    else
      var rest := Markup(lines[1..], isKanji, diff);
      MarkupFailureShift(lines, isKanji, diff, rest);
      if IsMeta(lines[0]) then rest
      else
        var first := LineMarkup(lines[0], isKanji, diff);
        assert lines[..1] == [lines[0]];
        Then(first, rest)
  }

  /** A failing line of `lines[1..]` is one place further on in `lines`. */
  lemma MarkupFailureShift(lines: seq<string>, isKanji: char -> bool, diff: (string, string) -> seq<Segment>,
                           rest: Result<string>)
    requires lines != [] && lines[0] != EOS
    requires rest.Err? ==> exists k | 0 <= k < |lines| - 1 ::
      EOS !in lines[1..][..k + 1] && !IsMeta(lines[1..][k]) && rest == LineMarkup(lines[1..][k], isKanji, diff)
    ensures rest.Err? ==> exists k | 0 <= k < |lines| ::
      EOS !in lines[..k + 1] && !IsMeta(lines[k]) && rest == LineMarkup(lines[k], isKanji, diff)
  {
    if rest.Ok? { return; }
    var k :| 0 <= k < |lines| - 1 &&
      EOS !in lines[1..][..k + 1] && !IsMeta(lines[1..][k]) && rest == LineMarkup(lines[1..][k], isKanji, diff);
    assert lines[..k + 2] == [lines[0]] + lines[1..][..k + 1];
    assert lines[1..][k] == lines[k + 1];
  }

  /** The whole result: the markup, with the highlight pass applied when the
      highlight string is not empty. A failure of the markup is passed on
      unchanged; the markup itself comes back unchanged exactly when there is
      no highlight string or it does not occur in the markup. */
  function ParsedOutput(output: string, highlight: string, isKanji: char -> bool,
                        diff: (string, string) -> seq<Segment>): (r: Result<string>)
    ensures var m := Markup(Lines(output), isKanji, diff);
      (m.Err? ==> r == m) &&
      (m.Ok? ==> r.Ok? && |r.value| >= |m.value| &&
                 (r == m <==> highlight == [] || !Occurs(highlight, m.value)))
  {
    match Markup(Lines(output), isKanji, diff)
    case Err(e) => Err(e)
    case Ok(ret) =>
      if highlight == [] then Ok(ret)
      else
        HighlightChangesIffOccurs(ret, highlight);
        Ok(Highlight(ret, highlight))
  }

  /** Processes the analyzer's output line by line, appending each token's
      contribution, stopping at the first `EOS` line. `isKanji` and `diff`
      stand for the kanji classifier and the character diff library. */
  method ParseJumanppOutput(output: string, highlight: string, isKanji: char -> bool,
                            diff: (string, string) -> seq<Segment>) returns (r: Result<string>)
    ensures r == ParsedOutput(output, highlight, isKanji, diff)
    ensures highlight == [] ==> r == Markup(Lines(output), isKanji, diff)
  {
    var lines := Lines(output);
    var ret := "";
    var i := 0;
    assert lines[0..] == lines;
    PrependEmpty(Markup(lines, isKanji, diff));
    while i < |lines|
      invariant i <= |lines|
      invariant Markup(lines, isKanji, diff) == Prepend(ret, Markup(lines[i..], isKanji, diff))
    {
      var x := lines[i];
      if x == EOS {
        assert lines[i..][0] == x;
        break;
      } else if !IsMeta(x) {
        LineStep(lines, i, ret, isKanji, diff);
        var v := Split(x, ' ');
        var kanjiCount := KanjiCount(v[0], isKanji);
        if |v| < 2 {
          return Err(MissingReading(x));
        }
        SplitHasSecondField(x, ' ');
        var tmp :- GenerateFurigana(diff(v[0], v[1]));
        var piece := if kanjiCount > 0 then tmp else v[0];
        ret := ret + piece;
      } else {
        MetaStep(lines, i, isKanji, diff);
      }
      i := i + 1;
    }
    assert Markup(lines[i..], isKanji, diff) == Ok("");
    assert ret + "" == ret;
    if highlight != "" {
      return Ok(Highlight(ret, highlight));
    } else {
      return Ok(ret);
    }
  }

  /** A metadata line at index `i` leaves the markup of the rest as it is. */
  lemma MetaStep(lines: seq<string>, i: nat, isKanji: char -> bool, diff: (string, string) -> seq<Segment>)
    requires i < |lines| && lines[i] != EOS && IsMeta(lines[i])
    ensures Markup(lines[i..], isKanji, diff) == Markup(lines[i + 1..], isKanji, diff)
  {
    assert lines[i..] == [lines[i]] + lines[i + 1..];
    MarkupHead(lines[i], lines[i + 1..], isKanji, diff);
  }

  /** A token line at index `i`, after the text `ret` of the lines before it:
      its failure is the failure of the whole markup, and otherwise its
      markup is appended to `ret`. */
  lemma LineStep(lines: seq<string>, i: nat, ret: string, isKanji: char -> bool,
                 diff: (string, string) -> seq<Segment>)
    requires i < |lines| && lines[i] != EOS && !IsMeta(lines[i])
    requires Markup(lines, isKanji, diff) == Prepend(ret, Markup(lines[i..], isKanji, diff))
    ensures var line := LineMarkup(lines[i], isKanji, diff);
      (line.Err? ==> Markup(lines, isKanji, diff) == line) &&
      (line.Ok? ==> Markup(lines, isKanji, diff) == Prepend(ret + line.value, Markup(lines[i + 1..], isKanji, diff)))
  {
    var line := LineMarkup(lines[i], isKanji, diff);
    var rest := Markup(lines[i + 1..], isKanji, diff);
    assert lines[i..] == [lines[i]] + lines[i + 1..];
    MarkupHead(lines[i], lines[i + 1..], isKanji, diff);
    assert Markup(lines[i..], isKanji, diff) == Then(line, rest);
    if line.Ok? {
      PrependPrepend(ret, line.value, rest);
    }
  }

  /** Lines before the first `EOS` are processed independently and their
      contributions are appended in line order. */
  lemma {:induction false} MarkupAppend(pre: seq<string>, post: seq<string>, isKanji: char -> bool,
                                        diff: (string, string) -> seq<Segment>)
    requires EOS !in pre
    ensures Markup(pre + post, isKanji, diff) == Then(Markup(pre, isKanji, diff), Markup(post, isKanji, diff))
    decreases |pre|
  {
    if pre == [] {
      assert pre + post == post;
      ThenEmpty(Markup(post, isKanji, diff));
    } else {
      assert (pre + post)[0] == pre[0];
      assert (pre + post)[1..] == pre[1..] + post;
      assert pre[0] in pre;
      assert EOS !in pre[1..];
      MarkupAppend(pre[1..], post, isKanji, diff);
      if !IsMeta(pre[0]) {
        ThenAssoc(LineMarkup(pre[0], isKanji, diff), Markup(pre[1..], isKanji, diff), Markup(post, isKanji, diff));
      }
    }
  }

  /** `Markup` of lines that start with a line other than `EOS`. */
  lemma MarkupHead(line: string, post: seq<string>, isKanji: char -> bool,
                   diff: (string, string) -> seq<Segment>)
    requires line != EOS
    ensures Markup([line] + post, isKanji, diff)
         == if IsMeta(line) then Markup(post, isKanji, diff)
            else Then(LineMarkup(line, isKanji, diff), Markup(post, isKanji, diff))
  {
    assert ([line] + post)[0] == line;
    assert ([line] + post)[1..] == post;
  }

  /** Nothing at or after the first `EOS` line contributes. */
  lemma StopsAtEos(pre: seq<string>, post: seq<string>, isKanji: char -> bool,
                   diff: (string, string) -> seq<Segment>)
    requires EOS !in pre
    ensures Markup(pre + [EOS] + post, isKanji, diff) == Markup(pre, isKanji, diff)
  {
    calc {
      Markup(pre + [EOS] + post, isKanji, diff);
      { assert pre + [EOS] + post == pre + ([EOS] + post); }
      Markup(pre + ([EOS] + post), isKanji, diff);
      { MarkupAppend(pre, [EOS] + post, isKanji, diff); }
      Then(Markup(pre, isKanji, diff), Markup([EOS] + post, isKanji, diff));
      { assert ([EOS] + post)[0] == EOS; }
      Then(Markup(pre, isKanji, diff), Ok(""));
      { ThenEmpty(Markup(pre, isKanji, diff)); }
      Markup(pre, isKanji, diff);
    }
  }

  /** A metadata line contributes nothing. */
  lemma MetaLineIgnored(pre: seq<string>, line: string, post: seq<string>, isKanji: char -> bool,
                        diff: (string, string) -> seq<Segment>)
    requires EOS !in pre
    requires IsMeta(line)
    ensures Markup(pre + [line] + post, isKanji, diff) == Markup(pre + post, isKanji, diff)
  {
    calc {
      Markup(pre + [line] + post, isKanji, diff);
      { assert pre + [line] + post == pre + ([line] + post); }
      Markup(pre + ([line] + post), isKanji, diff);
      { MarkupAppend(pre, [line] + post, isKanji, diff); }
      Then(Markup(pre, isKanji, diff), Markup([line] + post, isKanji, diff));
      { MarkupHead(line, post, isKanji, diff); }
      Then(Markup(pre, isKanji, diff), Markup(post, isKanji, diff));
      { MarkupAppend(pre, post, isKanji, diff); }
      Markup(pre + post, isKanji, diff);
    }
  }

  /** A token line before the first `EOS` contributes its own markup, between
      that of the lines before it and that of the lines after it. */
  lemma TokenLineInOrder(pre: seq<string>, line: string, post: seq<string>, isKanji: char -> bool,
                         diff: (string, string) -> seq<Segment>)
    requires EOS !in pre
    requires line != EOS && !IsMeta(line)
    ensures Markup(pre + [line] + post, isKanji, diff)
         == Then(Markup(pre, isKanji, diff), Then(LineMarkup(line, isKanji, diff), Markup(post, isKanji, diff)))
  {
    calc {
      Markup(pre + [line] + post, isKanji, diff);
      { assert pre + [line] + post == pre + ([line] + post); }
      Markup(pre + ([line] + post), isKanji, diff);
      { MarkupAppend(pre, [line] + post, isKanji, diff); }
      Then(Markup(pre, isKanji, diff), Markup([line] + post, isKanji, diff));
      { MarkupHead(line, post, isKanji, diff); }
      Then(Markup(pre, isKanji, diff), Then(LineMarkup(line, isKanji, diff), Markup(post, isKanji, diff)));
    }
  }

  /** A kana-only token line such as "です です" yields its surface form,
      provided the diff of the two fields has no trailing removed span. */
  lemma KanaLinePassesThrough(isKanji: char -> bool, diff: (string, string) -> seq<Segment>)
    requires !isKanji('で') && !isKanji('す')
    requires Paired(diff("です", "です"))
    ensures LineMarkup("です です", isKanji, diff) == Ok("です")
  {
    assert "です" + [' '] + "です" == "です です";
    assert Join(["です", "です"], ' ') == "です です";
    SplitJoin(["です", "です"], ' ');
    assert ' ' in "です です" by { assert "です です"[2] == ' '; }
    assert !HasKanji("です", isKanji);
  }
}
