/** Ruby emission for one token: the character diff between the surface form
    and its reading is walked segment by segment, and every removed span is
    paired with the segment after it to form `<ruby><rb>base<rt>reading</ruby>`.
    The diff itself comes from an external diff library and is an input here. */
module Furigana {
  import opened Results

  /** One span of the character diff of surface form against reading:
      common to both, only in the surface (removed), or only in the reading (added). */
  datatype Segment = Same(text: string) | Rem(text: string) | Add(text: string)

  function Ruby(base: string, reading: string): string
  {
    "<ruby><rb>" + base + "<rt>" + reading + "</ruby>"
  }

  /** The markup a removed span `kanji` yields, given the segment after it:
      an added or a common span becomes its reading, another removed span
      yields nothing. */
  function Annotation(kanji: string, next: Segment): (r: string)
    ensures r == "" <==> next.Rem?
    ensures !next.Rem? ==> r == Ruby(kanji, next.text)
  {
    match next
    case Add(furigana) => Ruby(kanji, furigana)
    case Same(furigana) => Ruby(kanji, furigana)
    case Rem(_) => ""
  }

  /** Every removed span has a segment after it, i.e. the last one is not removed. */
  predicate Paired(diffs: seq<Segment>)
  {
    diffs == [] || !diffs[|diffs| - 1].Rem?
  }

  /** What the segment at index `i` contributes, looking one segment ahead. */
  function Contribution(diffs: seq<Segment>, i: nat): (r: string)
    requires i < |diffs|
    requires i + 1 == |diffs| ==> Paired(diffs)
    ensures r != "" ==> diffs[i].Same? || (diffs[i].Rem? && !diffs[i + 1].Rem?)
    ensures diffs[i].Same? ==> r == diffs[i].text
    ensures diffs[i].Rem? && !diffs[i + 1].Rem? ==> r == Ruby(diffs[i].text, diffs[i + 1].text)
  {
    match diffs[i]
    case Rem(kanji) => Annotation(kanji, diffs[i + 1])
    case Same(same) => same
    case Add(_) => ""
  }

  /** The markup of the segments from index `i` on, taken from the front: a
      common span is copied, an added span yields nothing by itself, a removed
      span is annotated with the segment after it (which is then still taken
      on its own), and a removed span at the very end is an error. */
  function RenderFrom(diffs: seq<Segment>, i: nat): (r: Result<string>)
    requires i <= |diffs|
    ensures r.Ok? <==> (i == |diffs| || Paired(diffs))
    ensures i < |diffs| && !Paired(diffs) ==> r == Err(UnpairedRemoval(diffs[|diffs| - 1].text))
    decreases |diffs| - i
  {
    if i == |diffs| then Ok("")
    else if diffs[i].Rem? && i + 1 == |diffs| then Err(UnpairedRemoval(diffs[i].text))
    else Prepend(Contribution(diffs, i), RenderFrom(diffs, i + 1))
  }

  /** The markup of a whole diff. */
  function Render(diffs: seq<Segment>): (r: Result<string>)
    ensures r.Ok? <==> Paired(diffs)
    ensures !Paired(diffs) ==> r == Err(UnpairedRemoval(diffs[|diffs| - 1].text))
  {
    RenderFrom(diffs, 0)
  }

  /** The contributions of the first `n` segments, in order. */
  function Emitted(diffs: seq<Segment>, n: nat): string
    requires n <= |diffs|
    requires n == |diffs| ==> Paired(diffs)
  {
    if n == 0 then "" else Emitted(diffs, n - 1) + Contribution(diffs, n - 1)
  }

  /** Emits the ruby markup of a diff by index, with one-segment lookahead.
      Reading the segment after a final removed span fails. */
  method GenerateFurigana(diffs: seq<Segment>) returns (r: Result<string>)
    ensures r == Render(diffs)
  {
    var text := "";
    for i := 0 to |diffs|
      invariant i == |diffs| ==> Paired(diffs)
      invariant text == Emitted(diffs, i)
    {
      match diffs[i] {
        case Rem(kanji) =>
          if i + 1 == |diffs| {
            return Err(UnpairedRemoval(kanji));
          }
          match diffs[i + 1] {
            case Add(furigana) =>
              text := text + Ruby(kanji, furigana);
            case Same(furigana) =>
              text := text + Ruby(kanji, furigana);
            case Rem(_) =>
          }
        case Same(same) =>
          text := text + same;
        case Add(_) =>
      }
    }
    RenderIsConcatenation(diffs);
    r := Ok(text);
  }

  lemma RenderFromStep(diffs: seq<Segment>, i: nat)
    requires i < |diffs|
    requires i + 1 == |diffs| ==> Paired(diffs)
    ensures RenderFrom(diffs, i) == Prepend(Contribution(diffs, i), RenderFrom(diffs, i + 1))
  {
  }

  lemma {:induction false} RenderAfterPrefix(diffs: seq<Segment>, i: nat)
    requires i <= |diffs|
    requires i == |diffs| ==> Paired(diffs)
    ensures Render(diffs) == Prepend(Emitted(diffs, i), RenderFrom(diffs, i))
  {
    if i == 0 {
      PrependEmpty(Render(diffs));
    } else {
      RenderAfterPrefix(diffs, i - 1);
      RenderAfterPrefixStep(diffs, i);
    }
  }

  lemma RenderAfterPrefixStep(diffs: seq<Segment>, i: nat)
    requires 0 < i <= |diffs|
    requires i == |diffs| ==> Paired(diffs)
    requires Render(diffs) == Prepend(Emitted(diffs, i - 1), RenderFrom(diffs, i - 1))
    ensures Render(diffs) == Prepend(Emitted(diffs, i), RenderFrom(diffs, i))
  {
    var before, piece := Emitted(diffs, i - 1), Contribution(diffs, i - 1);
    RenderFromStep(diffs, i - 1);
    PrependPrepend(before, piece, RenderFrom(diffs, i));
    assert Emitted(diffs, i) == before + piece;
  }

  /** The markup of a diff is the in-order concatenation of what each segment
      contributes under the index-and-lookahead reading. */
  lemma RenderIsConcatenation(diffs: seq<Segment>)
    requires Paired(diffs)
    ensures Render(diffs) == Ok(Emitted(diffs, |diffs|))
  {
    RenderAfterPrefix(diffs, |diffs|);
    var emitted := Emitted(diffs, |diffs|);
    assert emitted + "" == emitted;
  }

  /** The markup of `b` does not depend on what precedes it. */
  lemma {:induction false} RenderFromShift(a: seq<Segment>, b: seq<Segment>, j: nat)
    requires j <= |b|
    ensures RenderFrom(a + b, |a| + j) == RenderFrom(b, j)
    decreases |b| - j
  {
    if j < |b| {
      RenderFromShift(a, b, j + 1);
      assert (a + b)[|a| + j] == b[j];
      if j + 1 < |b| {
        assert (a + b)[|a| + j + 1] == b[j + 1];
      } else {
        assert (a + b)[|a + b| - 1] == b[|b| - 1];
      }
    }
  }

  /** `Render` read from the front: the first segment's contribution, then
      the markup of the others. */
  lemma RenderCons(diffs: seq<Segment>)
    requires diffs != []
    ensures Render(diffs) ==
      match diffs[0]
      case Same(same) => Prepend(same, Render(diffs[1..]))
      case Add(_) => Render(diffs[1..])
      case Rem(kanji) =>
        if |diffs| == 1 then Err(UnpairedRemoval(kanji))
        else Prepend(Annotation(kanji, diffs[1]), Render(diffs[1..]))
  {
    assert diffs == [diffs[0]] + diffs[1..];
    RenderFromShift([diffs[0]], diffs[1..], 0);
    if !diffs[0].Rem? {
      PrependEmpty(Render(diffs[1..]));
    }
  }

  lemma ThenPrepend(s: string, first: Result<string>, second: Result<string>)
    ensures Then(Prepend(s, first), second) == Prepend(s, Then(first, second))
  {
    if first.Ok? {
      PrependPrepend(s, first.value, second);
    }
  }

  lemma {:induction false} RenderFromConcat(a: seq<Segment>, b: seq<Segment>, i: nat)
    requires Paired(a) && i <= |a|
    ensures RenderFrom(a + b, i) == Then(RenderFrom(a, i), Render(b))
    decreases |a| - i
  {
    if i == |a| {
      RenderFromShift(a, b, 0);
      ThenEmpty(Render(b));
    } else {
      RenderFromConcat(a, b, i + 1);
      RenderFromConcatStep(a, b, i);
    }
  }

  lemma RenderFromConcatStep(a: seq<Segment>, b: seq<Segment>, i: nat)
    requires Paired(a) && i < |a|
    requires RenderFrom(a + b, i + 1) == Then(RenderFrom(a, i + 1), Render(b))
    ensures RenderFrom(a + b, i) == Then(RenderFrom(a, i), Render(b))
  {
    var c := Contribution(a, i);
    var rest := RenderFrom(a, i + 1);
    ContributionInConcat(a, b, i);
    RenderFromStep(a + b, i);
    RenderFromStep(a, i);
    ThenPrepend(c, rest, Render(b));
  }

  lemma ContributionInConcat(a: seq<Segment>, b: seq<Segment>, i: nat)
    requires Paired(a) && i < |a|
    ensures !(a + b)[i].Rem? || i + 1 < |a + b|
    ensures Contribution(a + b, i) == Contribution(a, i)
  {
    assert (a + b)[i] == a[i];
    if a[i].Rem? {
      assert (a + b)[i + 1] == a[i + 1];
    }
  }

  /** Markup is compositional at any point not directly after a removed span. */
  lemma RenderConcat(a: seq<Segment>, b: seq<Segment>)
    requires Paired(a)
    ensures Render(a + b) == Then(Render(a), Render(b))
  {
    RenderFromConcat(a, b, 0);
  }

  /** Render of a diff that starts with a removed span and its successor. */
  lemma RenderPairHead(kanji: string, next: Segment, post: seq<Segment>)
    ensures Render([Rem(kanji), next] + post) == Prepend(Annotation(kanji, next), Render([next] + post))
  {
    var s := [Rem(kanji), next] + post;
    RenderCons(s);
    assert s[0] == Rem(kanji) && s[1] == next;
    assert s[1..] == [next] + post;
  }

  /** Render of a diff that starts with a segment other than a removed span. */
  lemma RenderHead(first: Segment, post: seq<Segment>)
    requires !first.Rem?
    ensures Render([first] + post) == Prepend(if first.Same? then first.text else "", Render(post))
  {
    var s := [first] + post;
    RenderCons(s);
    assert s[0] == first;
    assert s[1..] == post;
    if first.Add? {
      PrependEmpty(Render(post));
    }
  }

  /** A removed span followed by an added span, anywhere in the diff, emits
      exactly one ruby annotation, and the added span emits nothing more. */
  lemma RemovedThenAdded(pre: seq<Segment>, kanji: string, furigana: string, post: seq<Segment>)
    requires Paired(pre)
    ensures Render(pre + [Rem(kanji), Add(furigana)] + post)
         == Then(Render(pre), Prepend(Ruby(kanji, furigana), Render(post)))
  {
    assert pre + [Rem(kanji), Add(furigana)] + post == pre + ([Rem(kanji), Add(furigana)] + post);
    RenderConcat(pre, [Rem(kanji), Add(furigana)] + post);
    RenderPairHead(kanji, Add(furigana), post);
    RenderHead(Add(furigana), post);
    PrependEmpty(Render(post));
  }

  /** A removed span followed by a common span, anywhere in the diff, uses the
      common text as its reading and then also copies that text once more. */
  lemma RemovedThenCommon(pre: seq<Segment>, kanji: string, furigana: string, post: seq<Segment>)
    requires Paired(pre)
    ensures Render(pre + [Rem(kanji), Same(furigana)] + post)
         == Then(Render(pre), Prepend(Ruby(kanji, furigana) + furigana, Render(post)))
  {
    assert pre + [Rem(kanji), Same(furigana)] + post == pre + ([Rem(kanji), Same(furigana)] + post);
    RenderConcat(pre, [Rem(kanji), Same(furigana)] + post);
    RenderPairHead(kanji, Same(furigana), post);
    RenderHead(Same(furigana), post);
    PrependPrepend(Ruby(kanji, furigana), furigana, Render(post));
  }

  /** A removed span followed by another removed span emits nothing. */
  lemma RemovedThenRemoved(pre: seq<Segment>, kanji: string, other: string, post: seq<Segment>)
    requires Paired(pre)
    ensures Render(pre + [Rem(kanji), Rem(other)] + post) == Render(pre + [Rem(other)] + post)
  {
    assert pre + [Rem(kanji), Rem(other)] + post == pre + ([Rem(kanji), Rem(other)] + post);
    assert pre + [Rem(other)] + post == pre + ([Rem(other)] + post);
    RenderConcat(pre, [Rem(kanji), Rem(other)] + post);
    RenderConcat(pre, [Rem(other)] + post);
    RenderPairHead(kanji, Rem(other), post);
    PrependEmpty(Render([Rem(other)] + post));
  }

  /** An added span that does not follow a removed span can be deleted
      without changing the markup. */
  lemma AddedAloneEmitsNothing(pre: seq<Segment>, furigana: string, post: seq<Segment>)
    requires Paired(pre)
    ensures Render(pre + [Add(furigana)] + post) == Render(pre + post)
  {
    calc {
      Render(pre + [Add(furigana)] + post);
      { assert pre + [Add(furigana)] + post == pre + ([Add(furigana)] + post); }
      Render(pre + ([Add(furigana)] + post));
      { RenderConcat(pre, [Add(furigana)] + post); }
      Then(Render(pre), Render([Add(furigana)] + post));
      { RenderHead(Add(furigana), post); PrependEmpty(Render(post)); }
      Then(Render(pre), Render(post));
      { RenderConcat(pre, post); }
      Render(pre + post);
    }
  }

  /** The surface form the diff library rebuilds from common and removed spans. */
  function Surface(diffs: seq<Segment>): string
  {
    if diffs == [] then ""
    else if diffs[0].Add? then Surface(diffs[1..])
    else diffs[0].text + Surface(diffs[1..])
  }

  /** The reading the diff library rebuilds from common and added spans. */
  function Reading(diffs: seq<Segment>): string
  {
    if diffs == [] then ""
    else if diffs[0].Rem? then Reading(diffs[1..])
    else diffs[0].text + Reading(diffs[1..])
  }

  /** Without removed spans nothing is annotated: the markup is the surface
      form rebuilt from the diff. */
  lemma {:induction false} NoRemovalGivesSurface(diffs: seq<Segment>)
    requires forall i :: 0 <= i < |diffs| ==> !diffs[i].Rem?
    ensures Render(diffs) == Ok(Surface(diffs))
  {
    if diffs != [] {
      RenderCons(diffs);
      NoRemovalGivesSurface(diffs[1..]);
    }
  }

  /** A diff made only of common spans renders as their concatenation, which
      is both the surface form and the reading. */
  lemma {:induction false} AllCommon(diffs: seq<Segment>)
    requires forall i :: 0 <= i < |diffs| ==> diffs[i].Same?
    ensures Render(diffs) == Ok(Surface(diffs))
    ensures Surface(diffs) == Reading(diffs)
  {
    NoRemovalGivesSurface(diffs);
    if diffs != [] {
      AllCommon(diffs[1..]);
    }
  }

  /** Surface "食べる" against reading "たべる". */
  lemma Taberu()
    ensures Render([Rem("食"), Add("た"), Same("べる")]) == Ok("<ruby><rb>食<rt>た</ruby>べる")
  {
    assert [Rem("食"), Add("た"), Same("べる")] == [Rem("食"), Add("た")] + [Same("べる")];
    RenderPairHead("食", Add("た"), [Same("べる")]);
    RenderHead(Add("た"), [Same("べる")]);
    assert [Same("べる")] == [Same("べる")] + [];
    RenderHead(Same("べる"), []);
    assert Render([]) == Ok("");
    assert "べる" + "" == "べる";
    assert Render([Same("べる")]) == Ok("べる");
    assert Render([Add("た"), Same("べる")]) == Ok("" + "べる");
    assert Ruby("食", "た") + ("" + "べる") == "<ruby><rb>食<rt>た</ruby>べる";
  }
}
