/** The highlight pass: every occurrence of a literal string in the assembled
    markup is wrapped in `<b>…</b>`. The highlight string is escaped before it
    is compiled as a pattern, so matching is literal; occurrences are found
    left to right and never overlap, the search resuming after each match. */
module Highlighting {

  function Bold(h: string): string
  {
    "<b>" + h + "</b>"
  }

  /** `h` occurs in `s` starting at index `p`. */
  predicate OccursAt(h: string, s: string, p: nat)
  {
    p + |h| <= |s| && s[p..p + |h|] == h
  }

  predicate Occurs(h: string, s: string)
  {
    exists p: nat | p <= |s| :: OccursAt(h, s, p)
  }

  /** The scan from index `i` on: at each position either `h` starts there
      and is made bold, the scan resuming after it, or one character is
      copied; the tail too short to hold `h` is copied. */
  function HighlightFrom(s: string, h: string, i: nat): (r: string)
    requires h != [] && i <= |s|
    ensures |r| >= |s| - i
    decreases |s| - i
  {
    if i + |h| > |s| then s[i..]
    else if s[i..i + |h|] == h then Bold(h) + HighlightFrom(s, h, i + |h|)
    else [s[i]] + HighlightFrom(s, h, i + 1)
  }

  /** `s` with every leftmost, non-overlapping occurrence of `h` made bold.
      Nothing is removed: the text never gets shorter, and where `h` occurs
      it gains at least one pair of tags and still contains `h`. */
  function Highlight(s: string, h: string): (r: string)
    requires h != []
    ensures |r| >= |s|
    ensures Occurs(h, s) ==> |r| >= |s| + |Bold("")| && Occurs(h, r)
  {
    MatchSomewhere(s, h);
    HighlightFrom(s, h, 0)
  }

  lemma MatchSomewhere(s: string, h: string)
    requires h != []
    ensures Occurs(h, s) ==> |HighlightFrom(s, h, 0)| >= |s| + |Bold("")| && Occurs(h, HighlightFrom(s, h, 0))
  {
    if Occurs(h, s) {
      var p: nat :| p <= |s| && OccursAt(h, s, p);
      MatchFrom(s, h, 0, p);
    }
  }

  /** The first match at or after `i` decides the result: the text before it
      is copied, the match is made bold, and the scan resumes right after it. */
  lemma {:induction false} LeftmostFrom(s: string, h: string, i: nat, p: nat)
    requires h != [] && i <= p
    requires OccursAt(h, s, p)
    requires forall q: nat :: i <= q < p ==> !OccursAt(h, s, q)
    ensures HighlightFrom(s, h, i) == s[i..p] + (Bold(h) + HighlightFrom(s, h, p + |h|))
    decreases p - i
  {
    if i == p {
      MatchAt(s, h, p);
      assert s[i..p] == [];
      assert [] + (Bold(h) + HighlightFrom(s, h, p + |h|)) == Bold(h) + HighlightFrom(s, h, p + |h|);
    } else {
      var after := Bold(h) + HighlightFrom(s, h, p + |h|);
      calc {
        HighlightFrom(s, h, i);
        { SkipFrom(s, h, i); }
        [s[i]] + HighlightFrom(s, h, i + 1);
        { LeftmostFrom(s, h, i + 1, p); }
        [s[i]] + (s[i + 1..p] + after);
        { ConsAssoc(s[i], s[i + 1..p], after); }
        ([s[i]] + s[i + 1..p]) + after;
        { assert s[i..p] == [s[i]] + s[i + 1..p]; }
        s[i..p] + after;
      }
    }
  }

  /** Where a match starts at `i`, it is made bold and the scan skips it. */
  lemma MatchAt(s: string, h: string, i: nat)
    requires h != []
    requires OccursAt(h, s, i)
    ensures HighlightFrom(s, h, i) == Bold(h) + HighlightFrom(s, h, i + |h|)
  {
  }

  /** Where no match starts at `i`, the character there is copied. */
  lemma SkipFrom(s: string, h: string, i: nat)
    requires h != [] && i + |h| <= |s|
    requires !OccursAt(h, s, i)
    ensures HighlightFrom(s, h, i) == [s[i]] + HighlightFrom(s, h, i + 1)
  {
  }

  lemma ConsAssoc(c: char, a: string, b: string)
    ensures [c] + (a + b) == ([c] + a) + b
  {
  }

  /** The leftmost match in `s` is made bold, everything before it is copied
      unchanged, and the scan resumes right after the match. */
  lemma HighlightLeftmost(s: string, h: string, p: nat)
    requires h != []
    requires OccursAt(h, s, p)
    requires forall q: nat :: q < p ==> !OccursAt(h, s, q)
    ensures Highlight(s, h) == s[..p] + (Bold(h) + HighlightFrom(s, h, p + |h|))
  {
    LeftmostFrom(s, h, 0, p);
    assert s[0..p] == s[..p];
  }

  lemma {:induction false} NoMatchFrom(s: string, h: string, i: nat)
    requires h != [] && i <= |s|
    requires forall q: nat :: i <= q ==> !OccursAt(h, s, q)
    ensures HighlightFrom(s, h, i) == s[i..]
    decreases |s| - i
  {
    if i + |h| <= |s| {
      NoMatchFrom(s, h, i + 1);
      SkipFrom(s, h, i);
      assert s[i..] == [s[i]] + s[i + 1..];
    }
  }

  /** Without an occurrence of `h` the text is returned unchanged. */
  lemma HighlightNoMatch(s: string, h: string)
    requires h != []
    requires !Occurs(h, s)
    ensures Highlight(s, h) == s
  {
    forall q: nat
      ensures !OccursAt(h, s, q)
    {
      if q <= |s| {
        assert !OccursAt(h, s, q);
      }
    }
    NoMatchFrom(s, h, 0);
  }

  /** An occurrence in `t` is one place further on in `[c] + t`. */
  lemma OccursAfterChar(h: string, c: char, t: string, q: nat)
    requires OccursAt(h, t, q)
    ensures OccursAt(h, [c] + t, q + 1)
  {
    assert ([c] + t)[q + 1..q + 1 + |h|] == t[q..q + |h|];
  }

  lemma BoldOccurs(h: string, t: string)
    ensures OccursAt(h, Bold(h) + t, 3)
  {
    assert (Bold(h) + t)[3..3 + |h|] == h;
  }

  /** With an occurrence of `h` at or after `i`, the scan grows the text by at
      least one pair of tags and its output still contains `h`. */
  lemma {:induction false} MatchFrom(s: string, h: string, i: nat, p: nat)
    requires h != [] && i <= p
    requires OccursAt(h, s, p)
    ensures |HighlightFrom(s, h, i)| >= |s| - i + |Bold("")|
    ensures Occurs(h, HighlightFrom(s, h, i))
    decreases p - i
  {
    if OccursAt(h, s, i) {
      MatchAt(s, h, i);
      BoldOccurs(h, HighlightFrom(s, h, i + |h|));
    } else {
      SkipFrom(s, h, i);
      MatchFrom(s, h, i + 1, p);
      var rest := HighlightFrom(s, h, i + 1);
      var q: nat :| q <= |rest| && OccursAt(h, rest, q);
      OccursAfterChar(h, s[i], rest, q);
    }
  }

  /** The pass changes the text exactly when `h` occurs in it. */
  lemma HighlightChangesIffOccurs(s: string, h: string)
    requires h != []
    ensures Highlight(s, h) != s <==> Occurs(h, s)
  {
    if !Occurs(h, s) {
      HighlightNoMatch(s, h);
    }
  }

  /** The pass is not idempotent: applied to its own output it wraps the
      bold text again. */
  lemma HighlightNotIdempotent(s: string, h: string)
    requires h != []
    requires Occurs(h, s)
    ensures Highlight(Highlight(s, h), h) != Highlight(s, h)
  {
    HighlightChangesIffOccurs(Highlight(s, h), h);
  }
}
