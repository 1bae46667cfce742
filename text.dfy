/** The two pieces of string-library behaviour the analyzer-output processor
    relies on: splitting the output into lines, and splitting a line on a
    single space. Both follow the current Rust standard library, edge cases
    included. */
module Text {

  /** Position of the first occurrence of `c` in `s`. */
  function IndexOf(s: string, c: char): (n: nat)
    requires c in s
    ensures n < |s| && s[n] == c && c !in s[..n]
  {
    if s[0] == c then 0 else 1 + IndexOf(s[1..], c)
  }

  lemma {:induction false} IndexOfFirst(s: string, c: char, m: nat)
    requires m < |s| && s[m] == c && c !in s[..m]
    ensures IndexOf(s, c) == m
  {
    if m > 0 {
      assert s[0] == s[..m][0];
      assert s[1..][..m - 1] == s[..m][1..];
      IndexOfFirst(s[1..], c, m - 1);
    }
  }

  /** Splits `s` at every occurrence of `sep`; empty fields are kept, so a
      string without `sep` is one field and `k` separators give `k + 1` fields. */
  function Split(s: string, sep: char): (fields: seq<string>)
    ensures |fields| >= 1
    decreases |s|
  {
    if sep !in s then [s]
    else
      var n := IndexOf(s, sep);
      [s[..n]] + Split(s[n + 1..], sep)
  }

  /** No field contains the separator. */
  lemma {:induction false} SplitFieldsSeparatorFree(s: string, sep: char)
    ensures forall k :: 0 <= k < |Split(s, sep)| ==> sep !in Split(s, sep)[k]
    decreases |s|
  {
    if sep in s {
      var n := IndexOf(s, sep);
      SplitFieldsSeparatorFree(s[n + 1..], sep);
      var rest := Split(s[n + 1..], sep);
      assert Split(s, sep) == [s[..n]] + rest;
      forall k | 0 <= k < |Split(s, sep)|
        ensures sep !in Split(s, sep)[k]
      {
        if k > 0 {
          assert Split(s, sep)[k] == rest[k - 1];
        }
      }
    }
  }

  /** Inverse of `Split`: the fields glued back with `sep` between them. */
  function Join(fields: seq<string>, sep: char): string
  {
    if fields == [] then ""
    else if |fields| == 1 then fields[0]
    else fields[0] + [sep] + Join(fields[1..], sep)
  }

  lemma JoinCons(field: string, rest: seq<string>, sep: char)
    requires |rest| >= 1
    ensures Join([field] + rest, sep) == field + [sep] + Join(rest, sep)
  {
    assert ([field] + rest)[1..] == rest;
  }

  lemma {:induction false} JoinSplit(s: string, sep: char)
    ensures Join(Split(s, sep), sep) == s
    decreases |s|
  {
    if sep in s {
      var n := IndexOf(s, sep);
      var rest := Split(s[n + 1..], sep);
      JoinSplit(s[n + 1..], sep);
      calc {
        Join(Split(s, sep), sep);
        Join([s[..n]] + rest, sep);
        { JoinCons(s[..n], rest, sep); }
        s[..n] + [sep] + Join(rest, sep);
        s[..n] + [sep] + s[n + 1..];
        { assert s == s[..n] + [s[n]] + s[n + 1..]; }
        s;
      }
    }
  }

  lemma {:induction false} SplitJoin(fields: seq<string>, sep: char)
    requires |fields| >= 1
    requires forall f :: f in fields ==> sep !in f
    ensures Split(Join(fields, sep), sep) == fields
    decreases |fields|
  {
    if |fields| > 1 {
      var s := Join(fields, sep);
      var head := fields[0];
      var tail := Join(fields[1..], sep);
      assert s == head + [sep] + tail;
      assert s[|head|] == sep;
      assert sep in s;
      var n := IndexOf(s, sep);
      assert s[..|head|] == head;
      IndexOfFirst(s, sep, |head|);
      assert s[..n] == head;
      assert s[n + 1..] == tail;
      SplitJoin(fields[1..], sep);
    }
  }

  /** The number of fields exceeds one exactly when the separator occurs. */
  lemma SplitHasSecondField(s: string, sep: char)
    ensures |Split(s, sep)| >= 2 <==> sep in s
  {
    if sep in s {
      var n := IndexOf(s, sep);
      assert |Split(s, sep)| == 1 + |Split(s[n + 1..], sep)|;
    }
  }

  /** Drops one carriage return at the end of a line, if there is one. */
  function StripCR(line: string): string
  {
    if line != [] && line[|line| - 1] == '\r' then line[..|line| - 1] else line
  }

  /** The lines of `s`: split after each line feed, with the line feed and a
      carriage return immediately before it removed. A final line without a
      line feed is kept as it is, and no empty line follows a final line feed. */
  function Lines(s: string): (lines: seq<string>)
    ensures s == [] <==> lines == []
    decreases |s|
  {
    if s == [] then []
    else if '\n' !in s then [s]
    else
      var n := IndexOf(s, '\n');
      [StripCR(s[..n])] + Lines(s[n + 1..])
  }

  /** The line feed that may end `s`, as a string of its own. */
  function FinalNewline(s: string): string
  {
    if s != [] && s[|s| - 1] == '\n' then "\n" else ""
  }

  /** Without carriage returns, the lines joined by line feeds give back the
      text, up to the one optional line feed at its end. */
  lemma {:induction false} LinesRoundTrip(s: string)
    requires '\r' !in s
    ensures Join(Lines(s), '\n') + FinalNewline(s) == s
    decreases |s|
  {
    if s != [] && '\n' in s {
      var n := IndexOf(s, '\n');
      var head, rest := s[..n], s[n + 1..];
      assert s == head + "\n" + rest by {
        assert s == s[..n] + [s[n]] + s[n + 1..];
      }
      assert StripCR(head) == head by {
        if n > 0 { assert s[n - 1] in s; }
      }
      assert Lines(s) == [head] + Lines(rest);
      if rest == [] {
        assert Lines(s) == [head];
      } else {
        assert '\r' !in rest by {
          assert forall k :: 0 <= k < |rest| ==> rest[k] == s[n + 1 + k];
        }
        LinesRoundTrip(rest);
        LinesStep(head, Lines(rest));
        GlueLine(s, head, rest, Join(Lines(rest), '\n'));
      }
    }
  }

  lemma LinesStep(head: string, tail: seq<string>)
    requires tail != []
    ensures Join([head] + tail, '\n') == head + "\n" + Join(tail, '\n')
  {
    assert ([head] + tail)[1..] == tail;
  }

  lemma GlueLine(s: string, head: string, rest: string, joined: string)
    requires s == head + "\n" + rest && rest != []
    requires joined + FinalNewline(rest) == rest
    ensures head + "\n" + joined + FinalNewline(s) == s
  {
    assert s[|s| - 1] == rest[|rest| - 1];
    assert FinalNewline(s) == FinalNewline(rest);
    assert head + "\n" + joined + FinalNewline(rest) == head + "\n" + (joined + FinalNewline(rest));
  }
}
