/**
 * Rust's `str::lines`, as used by both title heuristics: the text is split
 * at every '\n', each line loses one trailing '\r', and a trailing '\n'
 * does not produce an empty final line.
 */
module Text {

  predicate StartsWith(s: string, prefix: string)
  {
    |prefix| <= |s| && s[..|prefix|] == prefix
  }

  /** Index of the first '\n' of `s`, or `|s|` when it has none. */
  function LineEnd(s: string): (i: nat)
    ensures i <= |s|
    ensures i < |s| ==> s[i] == '\n'
    ensures forall k :: 0 <= k < i ==> s[k] != '\n'
  {
    if s == [] || s[0] == '\n' then 0 else 1 + LineEnd(s[1..])
  }

  /** A line without its one trailing carriage return, if it has one. */
  function StripCr(line: string): (r: string)
    ensures r == line || line == r + "\r"
    ensures |line| > 0 && line[|line| - 1] == '\r' ==> |r| == |line| - 1
  {
    if |line| > 0 && line[|line| - 1] == '\r' then line[..|line| - 1] else line
  }

  /** The lines of `text`, in order. */
  function Lines(text: string): (ls: seq<string>)
    ensures text == [] <==> ls == []
    ensures forall j :: 0 <= j < |ls| ==> '\n' !in ls[j]
    decreases |text|
  {
    if text == [] then []
    else
      var i := LineEnd(text);
      if i == |text| then [StripCr(text)]
      else [StripCr(text[..i])] + Lines(text[i + 1..])
  }

  /** Every line followed by a '\n'. */
  function Terminated(ls: seq<string>): string
  {
    if ls == [] then [] else ls[0] + "\n" + Terminated(ls[1..])
  }

  predicate NoCarriageReturn(s: string)
  {
    forall k :: 0 <= k < |s| ==> s[k] != '\r'
  }

  /**
   * Round trip: for a text without carriage returns, putting a '\n' after
   * every line gives the text back, with a final '\n' added when it had none.
   */
  lemma {:induction false} LinesRoundTrip(text: string)
    requires NoCarriageReturn(text)
    ensures Terminated(Lines(text)) ==
            if text == [] || text[|text| - 1] == '\n' then text else text + "\n"
    decreases |text|
  {
    if text != [] {
      var i := LineEnd(text);
      var head := text[..i];
      assert StripCr(head) == head by {
        if |head| > 0 { assert head[|head| - 1] == text[i - 1]; }
      }
      if i < |text| {
        var tail := text[i + 1..];
        assert NoCarriageReturn(tail) by {
          forall k | 0 <= k < |tail| ensures tail[k] != '\r' { assert tail[k] == text[i + 1 + k]; }
        }
        LinesRoundTrip(tail);
        assert text == head + "\n" + tail;
        assert Lines(text) == [head] + Lines(tail);
        if tail != [] {
          assert text[|text| - 1] == tail[|tail| - 1];
        }
      } else {
        assert head == text;
      }
    }
  }

  /** Where the first line break of `a + b` is. */
  lemma {:induction false} LineEndConcat(a: string, b: string)
    ensures LineEnd(a + b) == if LineEnd(a) < |a| then LineEnd(a) else |a| + LineEnd(b)
    decreases |a|
  {
    if a == [] {
      assert a + b == b;
    } else if a[0] != '\n' {
      assert (a + b)[1..] == a[1..] + b;
      LineEndConcat(a[1..], b);
    }
  }

  /**
   * Appending a line break and anything after it keeps every line of the
   * original text, in order, at the front of the new text's lines.
   */
  lemma {:induction false} LinesPrefixOnAppend(text: string, more: string)
    ensures |Lines(text)| <= |Lines(text + "\n" + more)|
    ensures Lines(text) == Lines(text + "\n" + more)[..|Lines(text)|]
    decreases |text|
  {
    var u := text + "\n" + more;
    if text != [] {
      var i := LineEnd(text);
      assert u == text + ("\n" + more);
      LineEndConcat(text, "\n" + more);
      assert LineEnd("\n" + more) == 0;
      if i == |text| {
        assert LineEnd(u) == |text|;
        assert u[..|text|] == text;
        assert Lines(u)[0] == StripCr(text);
      } else {
        assert LineEnd(u) == i;
        assert u[..i] == text[..i];
        assert u[i + 1..] == text[i + 1..] + "\n" + more;
        LinesPrefixOnAppend(text[i + 1..], more);
      }
    }
  }

  /** A line break splits off exactly one line. */
  lemma LinesOfLineThen(line: string, rest: string)
    requires '\n' !in line
    ensures Lines(line + "\n" + rest) == [StripCr(line)] + Lines(rest)
  {
    var u := line + "\n" + rest;
    assert u == line + ("\n" + rest);
    LineEndConcat(line, "\n" + rest);
    assert u[..|line|] == line;
    assert u[|line| + 1..] == rest;
  }

  /** A text with no line break is a single line. */
  lemma LinesOfSingleLine(line: string)
    requires line != []
    requires '\n' !in line
    ensures Lines(line) == [StripCr(line)]
  {
  }
}
