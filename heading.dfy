/**
 * The title heuristic of `find_heading`: the first line that starts with
 * the marker "# " is the heading, and every leading repetition of the
 * marker is trimmed off it (`trim_start_matches`). An empty remainder is
 * kept as an empty title.
 */
module Heading {
  import opened Wrappers
  import opened Text

  /** The heading marker: '#' followed by one space. */
  const Marker: string := "# "

  /** The starter text the editor is opened with (`DEFAULT_TEMPLATE`). */
  const DefaultTemplate: string := "# "

  predicate IsHeadingLine(line: string)
  {
    StartsWith(line, Marker)
  }

  /** `p` is made of zero or more copies of the marker. */
  predicate IsMarkerRun(p: string)
    decreases |p|
  {
    p == [] || (StartsWith(p, Marker) && IsMarkerRun(p[|Marker|..]))
  }

  /**
   * `s.trim_start_matches("# ")`: the result is what is left of `s` after
   * its longest run of leading markers.
   */
  function TrimMarkers(s: string): (r: string)
    ensures |r| <= |s| && r == s[|s| - |r|..]
    ensures IsMarkerRun(s[..|s| - |r|])
    ensures !StartsWith(r, Marker)
    decreases |s|
  {
    if StartsWith(s, Marker) then
      var r := TrimMarkers(s[|Marker|..]);
      assert s[..|s| - |r|][|Marker|..] == s[|Marker|..][..|s| - |Marker| - |r|];
      r
    else
      assert s[..0] == [];
      s
  }

  /**
   * TrimMarkers is determined by its contract: whatever follows a run of
   * markers, when it does not itself start with the marker, is the result.
   */
  lemma {:induction false} TrimMarkersOfRun(run: string, rest: string)
    requires IsMarkerRun(run)
    requires !StartsWith(rest, Marker)
    ensures TrimMarkers(run + rest) == rest
    decreases |run|
  {
    if run == [] {
      assert run + rest == rest;
    } else {
      assert (run + rest)[..|Marker|] == run[..|Marker|];
      assert (run + rest)[|Marker|..] == run[|Marker|..] + rest;
      TrimMarkersOfRun(run[|Marker|..], rest);
    }
  }

  /** Index of the first heading line (`Iterator::find`). */
  function FirstHeading(lines: seq<string>): (r: Option<nat>)
    ensures r.None? <==> forall j :: 0 <= j < |lines| ==> !IsHeadingLine(lines[j])
    ensures r.Some? ==> r.value < |lines| && IsHeadingLine(lines[r.value]) &&
                        forall j :: 0 <= j < r.value ==> !IsHeadingLine(lines[j])
  {
    if lines == [] then None
    else if IsHeadingLine(lines[0]) then Some(0)
    else match FirstHeading(lines[1..])
      case None => None
      case Some(k) => Some(k + 1)
  }

  /** The first heading survives when more lines are added after the ones searched. */
  lemma {:induction false} FirstHeadingOfExtension(lines: seq<string>, longer: seq<string>)
    requires |lines| <= |longer| && lines == longer[..|lines|]
    requires FirstHeading(lines).Some?
    ensures FirstHeading(longer) == FirstHeading(lines)
  {
    assert lines[0] == longer[0];
    if !IsHeadingLine(lines[0]) {
      assert lines[1..] == longer[1..][..|lines| - 1];
      FirstHeadingOfExtension(lines[1..], longer[1..]);
    }
  }

  /** Some line of `text` is a heading line. */
  predicate HasHeadingLine(text: string)
  {
    exists j :: 0 <= j < |Lines(text)| && IsHeadingLine(Lines(text)[j])
  }

  /** Line `k` of `text` is its first heading line. */
  predicate IsFirstHeadingLine(text: string, k: nat)
  {
    k < |Lines(text)| && IsHeadingLine(Lines(text)[k]) &&
    forall j :: 0 <= j < k ==> !IsHeadingLine(Lines(text)[j])
  }

  /** `find_heading`: the first heading line of the text, its markers trimmed. */
  function FindHeading(edited: string): (r: Option<string>)
    ensures r.None? <==> !HasHeadingLine(edited)
    ensures r.Some? ==> exists k: nat :: IsFirstHeadingLine(edited, k) &&
                                    r.value == TrimMarkers(Lines(edited)[k])
  {
    var lines := Lines(edited);
    match FirstHeading(lines)
    case None => None
    case Some(k) =>
      assert IsFirstHeadingLine(edited, k);
      Some(TrimMarkers(lines[k]))
  }

  /**
   * A found title is a suffix of its heading line, what was cut off is
   * nothing but markers (at least one), and it does not start with the
   * marker any more.
   */
  lemma FoundTitleIsTrimmedLine(edited: string)
    requires FindHeading(edited).Some?
    ensures var t := FindHeading(edited).value;
            exists k :: 0 <= k < |Lines(edited)| &&
              var line := Lines(edited)[k];
              |t| + |Marker| <= |line| && t == line[|line| - |t|..] &&
              IsMarkerRun(line[..|line| - |t|]) && !StartsWith(t, Marker)
  {
    var k := FirstHeading(Lines(edited)).value;
    var line := Lines(edited)[k];
    assert StartsWith(line, Marker);
    assert TrimMarkers(line) == TrimMarkers(line[|Marker|..]);
  }

  /** Only the first heading counts: text appended on later lines never changes the title. */
  lemma LaterLinesIgnored(edited: string, more: string)
    requires HasHeadingLine(edited)
    ensures FindHeading(edited + "\n" + more) == FindHeading(edited)
  {
    LinesPrefixOnAppend(edited, more);
    FirstHeadingOfExtension(Lines(edited), Lines(edited + "\n" + more));
    var k := FirstHeading(Lines(edited)).value;
    assert Lines(edited)[k] == Lines(edited + "\n" + more)[k];
  }

  /** The heading is searched line by line: a first line decides when it is a heading. */
  lemma FindHeadingLineByLine(line: string, rest: string)
    requires '\n' !in line
    ensures FindHeading(line + "\n" + rest) ==
            if IsHeadingLine(StripCr(line)) then Some(TrimMarkers(StripCr(line))) else FindHeading(rest)
  {
    LinesOfLineThen(line, rest);
    var lines := Lines(line + "\n" + rest);
    assert lines[1..] == Lines(rest);
  }

  /** The same for a last line, which has no line break after it. */
  lemma FindHeadingLastLine(line: string)
    requires line != []
    requires '\n' !in line
    ensures FindHeading(line) ==
            if IsHeadingLine(StripCr(line)) then Some(TrimMarkers(StripCr(line))) else None
  {
    LinesOfSingleLine(line);
  }

  /** The untouched template gives an empty title, not the absence of one. */
  lemma DefaultTemplateGivesEmptyTitle()
    ensures FindHeading(DefaultTemplate) == Some("")
  {
    FindHeadingLastLine(DefaultTemplate);
    assert StripCr(DefaultTemplate) == DefaultTemplate;
    assert TrimMarkers(DefaultTemplate) == TrimMarkers([]) by {
      assert DefaultTemplate[|Marker|..] == [];
    }
  }

  /** All leading markers go: "# # A" has the title "A". */
  lemma RepeatedMarkersTrimmed()
    ensures FindHeading("# # A") == Some("A")
  {
    FindHeadingLastLine("# # A");
    assert StripCr("# # A") == "# # A";
    assert TrimMarkers("# # A") == TrimMarkers("# A") by { assert "# # A"[2..] == "# A"; }
    assert TrimMarkers("# A") == "A" by { assert "# A"[2..] == "A"; }
  }

  /**
   * A line of "#" alone, of "##…" or of "#" directly followed by text is
   * not a heading: the search goes on with the next line.
   */
  lemma UnspacedHashLineSkipped(line: string, rest: string)
    requires '\n' !in line
    requires |line| >= 1 && line[0] == '#' && (|line| == 1 || line[1] != ' ')
    ensures FindHeading(line + "\n" + rest) == FindHeading(rest)
  {
    var stripped := StripCr(line);
    assert !IsHeadingLine(stripped) by {
      if |stripped| >= 2 { assert stripped[..2] == line[..2]; }
    }
    FindHeadingLineByLine(line, rest);
  }

  /**
   * The template line left in front of the user's own heading is taken,
   * and its title is empty.
   */
  lemma TemplateLineWins()
    ensures FindHeading("# \n# My Note\nhello") == Some("")
  {
    assert "# \n# My Note\nhello" == "# " + "\n" + "# My Note\nhello";
    FindHeadingLineByLine("# ", "# My Note\nhello");
    assert StripCr("# ") == "# ";
    assert TrimMarkers("# ") == "" by { assert "# "[2..] == ""; }
  }
}
