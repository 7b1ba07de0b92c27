/**
 * The title selection of the rewritten `write` (src/write.rs): an explicit
 * title wins; otherwise the first "# " line of the file read back after
 * the edit, its markers trimmed, as an owned string.
 */
module Draft {
  import opened Wrappers
  import opened Text
  import opened Heading

  /** The bytes the scratch file is seeded with (`TEMPLATE`). */
  const Template: seq<bv8> := [0x23, 0x20]

  /** The text `read_to_string` gives back for bytes that are all ASCII. */
  function AsciiText(bytes: seq<bv8>): (text: string)
    requires forall k :: 0 <= k < |bytes| ==> bytes[k] < 0x80
    ensures |text| == |bytes|
    ensures forall k :: 0 <= k < |bytes| ==> text[k] as int == bytes[k] as int
  {
    seq(|bytes|, k requires 0 <= k < |bytes| => (bytes[k] as int) as char)
  }

  /** The bytes `write_all` stores for an ASCII text. */
  function AsciiBytes(text: string): (bytes: seq<bv8>)
    requires forall k :: 0 <= k < |text| ==> text[k] < 128 as char
  {
    seq(|text|, k requires 0 <= k < |text| => (text[k] as int) as bv8)
  }

  /** Reading bytes back as text and storing that text gives the same bytes. */
  lemma AsciiRoundTrip(bytes: seq<bv8>)
    requires forall k :: 0 <= k < |bytes| ==> bytes[k] < 0x80
    ensures AsciiBytes(AsciiText(bytes)) == bytes
  {
  }

  /** `title.or_else(...)`: the explicit title, or else the first heading of the contents. */
  function DocumentTitle(title: Option<string>, contents: string): (r: Option<string>)
    ensures title.Some? ==> r == title
    ensures title.None? ==> (r.None? <==> !HasHeadingLine(contents))
    ensures title.None? && r.Some? ==>
              exists k: nat :: IsFirstHeadingLine(contents, k) && r.value == TrimMarkers(Lines(contents)[k])
  {
    match title
    case Some(_) => title
    case None => FindHeading(contents)
  }

  /** The seed is the heading marker itself, and an unedited file gets an empty title. */
  lemma UneditedFileTitle()
    ensures AsciiText(Template) == Marker
    ensures DocumentTitle(None, AsciiText(Template)) == Some("")
  {
    assert AsciiText(Template) == DefaultTemplate;
    DefaultTemplateGivesEmptyTitle();
  }

  /** Headings after the first one never change the chosen title. */
  lemma DocumentTitleIgnoresLaterLines(title: Option<string>, contents: string, more: string)
    requires title.Some? || HasHeadingLine(contents)
    ensures DocumentTitle(title, contents + "\n" + more) == DocumentTitle(title, contents)
  {
    if title.None? {
      LaterLinesIgnored(contents, more);
    }
  }
}
