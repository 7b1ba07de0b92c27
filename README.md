# digital-garden: naming a captured note

This project models, in Dafny, how the `garden write` command of the
digital-garden tool decides where a freshly written note goes:

- **Heading extraction** (`find_heading`): the text returned by the editor
  is split into lines as Rust's `str::lines` does, the first line that
  starts with `"# "` is taken, and every leading repetition of `"# "` is
  trimmed off it. An empty remainder is kept: the untouched template
  `"# "` gives the empty title, not no title.
- **Filename negotiation** (`confirm_filename`, `ask_for_filename`): the
  terminal is replaced by a scripted sequence of replies, each either a
  line read or a failed read. `ask_for_filename` skips failed reads and
  returns the first line verbatim. `confirm_filename` keeps the slug on
  `n`, `N` or an empty line, returns the raw, unslugified reply of
  `ask_for_filename` on `y` or `Y`, re-asks on anything else, and
  propagates a failed read. Without a heading, `write` slugifies what
  `ask_for_filename` reads. The `title` argument of `write` is never used.
  `slug::slugify` is a function parameter about which nothing is assumed.
- **Collision-resolving commit**: the collection directory is a set of
  entry names (`Commit.Garden`). The loop tries counter 0, 1, 2, … and
  renames the scratch file to the first candidate that does not exist. It
  takes the least free counter, the counter never exceeds the number of
  entries, and exactly one rename happens.
- **Title precedence of the unfinished `src/write.rs`**: an explicit title
  wins; otherwise the same first-heading heuristic applies to the contents
  read back, and the file is seeded with the two bytes `"# "`.

Modules: `Wrappers` (Option), `Text` (`str::lines`), `Heading`
(`find_heading`), `Decimal` (`usize::to_string` and the counter suffix),
`Negotiate` (the prompts and the file name choice of `write`), `Commit`
(`set_extension`, the candidates, and the `Garden` class with the commit
loop and the whole of `write` after the edit), `Draft` (`src/write.rs`).

Behaviour of the code worth knowing:
- An empty heading is not treated as absent: `find_heading("# ")` is
  `Some("")`. Because of that, a note that still starts with the template
  line `"# "` followed by `"# My Note"` is named after the empty title,
  not after "My Note" (`Heading.TemplateLineWins`).
- After a "y", the typed name is used raw, not slugified.
- `ask_for_filename` accepts any line, the empty one included.
- The commit loop does not terminate for every name (see Findings).

## Model

| member | source | states |
|---|---|---|
| Text.Lines | src/lib.rs:59-60 | the lines of a text contain no line break; the empty text has no lines |
| Text.LinesRoundTrip | src/lib.rs:60 | for a text without '\r', the lines each followed by '\n' give the text back, plus a final '\n' if it had none |
| Text.LinesPrefixOnAppend | src/lib.rs:60 | appending '\n' and more text keeps every original line, in order, at the front |
| Text.LinesOfLineThen | src/lib.rs:60 | a line break splits off exactly one line, which loses one trailing '\r' |
| Heading.TrimMarkers | src/lib.rs:64 | the result is a suffix of the line, what was cut off is a run of "# " markers, and the result does not start with "# " |
| Heading.TrimMarkersOfRun | src/lib.rs:64 | any run of markers followed by text not starting with "# " trims to exactly that text (the trimming is determined by its contract) |
| Heading.FirstHeading | src/lib.rs:61 | the index found is the first line starting with "# ", and there is none exactly when no line starts with it |
| Heading.FindHeading | src/lib.rs:57-65 | no title exactly when no line starts with "# "; otherwise the title is the first such line with all leading markers trimmed |
| Heading.FoundTitleIsTrimmedLine | src/lib.rs:61-64 | a found title is a suffix of a line, shorter by at least one marker, the cut-off part is markers only, and it does not start with "# " |
| Heading.LaterLinesIgnored | src/lib.rs:61 | once a text has a heading, appending further lines never changes the title |
| Heading.FindHeadingLineByLine | src/lib.rs:59-64 | a first line that is a heading decides the title; otherwise the title is that of the remaining lines |
| Heading.UnspacedHashLineSkipped | src/lib.rs:61 | a line "#", "##…" or "#" directly followed by text is never a heading |
| Heading.DefaultTemplateGivesEmptyTitle | src/lib.rs:10 | the unedited template "# " gives the empty title, not no title |
| Heading.RepeatedMarkersTrimmed | src/lib.rs:64 | "# # A" gives "A": every leading "# " goes |
| Heading.TemplateLineWins | src/lib.rs:58-65 | with the template line left in front of "# My Note", the title is the empty one |
| Decimal.ToDecimal | src/lib.rs:123 | `i.to_string()`: at least one character, all decimal digits, no leading zero unless the counter is 0 |
| Decimal.Suffix | src/lib.rs:120-124 | the appended suffix is empty exactly for counter 0 and made of digits only |
| Decimal.ValueOfToDecimal | src/lib.rs:123 | reading back the decimal digits of the counter gives the counter |
| Decimal.SuffixInjective | src/lib.rs:120-124 | distinct counters give distinct suffixes (0 gives none) |
| Negotiate.FilenameReply | src/lib.rs:21-25 | the answer is the first line read, verbatim, all earlier reads having failed; it never fails and runs out only when every read fails |
| Negotiate.AskForFilename | src/lib.rs:12-26 | the retry loop returns what FilenameReply specifies |
| Negotiate.ConfirmedFilename | src/lib.rs:67-97 | a failure comes from a failed read; a chosen name is the slug or a reply line read after the question |
| Negotiate.ConfirmFilename | src/lib.rs:67-97 | the question loop returns what ConfirmedFilename specifies |
| Negotiate.ConfirmedByFirstDecision | src/lib.rs:81-95 | the first reply that answers decides: failed read is an error, n/N/"" keep the slug, y/Y take the next ask_for_filename answer raw; earlier replies are ignored |
| Negotiate.ConfirmedUndecided | src/lib.rs:92-94 | with only unrecognised replies the question is asked again until the input runs out |
| Negotiate.WriteIgnoresTitle | src/lib.rs:99-112 | the title argument of write never changes the chosen file name |
| Negotiate.FilenameReplyAt | src/lib.rs:21-25 | the first line after failed reads is the answer, with the number of replies used |
| Negotiate.NoHeadingSlugifiesTypedName | src/lib.rs:111 | without a heading the file name is the slug of the first line read |
| Negotiate.ChosenFilename | src/lib.rs:102-112 | without a heading the name never fails and is the slug of a line read; with one it is the heading's slug or a reply line taken raw |
| Negotiate.ChooseFilename | src/lib.rs:102-112 | the file name chosen before the commit is the one ChosenFilename specifies: negotiated over the heading's slug, or the slug of the typed name without a heading |
| Negotiate.YesTakesTypedNameRaw | src/lib.rs:84-86 | with a heading, "y" then a typed name (after any failed reads) gives that name unslugified |
| Negotiate.NoKeepsHeadingSlug | src/lib.rs:87-91 | with a heading, "n", "N" or an empty line give the slug of the heading unchanged |
| Commit.FileStem | src/lib.rs:127 | the stem is a prefix of the name; it is the whole name exactly when the name is "..", has no '.', or has its last '.' first; otherwise the name continues with its last '.' |
| Commit.WithExtension | src/lib.rs:127 | `set_extension("md")`: the result ends in ".md" and before it keeps a prefix of the name |
| Commit.WithExtensionIdempotent | src/lib.rs:127 | setting the extension of a non-empty name twice is the same as once |
| Commit.CandidateAsWritten | src/lib.rs:117-127 | the source's destination ends in ".md", and for counter 0 it is the name with its extension set |
| Commit.Candidate | src/lib.rs:117-127 | the corrected destination ends in ".md" and for counter 0 is the source's destination for every name |
| Commit.CandidateAsWrittenWhenDotFree | src/lib.rs:117-127 | for a name with no '.' after its first character the source's destination is name + counter + ".md" |
| Commit.CandidateAsWrittenIgnoresCounter | src/lib.rs:117-127 | for a name whose last '.' is not its first character, every counter gives the same destination |
| Commit.DottedNameNeverFindsFreeCandidate | src/lib.rs:115-134 | with notes.md present, every candidate for "notes.v2" is notes.md |
| Commit.CandidateInjective | src/lib.rs:117-127 | distinct counters give distinct destinations |
| Commit.LaterCandidateIsNew | src/lib.rs:117-127 | the destination for a counter is not among those of the smaller counters |
| Commit.CandidatesBelowCount | src/lib.rs:115-134 | the destinations tried before counter n are n distinct names |
| Commit.LeastFreeBounded | src/lib.rs:128-129 | a counter all of whose predecessors are taken is at most the number of entries |
| Commit.CommitExamples | src/lib.rs:115-134 | an empty directory gives base.md; with base, base1 and base2 taken the only least free counter is 3, base3.md |
| Commit.Garden.Commit | src/lib.rs:115-134 | takes the least counter whose destination is free, bounded by the number of entries; renames the scratch file and nothing else, or changes nothing when it is gone |
| Commit.Garden.Write | src/lib.rs:99-136 | the scratch name is added to the directory's entries; a chosen name is committed at its least free counter; a failed or unfinished negotiation leaves the scratch file in place |
| Draft.AsciiText | src/write.rs:21-23 | the text read back has one character per byte, with the same code |
| Draft.AsciiRoundTrip | src/write.rs:16-23 | reading ASCII bytes back as text and storing that text again gives the same bytes |
| Draft.DocumentTitle | src/write.rs:27-35 | an explicit title wins; otherwise no title exactly when no line starts with "# ", else the first such line with markers trimmed |
| Draft.UneditedFileTitle | src/write.rs:6-16 | the seed bytes are the marker "# ", and an unedited file without explicit title gets the empty title |
| Draft.DocumentTitleIgnoresLaterLines | src/write.rs:31 | lines appended after the first heading never change the chosen title |

## Findings

| source | as written | input that shows it | evidently intended | confidence | as-written member | corrected member |
|---|---|---|---|---|---|---|
| src/lib.rs:117-128 | `set_extension("md")` on name + counter cuts everything after the last '.', so for a name with an inner dot the counter is cut off too and every candidate is the same | answer "y", type `notes.v2`, with `notes.md` already in the directory: every candidate is `notes.md` and the loop never ends | the counter stays in the name (`notes1.md`), so each counter gives a new destination | not executed; high | Commit.CandidateAsWrittenIgnoresCounter | Commit.CandidateInjective |

`Commit.Candidate` keeps the counter in the stem: `FileStem(name) + counter
+ ".md"`. For names without a '.' after the first character it is the
source's candidate (`Commit.CandidateAsWrittenWhenDotFree`), and the commit
loop of `Commit.Garden` uses it.

## Left out

- Commit.Garden.Write: the edit session itself is not modelled. Temp-file creation, the external editor and its failures, and reading the file back are outside the model; the edited text is a parameter.
- Commit.Garden.Commit: the loop uses the corrected `Candidate`. For a name with a '.' after its first character the source's loop can run forever (see Findings); the model's loop always ends.
- Commit.Garden.Write: the directory holds names only, so the contents written under the scratch name are not modelled.
- Commit.Garden.Commit: the only rename failure modelled is a missing scratch file. Permission and cross-device errors are outside the model.
- Commit.Garden.Commit: the existence check and the rename are one step. The race between them with another process is a concurrency concern.
- Commit.Garden.Commit: the directory is a set of names, and each candidate is taken as one name in it. How `Path::join` treats an empty name, ".", ".." or a name holding '/' is not modelled.
- Commit.Garden.Commit: the counter is an unbounded integer. Overflow of the `usize` counter is not modelled; it cannot be reached because the counter never exceeds the number of entries.
- Negotiate.ConfirmedFilename: the prompt text, colours and the displayed raw title are terminal output. Only the replies are modelled.
- Negotiate.FilenameReply: a script that runs out gives `OutOfInput`. The real program would keep waiting for input.
- Text.Lines: every line loses one trailing '\r', a last line without '\n' included, as `str::lines` did in the Rust of the repository's time. Later Rust versions keep a bare '\r' at the very end.
- `slug::slugify` is a parameter: its crate is not part of this model, so nothing is assumed about its output.
- Draft.AsciiText: UTF-8 decoding is modelled for ASCII bytes only, which is all the seed holds.
- The rest of `src/write.rs` (`dbg!`, `todo!()`) and `src/main.rs` (argument parsing, spark, search, publish, read) are not part of this model.
- Tracing, error wrapping and terminal styling are left out.
