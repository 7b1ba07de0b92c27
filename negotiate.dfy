/**
 * The interactive filename negotiation of `ask_for_filename` and
 * `confirm_filename`, driven by a scripted sequence of prompt replies
 * instead of a terminal. `used` counts the replies consumed. When the
 * script runs out before the negotiation is over, the outcome is
 * `OutOfInput`: the real program would still be waiting for input.
 */
module Negotiate {
  import opened Wrappers
  import opened Heading

  /** One answer to a prompt: a line read, or a failed read. */
  datatype Reply = Line(text: string) | ReadError

  datatype Negotiation =
    | Chosen(name: string, used: nat)
    | PromptFailed(used: nat)
    | OutOfInput

  /** The same outcome, reached after `k` earlier replies. */
  function After(k: nat, n: Negotiation): Negotiation
  {
    match n
    case Chosen(name, used) => Chosen(name, used + k)
    case PromptFailed(used) => PromptFailed(used + k)
    case OutOfInput => OutOfInput
  }

  /**
   * What `ask_for_filename` returns: the first line read, verbatim, after
   * any number of failed reads. It never fails.
   */
  function FilenameReply(script: seq<Reply>): (r: Negotiation)
    ensures !r.PromptFailed?
    ensures r.OutOfInput? <==> forall j :: 0 <= j < |script| ==> script[j].ReadError?
    ensures r.Chosen? ==> 1 <= r.used <= |script| && script[r.used - 1] == Line(r.name) &&
                          forall j :: 0 <= j < r.used - 1 ==> script[j].ReadError?
  {
    if script == [] then OutOfInput
    else match script[0]
      case Line(text) => Chosen(text, 1)
      case ReadError => After(1, FilenameReply(script[1..]))
  }

  /** `ask_for_filename`: the retry loop over the prompt. */
  method AskForFilename(script: seq<Reply>) returns (r: Negotiation)
    ensures r == FilenameReply(script)
  {
    var i := 0;
    while i < |script| && script[i].ReadError?
      invariant 0 <= i <= |script|
      invariant FilenameReply(script) == After(i, FilenameReply(script[i..]))
    {
      assert script[i..][1..] == script[i + 1..];
      i := i + 1;
    }
    if i == |script| {
      r := OutOfInput;
    } else {
      r := Chosen(script[i].text, i + 1);
    }
  }

  predicate IsYes(text: string)
  {
    text == "y" || text == "Y"
  }

  /** The answers that keep the proposed name; the empty line is the default. */
  predicate IsNo(text: string)
  {
    text == "n" || text == "N" || text == ""
  }

  /** A reply that ends the y/N question; any other line re-asks it. */
  predicate Decides(reply: Reply)
  {
    reply.ReadError? || IsYes(reply.text) || IsNo(reply.text)
  }

  /**
   * What `confirm_filename` returns. `rawTitle` is only shown to the user,
   * so it does not appear here.
   */
  function ConfirmedFilename(slug: string, script: seq<Reply>): (r: Negotiation)
    ensures r.PromptFailed? ==> 1 <= r.used <= |script| && script[r.used - 1] == ReadError
    ensures r.Chosen? ==> 1 <= r.used <= |script| &&
                          (r.name == slug || (r.used >= 2 && script[r.used - 1] == Line(r.name)))
  {
    if script == [] then OutOfInput
    else match script[0]
      case ReadError => PromptFailed(1)
      case Line(text) =>
        if IsYes(text) then After(1, FilenameReply(script[1..]))
        else if IsNo(text) then Chosen(slug, 1)
        else After(1, ConfirmedFilename(slug, script[1..]))
  }

  /** `confirm_filename`: the loop around the y/N question. */
  method ConfirmFilename(rawTitle: string, slug: string, script: seq<Reply>) returns (r: Negotiation)
    ensures r == ConfirmedFilename(slug, script)
  {
    var i := 0;
    while i < |script|
      invariant 0 <= i <= |script|
      invariant ConfirmedFilename(slug, script) == After(i, ConfirmedFilename(slug, script[i..]))
    {
      assert script[i..][0] == script[i] && script[i..][1..] == script[i + 1..];
      match script[i]
      case ReadError =>
        return PromptFailed(i + 1);
      case Line(text) =>
        if IsYes(text) {
          var asked := AskForFilename(script[i + 1..]);
          return After(i + 1, asked);
        } else if IsNo(text) {
          return Chosen(slug, i + 1);
        }
      i := i + 1;
    }
    r := OutOfInput;
  }

  /**
   * The negotiation is decided by the first reply that answers the
   * question: a failed read is an error, "n", "N" or "" keep the slug, and
   * "y" or "Y" hand over to `ask_for_filename` on the replies after it,
   * whose answer is taken raw. Every reply before it is ignored.
   */
  lemma {:induction false} ConfirmedByFirstDecision(slug: string, script: seq<Reply>, k: nat)
    requires k < |script| && Decides(script[k])
    requires forall j :: 0 <= j < k ==> !Decides(script[j])
    ensures ConfirmedFilename(slug, script) ==
            match script[k]
            case ReadError => PromptFailed(k + 1)
            case Line(text) =>
              if IsYes(text) then After(k + 1, FilenameReply(script[k + 1..]))
              else Chosen(slug, k + 1)
  {
    if k > 0 {
      assert !Decides(script[0]);
      assert script[1..][k - 1] == script[k] && script[1..][k..] == script[k + 1..];
      ConfirmedByFirstDecision(slug, script[1..], k - 1);
    }
  }

  /** Without any deciding reply the question is asked until the script runs out. */
  lemma {:induction false} ConfirmedUndecided(slug: string, script: seq<Reply>)
    requires forall j :: 0 <= j < |script| ==> !Decides(script[j])
    ensures ConfirmedFilename(slug, script) == OutOfInput
  {
    if script != [] {
      assert !Decides(script[0]);
      ConfirmedUndecided(slug, script[1..]);
    }
  }

  /**
   * The file name chosen in `write` before the commit: with a heading, the
   * y/N negotiation over its slug; without one, the slug of whatever
   * `ask_for_filename` reads. The `title` argument of `write` takes no part.
   */
  function ChosenFilename(edited: string, title: Option<string>, script: seq<Reply>,
                          slugify: string -> string): (r: Negotiation)
    ensures FindHeading(edited).None? ==> !r.PromptFailed?
    ensures FindHeading(edited).None? && r.Chosen? ==>
              1 <= r.used <= |script| && script[r.used - 1].Line? &&
              r.name == slugify(script[r.used - 1].text)
    ensures FindHeading(edited).Some? && r.Chosen? ==>
              1 <= r.used <= |script| &&
              (r.name == slugify(FindHeading(edited).value) ||
               (r.used >= 2 && script[r.used - 1] == Line(r.name)))
  {
    match FindHeading(edited)
    case Some(rawTitle) => ConfirmedFilename(slugify(rawTitle), script)
    case None =>
      match FilenameReply(script)
      case Chosen(name, used) => Chosen(slugify(name), used)
      case other => other
  }

  /** The naming step of `write`: look for a heading, then negotiate the file name. */
  method ChooseFilename(edited: string, title: Option<string>, script: seq<Reply>,
                        slugify: string -> string) returns (n: Negotiation)
    ensures n == ChosenFilename(edited, title, script, slugify)
  {
    match FindHeading(edited) {
      case Some(rawTitle) =>
        n := ConfirmFilename(rawTitle, slugify(rawTitle), script);
      case None =>
        n := AskForFilename(script);
        if n.Chosen? {
          n := Chosen(slugify(n.name), n.used);
        }
    }
  }

  /** The `title` argument of `write` never influences the file name. */
  lemma WriteIgnoresTitle(edited: string, title: Option<string>, other: Option<string>,
                          script: seq<Reply>, slugify: string -> string)
    ensures ChosenFilename(edited, title, script, slugify) ==
            ChosenFilename(edited, other, script, slugify)
  {
  }

  /** `ask_for_filename` answers with the first line that was read. */
  lemma FilenameReplyAt(script: seq<Reply>, k: nat, typed: string)
    requires k < |script| && script[k] == Line(typed)
    requires forall j :: 0 <= j < k ==> script[j].ReadError?
    ensures FilenameReply(script) == Chosen(typed, k + 1)
  {
  }

  /** Without a heading, the typed name is slugified; the explicit title never matters. */
  lemma NoHeadingSlugifiesTypedName(edited: string, title: Option<string>, script: seq<Reply>,
                                    slugify: string -> string, k: nat, typed: string)
    requires FindHeading(edited).None?
    requires k < |script| && script[k] == Line(typed)
    requires forall j :: 0 <= j < k ==> script[j].ReadError?
    ensures ChosenFilename(edited, title, script, slugify) == Chosen(slugify(typed), k + 1)
  {
    FilenameReplyAt(script, k, typed);
  }

  /** With a heading, "y" followed by a typed name gives that name raw, not slugified. */
  lemma YesTakesTypedNameRaw(edited: string, title: Option<string>, script: seq<Reply>,
                             slugify: string -> string, k: nat, typed: string)
    requires FindHeading(edited).Some?
    requires 1 <= k < |script| && script[k] == Line(typed)
    requires script[0].Line? && IsYes(script[0].text)
    requires forall j :: 1 <= j < k ==> script[j].ReadError?
    ensures ChosenFilename(edited, title, script, slugify) == Chosen(typed, k + 1)
  {
    var rest := script[1..];
    assert rest[k - 1] == script[k];
    FilenameReplyAt(rest, k - 1, typed);
  }

  /** With a heading, "n", "N" or an empty line keep the heading's slug. */
  lemma NoKeepsHeadingSlug(edited: string, title: Option<string>, script: seq<Reply>,
                           slugify: string -> string)
    requires FindHeading(edited).Some?
    requires |script| >= 1 && script[0].Line? && IsNo(script[0].text)
    ensures ChosenFilename(edited, title, script, slugify) ==
            Chosen(slugify(FindHeading(edited).value), 1)
  {
  }
}
