/**
 * The older single-file client (vimgolf/vimgolf.py).  Its string helpers,
 * validators, id expansion, input_loop and confirm are the same code as in
 * vimgolf/utils.py and vimgolf/core.py and are modelled once, in Utils and
 * Core.  What is its own: the file extension derived from a challenge's
 * type, and a play loop that records no answers, reports editor and diff
 * failures as FAILURE, and keeps no `uploaded` flag.
 */
module Legacy {
  import opened Common
  import Core
  import Keys
  import Utils
  import Session

  // ------------------------------------------------------------------
  // The extension of the workspace files
  // ------------------------------------------------------------------

  /** The characters of the class [\w-]: kept by the sanitiser. */
  predicate IsExtensionChar(c: char) {
    Core.IsWordChar(c) || c == '-'
  }

  /** re.sub(r'[^\w-]', '_', t): every character outside [\w-] replaced by an underscore. */
  function Sanitize(t: string): (r: string)
    ensures |r| == |t|
    ensures forall i :: 0 <= i < |t| ==> r[i] == (if IsExtensionChar(t[i]) then t[i] else '_')
  {
    if t == [] then []
    else [if IsExtensionChar(t[0]) then t[0] else '_'] + Sanitize(t[1..])
  }

  /** The extension put gives a file of the challenge: a dot, then the sanitised type. */
  function Extension(t: string): (e: string)
    ensures |e| == |t| + 1 && e[0] == '.'
    ensures forall i :: 1 <= i < |e| ==> IsExtensionChar(e[i])
  {
    "." + Sanitize(t)
  }

  /** A type made only of [\w-] characters is kept as it is. */
  lemma {:induction false} SanitizeKeepsClean(t: string)
    requires forall i :: 0 <= i < |t| ==> IsExtensionChar(t[i])
    ensures Sanitize(t) == t
  {
    if t != [] {
      SanitizeKeepsClean(t[1..]);
    }
  }

  /** Sanitising twice is sanitising once. */
  lemma SanitizeIdempotent(t: string)
    ensures Sanitize(Sanitize(t)) == Sanitize(t)
  {
    SanitizeKeepsClean(Sanitize(t));
  }

  /** The extension of a type already made of [\w-] characters is the type behind a dot. */
  lemma ExtensionOfCleanType(t: string)
    requires forall i :: 0 <= i < |t| ==> IsExtensionChar(t[i])
    ensures Extension(t) == "." + t
  {
    SanitizeKeepsClean(t);
  }

  /** A type such as "c++" loses its plus signs: they become underscores. */
  lemma ExtensionExample()
    ensures Extension("c++") == ".c__"
  {
    assert Sanitize("c++") == ['c'] + Sanitize("++");
    assert Sanitize("++") == ['_'] + Sanitize("+");
    assert Sanitize("+") == ['_'] + Sanitize("");
  }

  // ------------------------------------------------------------------
  // play
  // ------------------------------------------------------------------

  /** The challenge tuple of vimgolf.py; a missing compliance flag is false. */
  datatype LegacyChallenge = LegacyChallenge(inText: string, outText: string,
                                             inExtension: string, outExtension: string,
                                             id: Option<string>, compliant: bool, apiKey: Option<string>)

  /** The loop of play runs like main_loop's, without recording answers. */
  function SetupOf(ch: LegacyChallenge): (setup: Session.Setup)
    ensures !setup.record
    ensures setup.eligible <==> Truthy(ch.id) && ch.compliant && Truthy(ch.apiKey)
  {
    Session.Setup(false, Session.UploadEligible(ch.id, ch.compliant, ch.apiKey), ch.inText, ch.outText)
  }

  /** The attempts of play, from the input line at pos with the given attempt number, until one quits or fails. */
  function LegacyRun(ch: LegacyChallenge, ports: Session.Ports, lines: seq<string>, pos: nat, attempt: nat): Session.SessionResult
  {
    Session.SessionRun(false, ports.clock, Session.AttemptsOf(SetupOf(ch), ports, lines), lines, pos, attempt)
  }

  /**
   * How play ends: SUCCESS after q; FAILURE straight away when the editor or
   * the diff fails; the exception of an unreadable log escapes; the end of
   * input exits the process.
   */
  function LegacyOutcome(end: Session.SessionEnd): (o: Session.Outcome)
    ensures o == Session.Returned(Some(Session.SUCCESS)) <==> end == Session.Quit
    ensures o == Session.Returned(Some(Session.FAILURE)) <==> end == Session.EditorFailure || end == Session.DiffFailure
    ensures o == Session.Raised <==> end == Session.LogUnreadable
    ensures o == Session.Exited(Session.EXIT_FAILURE) <==> end == Session.EndOfInput
    ensures o.Returned? || o == Session.Raised || o == Session.Exited(Session.EXIT_FAILURE)
  {
    match end
    case Quit => Session.Returned(Some(Session.SUCCESS))
    case EditorFailure => Session.Returned(Some(Session.FAILURE))
    case DiffFailure => Session.Returned(Some(Session.FAILURE))
    case LogUnreadable => Session.Raised
    case EndOfInput => Session.Exited(Session.EXIT_FAILURE)
  }

  /** One attempt of play: rewrite the input file, run the editor, score the log, and run the menu. */
  method LegacyAttempt(ch: LegacyChallenge, ws: Session.Workspace, lines: seq<string>, pos: nat, attempt: nat,
                       ports: Session.Ports)
    returns (a: Session.AttemptEnd)
    requires ws.outfile == ch.outText
    modifies ws
    ensures ws.outfile == ch.outText
    ensures var run := ports.editor(attempt, ch.inText);
      ws.infile == if run.Edited? then run.text else ch.inText
    ensures a == Session.AttemptRun(SetupOf(ch), ports, lines, pos, attempt)
  {
    ws.infile := ch.inText;
    var run := ports.editor(attempt, ws.infile);
    if run.EditorCrashed? {
      return Session.Failed(Session.EditorFailure);
    }
    ws.infile := run.text;
    ws.log := run.log;
    var correct := ws.infile == ws.outfile;
    var keycodes := Keys.ParseKeycodes(ws.log);
    if keycodes.Err? {
      return Session.Failed(Session.LogUnreadable);
    }
    var scored := Session.Scoring(keycodes.value);
    var m := Session.MenuLoop(ch.id, ch.compliant, ch.apiKey, correct, lines, pos, ports.uploadOk, ports.diffOk);
    if m.InputEnded? {
      return Session.Failed(Session.EndOfInput);
    } else if m.DiffFailed? {
      return Session.Failed(Session.DiffFailure);
    }
    a := Session.Completed(scored, correct, m.uploaded, m.quit, m.next);
  }

  /** play: write the expected output once, then attempt until q or a failure. */
  method LegacyPlay(ch: LegacyChallenge, ws: Session.Workspace, lines: seq<string>, ports: Session.Ports)
    returns (o: Session.Outcome)
    modifies ws
    ensures ws.outfile == ch.outText
    ensures o == LegacyOutcome(LegacyRun(ch, ports, lines, 0, 0).end)
  {
    ws.outfile := ch.outText;
    var attempt := 0;
    var pos := 0;
    while true
      invariant ws.outfile == ch.outText
      invariant LegacyRun(ch, ports, lines, pos, attempt).end == LegacyRun(ch, ports, lines, 0, 0).end
      decreases |lines| - pos
    {
      var a := LegacyAttempt(ch, ws, lines, pos, attempt, ports);
      Session.AttemptsOfApply(SetupOf(ch), ports, lines, pos, attempt);
      if a.Failed? {
        return LegacyOutcome(a.end);
      }
      if a.quit {
        return Session.Returned(Some(Session.SUCCESS));
      }
      attempt, pos := attempt + 1, a.next;
    }
  }

  /** The older loop never records an answer, whatever the challenge. */
  lemma LegacyRecordsNothing(ch: LegacyChallenge, ports: Session.Ports, lines: seq<string>)
    ensures LegacyRun(ch, ports, lines, 0, 0).answers == []
  {
    var run := Session.AttemptsOf(SetupOf(ch), ports, lines);
    Session.SessionRecordsEachAttempt(false, ports.clock, run, lines, 0, 0);
  }

  /** play reports SUCCESS only when some input line selected q. */
  lemma LegacySuccessNeedsQ(ch: LegacyChallenge, ports: Session.Ports, lines: seq<string>)
    requires forall p :: 0 <= p < |lines| ==> Session.CodeOf(Utils.Selection(lines[p], true)) != Some(Session.Q)
    ensures LegacyOutcome(LegacyRun(ch, ports, lines, 0, 0).end) != Session.Returned(Some(Session.SUCCESS))
  {
    var run := Session.AttemptsOf(SetupOf(ch), ports, lines);
    Session.AttemptsQuitOnQ(SetupOf(ch), ports, lines);
    Session.QuitNeedsQ(false, ports.clock, run, lines, 0, 0);
  }
}
