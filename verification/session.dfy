/**
 * A play session (vimgolf/play.py main_loop and menu_loop, and the same loop
 * written inline in vimgolf/core.py play): every attempt rewrites the input
 * file, runs the editor, scores the keystroke log, and offers a menu until
 * the player retries or quits.
 *
 * The outside world is a set of ports: the editor (what it leaves in the
 * input file and in the log, or a crash), the clock, and the outcome of each
 * upload and diff, indexed by the position of the input line that asked for
 * it.  Standard input is a finite sequence of lines.
 */
module Session {
  import opened Common
  import Keys
  import Utils
  import Answers

  // ------------------------------------------------------------------
  // The menu
  // ------------------------------------------------------------------

  /** What menu_loop remembers between selections. */
  datatype MenuState = MenuState(eligible: bool, uploaded: bool)

  /** upload_eligible: an id, a compliant challenge and an API key, all truthy. */
  predicate UploadEligible(id: Option<string>, compliant: bool, apiKey: Option<string>) {
    Truthy(id) && compliant && Truthy(apiKey)
  }

  /** The menu's one-letter codes: d (diff), w (upload), r (retry), q (quit). */
  datatype Code = D | W | R | Q

  function CodeText(c: Code): string {
    match c
    case D => "d"
    case W => "w"
    case R => "r"
    case Q => "q"
  }

  /** The code a selection names, if any: a one-character string holding its letter. */
  function CodeOf(sel: string): (c: Option<Code>)
    ensures c.Some? ==> |sel| == 1
  {
    if |sel| != 1 then None
    else if sel[0] == 'd' then Some(D)
    else if sel[0] == 'w' then Some(W)
    else if sel[0] == 'r' then Some(R)
    else if sel[0] == 'q' then Some(Q)
    else None
  }

  /** A selection names a code exactly when it is that code's text. */
  lemma CodeOfText(sel: string, c: Code)
    ensures CodeOf(sel) == Some(c) <==> sel == CodeText(c)
  {
    if sel == CodeText(c) {
      assert sel[0] == CodeText(c)[0];
    } else if |sel| == 1 {
      assert sel != [CodeText(c)[0]];
    }
  }

  /** Whether a code is on the menu: the diff only for a wrong answer, the upload only for an eligible correct one. */
  predicate Offered(c: Code, correct: bool, eligible: bool) {
    match c
    case D => !correct
    case W => eligible && correct
    case R => true
    case Q => true
  }

  /** The codes offered, rebuilt before every selection, in the order they are shown. */
  function Menu(correct: bool, eligible: bool): (codes: seq<Code>)
    ensures forall c :: c in codes <==> Offered(c, correct, eligible)
    ensures |codes| >= 2 && codes[|codes| - 2..] == [R, Q]
    ensures |codes| == 2 + (if correct then 0 else 1) + (if eligible && correct then 1 else 0)
  {
    (if !correct then [D] else []) + (if eligible && correct then [W] else []) + [R, Q]
  }

  /** What one selection does: stay in the menu with a new state, leave it, or abort the session. */
  datatype Step = Stay(st: MenuState) | Leave | Abort

  function MenuStep(correct: bool, st: MenuState, code: Option<Code>, uploadOk: bool, diffOk: bool): (r: Step)
    ensures code.None? || !Offered(code.value, correct, st.eligible) ==> r == Stay(st)
    ensures r.Leave? <==> code == Some(R) || code == Some(Q)
    ensures r.Abort? <==> code == Some(D) && !correct && !diffOk
    ensures r.Stay? && r.st != st ==> code == Some(W) && correct && st.eligible && uploadOk
    ensures code == Some(W) && correct && st.eligible && uploadOk ==> r == Stay(MenuState(false, true))
  {
    if code.None? || !Offered(code.value, correct, st.eligible) then Stay(st)
    else
      match code.value
      case D => if diffOk then Stay(st) else Abort
      case W => if uploadOk then Stay(MenuState(false, true)) else Stay(st)
      case R => Leave
      case Q => Leave
  }

  /** How menu_loop ends: a choice of r or q, an exception from the diff, or the end of input. */
  datatype MenuEnd = Chosen(quit: bool, uploaded: bool, next: nat) | DiffFailed | InputEnded

  /** menu_loop from the input line at pos on. */
  function MenuRun(lines: seq<string>, pos: nat, correct: bool, st: MenuState,
                   uploadOk: nat -> bool, diffOk: nat -> bool): (r: MenuEnd)
    ensures r.Chosen? ==> pos < r.next <= |lines|
    decreases |lines| - pos
  {
    match Utils.NextInput(lines, pos, true, true)
    case None => InputEnded
    case Some((sel, next)) =>
      match MenuStep(correct, st, CodeOf(sel), uploadOk(next - 1), diffOk(next - 1))
      case Stay(st') => MenuRun(lines, next, correct, st', uploadOk, diffOk)
      case Leave => Chosen(CodeOf(sel) == Some(Q), st.uploaded, next)
      case Abort => DiffFailed
  }

  /** The menu as menu_loop builds it, entry by entry. */
  method BuildMenu(correct: bool, eligible: bool) returns (menu: seq<Code>)
    ensures menu == Menu(correct, eligible)
  {
    menu := [];
    if !correct {
      menu := menu + [D];
    }
    if eligible && correct {
      menu := menu + [W];
    }
    menu := menu + [R, Q];
  }

  /**
   * One selection of menu_loop, branch by branch as menu_loop tests it: a
   * code that is not on the menu, d, w, and r or q.
   */
  lemma MenuRunStep(lines: seq<string>, pos: nat, correct: bool, st: MenuState,
                    uploadOk: nat -> bool, diffOk: nat -> bool)
    requires Utils.NextInput(lines, pos, true, true).Some?
    ensures var next := Utils.NextInput(lines, pos, true, true).value.1;
      var c := CodeOf(Utils.NextInput(lines, pos, true, true).value.0);
      var run := MenuRun(lines, pos, correct, st, uploadOk, diffOk);
      && (c.None? || c.value !in Menu(correct, st.eligible) ==> run == MenuRun(lines, next, correct, st, uploadOk, diffOk))
      && (c == Some(D) && D in Menu(correct, st.eligible) ==>
            run == if diffOk(next - 1) then MenuRun(lines, next, correct, st, uploadOk, diffOk) else DiffFailed)
      && (c == Some(W) && W in Menu(correct, st.eligible) ==>
            run == MenuRun(lines, next, correct, if uploadOk(next - 1) then MenuState(false, true) else st, uploadOk, diffOk))
      && (c == Some(R) || c == Some(Q) ==> run == Chosen(c == Some(Q), st.uploaded, next))
  {
  }

  /** menu_loop. */
  method MenuLoop(id: Option<string>, compliant: bool, apiKey: Option<string>, correct: bool,
                  lines: seq<string>, pos: nat, uploadOk: nat -> bool, diffOk: nat -> bool)
    returns (r: MenuEnd)
    ensures r == MenuRun(lines, pos, correct, MenuState(UploadEligible(id, compliant, apiKey), false), uploadOk, diffOk)
  {
    var eligible := Truthy(id) && compliant && Truthy(apiKey);
    var uploaded := false;
    var p := pos;
    while true
      invariant pos <= p
      invariant MenuRun(lines, p, correct, MenuState(eligible, uploaded), uploadOk, diffOk)
             == MenuRun(lines, pos, correct, MenuState(UploadEligible(id, compliant, apiKey), false), uploadOk, diffOk)
      decreases |lines| - p
    {
      var menu := BuildMenu(correct, eligible);
      var input := Utils.InputLoop(lines, p, true, true);
      if input.None? {
        return InputEnded;
      }
      MenuRunStep(lines, p, correct, MenuState(eligible, uploaded), uploadOk, diffOk);
      var selection := CodeOf(input.value.0);
      p := input.value.1;
      if selection.None? || selection.value !in menu {
      } else if selection.value == D {
        if !diffOk(p - 1) {
          return DiffFailed;
        }
      } else if selection.value == W {
        if uploadOk(p - 1) {
          uploaded := true;
          eligible := false;
        }
      } else {
        return Chosen(selection.value == Q, uploaded, p);
      }
    }
  }

  /** menu_loop leaves only on r or q, and reports a quit exactly for q. */
  lemma {:induction false} MenuChoiceLine(lines: seq<string>, pos: nat, correct: bool, st: MenuState,
                                          uploadOk: nat -> bool, diffOk: nat -> bool)
    ensures var r := MenuRun(lines, pos, correct, st, uploadOk, diffOk);
      r.Chosen? ==>
        var code := CodeOf(Utils.Selection(lines[r.next - 1], true));
        (code == Some(R) || code == Some(Q)) && (r.quit <==> code == Some(Q))
    decreases |lines| - pos
  {
    var input := Utils.NextInput(lines, pos, true, true);
    if input.Some? {
      var next := input.value.1;
      var step := MenuStep(correct, st, CodeOf(input.value.0), uploadOk(next - 1), diffOk(next - 1));
      if step.Stay? {
        MenuChoiceLine(lines, next, correct, step.st, uploadOk, diffOk);
      } else {
        Utils.NextInputIsLastLine(lines, pos, true, true);
      }
    }
  }

  /** The line at p asked for an upload, and the upload succeeded. */
  predicate UploadSucceeded(lines: seq<string>, uploadOk: nat -> bool, p: nat) {
    p < |lines| && CodeOf(Utils.Selection(lines[p], true)) == Some(W) && uploadOk(p)
  }

  /** Some line in [from, to) asked for an upload that succeeded. */
  predicate UploadBetween(lines: seq<string>, uploadOk: nat -> bool, from: nat, to: nat) {
    exists p :: from <= p < to && UploadSucceeded(lines, uploadOk, p)
  }

  /** The blank lines input_loop skips ask for nothing. */
  lemma NoUploadWhileSkipping(lines: seq<string>, pos: nat, uploadOk: nat -> bool)
    requires Utils.NextInput(lines, pos, true, true).Some?
    ensures !UploadBetween(lines, uploadOk, pos, Utils.NextInput(lines, pos, true, true).value.1 - 1)
  {
    var q := Utils.NextInput(lines, pos, true, true).value.1 - 1;
    forall p | pos <= p < q
      ensures !UploadSucceeded(lines, uploadOk, p)
    {
      Utils.NextInputSkipsOnlyBlank(lines, pos, true, true, p);
    }
  }

  /**
   * menu_loop reports an upload exactly when one succeeded while it was
   * offered: the answer was correct, the challenge eligible, and some w
   * selection's upload went through.
   */
  lemma {:induction false} MenuUploaded(lines: seq<string>, pos: nat, correct: bool, st: MenuState,
                                        uploadOk: nat -> bool, diffOk: nat -> bool)
    ensures var r := MenuRun(lines, pos, correct, st, uploadOk, diffOk);
      r.Chosen? ==>
        (r.uploaded <==> st.uploaded || (correct && st.eligible && UploadBetween(lines, uploadOk, pos, r.next)))
    decreases |lines| - pos
  {
    var r := MenuRun(lines, pos, correct, st, uploadOk, diffOk);
    if r.Chosen? {
      Utils.NextInputIsLastLine(lines, pos, true, true);
      NoUploadWhileSkipping(lines, pos, uploadOk);
      var (sel, next) := Utils.NextInput(lines, pos, true, true).value;
      var q := next - 1;
      var step := MenuStep(correct, st, CodeOf(sel), uploadOk(q), diffOk(q));
      if step.Leave? {
        assert r.next == next && r.uploaded == st.uploaded;
        assert !UploadSucceeded(lines, uploadOk, q);
        assert !UploadBetween(lines, uploadOk, pos, next);
      } else {
        var st' := step.st;
        MenuUploaded(lines, next, correct, st', uploadOk, diffOk);
        assert r == MenuRun(lines, next, correct, st', uploadOk, diffOk);
        if st' == st {
          if correct && st.eligible && UploadBetween(lines, uploadOk, pos, r.next) {
            var p :| pos <= p < r.next && UploadSucceeded(lines, uploadOk, p);
            assert p != q;
            assert UploadBetween(lines, uploadOk, next, r.next);
          }
        } else {
          assert UploadSucceeded(lines, uploadOk, q);
          assert UploadBetween(lines, uploadOk, pos, r.next);
        }
      }
    }
  }

  /** Once an upload has succeeded, w is gone and nothing is uploaded again; the report stays true. */
  lemma AfterUploadNoMoreUploads(lines: seq<string>, pos: nat, correct: bool,
                                 uploadOk: nat -> bool, diffOk: nat -> bool)
    ensures W !in Menu(correct, false)
    ensures var r := MenuRun(lines, pos, correct, MenuState(false, true), uploadOk, diffOk);
      r.Chosen? ==> r.uploaded
  {
    MenuUploaded(lines, pos, correct, MenuState(false, true), uploadOk, diffOk);
  }

  // ------------------------------------------------------------------
  // Scoring an attempt
  // ------------------------------------------------------------------

  /** The keycodes that count: the ignored ones filtered out, order kept. */
  function Counted(ks: seq<Keys.Keycode>): (r: seq<Keys.Keycode>)
    ensures |r| <= |ks|
    ensures forall k :: k in r ==> k in ks && k !in Keys.IGNORED_KEYSTROKES
  {
    if ks == [] then []
    else (if ks[0] in Keys.IGNORED_KEYSTROKES then [] else [ks[0]]) + Counted(ks[1..])
  }

  /** Filtering distributes over concatenation, so the kept keycodes stay in the order they were typed. */
  lemma {:induction false} CountedAppend(a: seq<Keys.Keycode>, b: seq<Keys.Keycode>)
    ensures Counted(a + b) == Counted(a) + Counted(b)
  {
    if a == [] {
      assert a + b == b && Counted(a) + Counted(b) == Counted(b);
    } else {
      var ab, rest := a + b, a[1..];
      assert ab[0] == a[0] && ab[1..] == rest + b;
      var head := if a[0] in Keys.IGNORED_KEYSTROKES then [] else [a[0]];
      assert Counted(ab) == head + Counted(rest + b);
      assert Counted(a) == head + Counted(rest);
      CountedAppend(rest, b);
      Regroup(head, Counted(rest), Counted(b));
    }
  }

  /** Concatenation of keycode lists regroups freely. */
  lemma Regroup(x: seq<Keys.Keycode>, y: seq<Keys.Keycode>, z: seq<Keys.Keycode>)
    ensures x + (y + z) == (x + y) + z
  {
  }

  /** A single keycode is kept exactly when it is not ignored. */
  lemma CountedSingle(k: Keys.Keycode)
    ensures Counted([k]) == if k in Keys.IGNORED_KEYSTROKES then [] else [k]
  {
    assert [k][1..] == [];
  }

  /** No keycode that counts is lost: every one that is not ignored survives the filter. */
  lemma {:induction false} CountedComplete(ks: seq<Keys.Keycode>)
    ensures forall k :: k in ks && k !in Keys.IGNORED_KEYSTROKES ==> k in Counted(ks)
  {
    if ks != [] {
      CountedComplete(ks[1..]);
      assert forall k :: k in ks ==> k == ks[0] || k in ks[1..];
    }
  }

  /** The rendered keystrokes and the score of one attempt. */
  datatype Scored = Scored(keys: seq<string>, score: nat)

  /** keycode_reprs and score are built from the same filtered list, so there is one token per point. */
  function Scoring(keycodes: seq<Keys.Keycode>): (r: Scored)
    ensures |r.keys| == r.score
    ensures r.score == |Counted(keycodes)| <= |keycodes|
  {
    var kept := Counted(keycodes);
    Scored(Keys.RenderAll(kept), |kept|)
  }

  /** A log of plain bytes (no escapes) scores one point per byte: no single-byte key is ignored. */
  lemma {:induction false} PlainLogScore(log: seq<Common.byte>)
    requires forall i :: 0 <= i < |log| ==> log[i] != Keys.ESCAPE
    ensures Keys.Decode(log).Ok? && |Counted(Keys.Decode(log).value)| == |log|
  {
    if log != [] {
      PlainLogScore(log[1..]);
      Keys.IgnoredKeystrokesShape(log[0]);
      var rest := Keys.Decode(log[1..]).value;
      assert Keys.Decode(log).value == [Keys.Keycode(0, log[0])] + rest;
      assert ([Keys.Keycode(0, log[0])] + rest)[1..] == rest;
    }
  }

  // ------------------------------------------------------------------
  // The attempt loop
  // ------------------------------------------------------------------

  /** What the editor leaves behind: the edited input file and the keystroke log, or an exception. */
  datatype EditorRun = Edited(text: string, log: seq<Common.byte>) | EditorCrashed

  /**
   * The outside world: the editor (given the attempt number and what the
   * input file holds when it starts), the clock (per attempt), and the
   * outcome of the upload or diff asked for by the input line at a position.
   */
  datatype Ports = Ports(editor: (nat, string) -> EditorRun, clock: nat -> string,
                         uploadOk: nat -> bool, diffOk: nat -> bool)

  /** What the loop needs of the challenge: whether answers are recorded and whether uploads are offered. */
  datatype Setup = Setup(record: bool, eligible: bool, inText: string, outText: string)

  /** How a session stops. */
  datatype SessionEnd = Quit | EditorFailure | LogUnreadable | DiffFailure | EndOfInput

  /** One attempt: finished at a choice of r or q, or stopped by a failure. */
  datatype AttemptEnd =
    | Completed(scored: Scored, correct: bool, uploaded: bool, quit: bool, next: nat)
    | Failed(end: SessionEnd)

  function AttemptRun(setup: Setup, ports: Ports, lines: seq<string>, pos: nat, attempt: nat): (a: AttemptEnd)
    ensures a.Completed? ==> pos < a.next <= |lines| && |a.scored.keys| == a.scored.score
    ensures a.Failed? ==> a.end != Quit
  {
    match ports.editor(attempt, setup.inText)
    case EditorCrashed => Failed(EditorFailure)
    case Edited(text, log) =>
      var correct := text == setup.outText;
      match Keys.Decode(log)
      case Err(_) => Failed(LogUnreadable)
      case Ok(keycodes) =>
        match MenuRun(lines, pos, correct, MenuState(setup.eligible, false), ports.uploadOk, ports.diffOk)
        case InputEnded => Failed(EndOfInput)
        case DiffFailed => Failed(DiffFailure)
        case Chosen(quit, uploaded, next) => Completed(Scoring(keycodes), correct, uploaded, quit, next)
  }

  /** The answers recorded, the number of attempts that reached a choice, and how the session stopped. */
  datatype SessionResult = SessionResult(answers: seq<Answers.Answer>, completed: nat, end: SessionEnd)

  /**
   * The attempts of a session as a function of the input position and the
   * attempt number.  The loop of attempts is stated over any such function;
   * main_loop's own attempts are AttemptsOf.
   */
  type Attempts = (nat, nat) -> AttemptEnd

  /** A completed attempt consumes at least one input line, and no more than there are. */
  ghost predicate ConsumesInput(run: Attempts, lines: seq<string>) {
    forall p: nat, k: nat :: run(p, k).Completed? ==> p < run(p, k).next <= |lines|
  }

  /** A completed attempt has one rendered key per point of its score. */
  ghost predicate ScoresKeys(run: Attempts) {
    forall p: nat, k: nat :: run(p, k).Completed? ==> |run(p, k).scored.keys| == run(p, k).scored.score
  }

  /** The attempt that AttemptsOf gives at a position is AttemptRun's. */
  lemma AttemptsOfApply(setup: Setup, ports: Ports, lines: seq<string>, p: nat, k: nat)
    ensures AttemptsOf(setup, ports, lines)(p, k) == AttemptRun(setup, ports, lines, p, k)
  {
  }

  /** run gives, at every position and attempt number, the attempt AttemptRun specifies for setup. */
  ghost predicate Runs(run: Attempts, setup: Setup, ports: Ports, lines: seq<string>) {
    forall p: nat, k: nat {:trigger AttemptRun(setup, ports, lines, p, k)} ::
      run(p, k) == AttemptRun(setup, ports, lines, p, k)
  }

  /** A failed attempt never reads as a quit, and a completed one quits exactly when the line that closed its menu selected q. */
  ghost predicate QuitsOnQ(run: Attempts, lines: seq<string>) {
    forall p: nat, k: nat ::
      && (run(p, k).Failed? ==> run(p, k).end != Quit)
      && (run(p, k).Completed? && 0 < run(p, k).next <= |lines| ==>
            (run(p, k).quit <==> CodeOf(Utils.Selection(lines[run(p, k).next - 1], true)) == Some(Q)))
  }

  /** The attempts of main_loop: each consumes input and scores one key per point. */
  function AttemptsOf(setup: Setup, ports: Ports, lines: seq<string>): (run: Attempts)
    ensures ConsumesInput(run, lines) && ScoresKeys(run)
  {
    (p: nat, k: nat) => AttemptRun(setup, ports, lines, p, k)
  }

  /** main_loop's attempts end the session exactly on a q. */
  lemma AttemptsQuitOnQ(setup: Setup, ports: Ports, lines: seq<string>)
    ensures QuitsOnQ(AttemptsOf(setup, ports, lines), lines)
  {
    forall p: nat, k: nat
      ensures var a := AttemptRun(setup, ports, lines, p, k);
        && (a.Failed? ==> a.end != Quit)
        && (a.Completed? ==> (a.quit <==> CodeOf(Utils.Selection(lines[a.next - 1], true)) == Some(Q)))
    {
      AttemptQuitLine(setup, ports, lines, p, k);
    }
  }

  /** An attempt ends the session only when the line that closed its menu selected q. */
  lemma AttemptQuitLine(setup: Setup, ports: Ports, lines: seq<string>, pos: nat, attempt: nat)
    ensures var a := AttemptRun(setup, ports, lines, pos, attempt);
      a.Completed? ==> (a.quit <==> CodeOf(Utils.Selection(lines[a.next - 1], true)) == Some(Q))
  {
    var a := AttemptRun(setup, ports, lines, pos, attempt);
    var run := ports.editor(attempt, setup.inText);
    if run.Edited? && Keys.Decode(run.log).Ok? {
      var correct := run.text == setup.outText;
      var m := MenuRun(lines, pos, correct, MenuState(setup.eligible, false), ports.uploadOk, ports.diffOk);
      MenuChoiceLine(lines, pos, correct, MenuState(setup.eligible, false), ports.uploadOk, ports.diffOk);
      if m.Chosen? {
        assert a == Completed(Scoring(Keys.Decode(run.log).value), correct, m.uploaded, m.quit, m.next);
      }
    }
  }

  /** The answer recorded for a completed attempt, when answers are recorded: stamped by the clock. */
  function Recorded(record: bool, clock: nat -> string, a: AttemptEnd, attempt: nat): seq<Answers.Answer>
    requires a.Completed?
  {
    if record
    then [Answers.Answer(a.scored.keys, a.correct, a.scored.score, a.uploaded, clock(attempt))]
    else []
  }

  /** What an attempt adds to the journal: its answer when it completed and answers are recorded. */
  function Journaled(record: bool, clock: nat -> string, a: AttemptEnd, attempt: nat): seq<Answers.Answer> {
    if a.Completed? then Recorded(record, clock, a, attempt) else []
  }

  /** The loop of attempts from attempt number `attempt`, reading input from pos, until one fails or quits. */
  function SessionRun(record: bool, clock: nat -> string, run: Attempts, lines: seq<string>,
                      pos: nat, attempt: nat): (r: SessionResult)
    requires ConsumesInput(run, lines)
    decreases |lines| - pos
  {
    var a := run(pos, attempt);
    if a.Failed? then SessionResult([], 0, a.end)
    else if a.quit then SessionResult(Recorded(record, clock, a, attempt), 1, Quit)
    else
      var rest := SessionRun(record, clock, run, lines, a.next, attempt + 1);
      SessionResult(Recorded(record, clock, a, attempt) + rest.answers, 1 + rest.completed, rest.end)
  }

  /** One answer per completed attempt when answers are recorded, none otherwise. */
  lemma {:induction false} SessionRecordsEachAttempt(record: bool, clock: nat -> string, run: Attempts,
                                                     lines: seq<string>, pos: nat, attempt: nat)
    requires ConsumesInput(run, lines)
    ensures var r := SessionRun(record, clock, run, lines, pos, attempt);
      |r.answers| == (if record then r.completed else 0)
    decreases |lines| - pos
  {
    var a := run(pos, attempt);
    if a.Completed? && !a.quit {
      SessionRecordsEachAttempt(record, clock, run, lines, a.next, attempt + 1);
    }
  }

  /** The answers carry the clock readings of consecutive attempts, the first of them attempt k. */
  predicate Stamped(answers: seq<Answers.Answer>, clock: nat -> string, k: nat) {
    forall i :: 0 <= i < |answers| ==> answers[i].timestamp == clock(k + i)
  }

  lemma StampedConcat(head: Answers.Answer, rest: seq<Answers.Answer>, clock: nat -> string, k: nat)
    requires head.timestamp == clock(k) && Stamped(rest, clock, k + 1)
    ensures Stamped([head] + rest, clock, k)
  {
    forall i | 0 <= i < |[head] + rest|
      ensures ([head] + rest)[i].timestamp == clock(k + i)
    {
      if i > 0 {
        assert ([head] + rest)[i] == rest[i - 1];
      }
    }
  }

  /** The answers of a session carry the clock readings of its attempts, in order. */
  lemma {:induction false} SessionStampsAttempts(clock: nat -> string, run: Attempts, lines: seq<string>,
                                                 pos: nat, attempt: nat)
    requires ConsumesInput(run, lines)
    ensures Stamped(SessionRun(true, clock, run, lines, pos, attempt).answers, clock, attempt)
    decreases |lines| - pos
  {
    var a := run(pos, attempt);
    if a.Completed? {
      var head := Answers.Answer(a.scored.keys, a.correct, a.scored.score, a.uploaded, clock(attempt));
      if a.quit {
        StampedConcat(head, [], clock, attempt);
        assert [head] + [] == [head];
      } else {
        SessionStampsAttempts(clock, run, lines, a.next, attempt + 1);
        StampedConcat(head, SessionRun(true, clock, run, lines, a.next, attempt + 1).answers, clock, attempt);
      }
    }
  }

  /** Every answer has one rendered key per point of its score. */
  predicate AllScored(answers: seq<Answers.Answer>) {
    forall i :: 0 <= i < |answers| ==> |answers[i].keys| == answers[i].score
  }

  lemma AllScoredConcat(head: seq<Answers.Answer>, rest: seq<Answers.Answer>)
    requires AllScored(head) && AllScored(rest)
    ensures AllScored(head + rest)
  {
    assert forall i :: 0 <= i < |head + rest| ==> (head + rest)[i] == (if i < |head| then head[i] else rest[i - |head|]);
  }

  /** Every recorded answer has one rendered key per point of its score. */
  lemma {:induction false} SessionAnswersScored(record: bool, clock: nat -> string, run: Attempts,
                                                lines: seq<string>, pos: nat, attempt: nat)
    requires ConsumesInput(run, lines) && ScoresKeys(run)
    ensures AllScored(SessionRun(record, clock, run, lines, pos, attempt).answers)
    decreases |lines| - pos
  {
    var a := run(pos, attempt);
    if a.Completed? {
      var head := Recorded(record, clock, a, attempt);
      assert AllScored(head);
      if !a.quit {
        SessionAnswersScored(record, clock, run, lines, a.next, attempt + 1);
        AllScoredConcat(head, SessionRun(record, clock, run, lines, a.next, attempt + 1).answers);
      }
    }
  }

  /** Only a q ends the session normally: input without a q line never leads to Quit. */
  lemma {:induction false} QuitNeedsQ(record: bool, clock: nat -> string, run: Attempts,
                                      lines: seq<string>, pos: nat, attempt: nat)
    requires ConsumesInput(run, lines) && QuitsOnQ(run, lines)
    requires forall p :: 0 <= p < |lines| ==> CodeOf(Utils.Selection(lines[p], true)) != Some(Q)
    ensures SessionRun(record, clock, run, lines, pos, attempt).end != Quit
    decreases |lines| - pos
  {
    var a := run(pos, attempt);
    if a.Completed? {
      assert !a.quit;
      QuitNeedsQ(record, clock, run, lines, a.next, attempt + 1);
    }
  }

  /** The files of the workspace: the input file the editor works on, the expected output, and the log. */
  class Workspace {
    var infile: string
    var outfile: string
    var log: seq<Common.byte>

    constructor()
      ensures infile == [] && outfile == [] && log == []
    {
      infile, outfile, log := [], [], [];
    }
  }

  /** The setup main_loop runs with for a challenge and the workspace's expected output. */
  function SetupOf(ch: Answers.Challenge, outText: string): Setup {
    Setup(Truthy(ch.id), UploadEligible(ch.id, ch.compliant, ch.apiKey), ch.inText, outText)
  }

  /** The whole of main_loop for a challenge: answers recorded when it has an id. */
  function MainLoopRun(ch: Answers.Challenge, outText: string, lines: seq<string>, ports: Ports): SessionResult {
    SessionRun(Truthy(ch.id), ports.clock, AttemptsOf(SetupOf(ch, outText), ports, lines), lines, 0, 0)
  }

  /** One pass of main_loop's body: the attempt, and its answer appended when the challenge has an id. */
  method RunAttempt(ch: Answers.Challenge, ws: Workspace, lines: seq<string>, pos: nat, attempt: nat, ports: Ports,
                    ghost setup: Setup, ghost run: Attempts)
    returns (a: AttemptEnd)
    requires setup == SetupOf(ch, ws.outfile) && Runs(run, setup, ports, lines)
    modifies ch`journal, ws
    ensures ws.outfile == old(ws.outfile) && ch.metadata == old(ch.metadata)
    ensures var edit := ports.editor(attempt, ch.inText);
      ws.infile == if edit.Edited? then edit.text else ch.inText
    ensures a == run(pos, attempt)
    ensures ch.journal == old(ch.journal) + Journaled(Truthy(ch.id), ports.clock, a, attempt)
  {
    assert run(pos, attempt) == AttemptRun(setup, ports, lines, pos, attempt);
    ws.infile := ch.inText;
    var edit := ports.editor(attempt, ws.infile);
    if edit.EditorCrashed? {
      return Failed(EditorFailure);
    }
    ws.infile := edit.text;
    ws.log := edit.log;
    var correct := ws.infile == ws.outfile;
    var keycodes := Keys.ParseKeycodes(ws.log);
    if keycodes.Err? {
      return Failed(LogUnreadable);
    }
    var scored := Scoring(keycodes.value);
    var m := MenuLoop(ch.id, ch.compliant, ch.apiKey, correct, lines, pos, ports.uploadOk, ports.diffOk);
    if m.InputEnded? {
      return Failed(EndOfInput);
    } else if m.DiffFailed? {
      return Failed(DiffFailure);
    }
    a := Completed(scored, correct, m.uploaded, m.quit, m.next);
    if Truthy(ch.id) {
      ch.AddAnswer(scored.keys, correct, scored.score, m.uploaded, ports.clock(attempt));
    }
  }

  /** A session result with the answers and attempts of earlier attempts in front. */
  function After(done: seq<Answers.Answer>, count: nat, r: SessionResult): SessionResult {
    SessionResult(done + r.answers, count + r.completed, r.end)
  }

  /** Nothing in front changes nothing. */
  lemma AfterNothing(r: SessionResult)
    ensures After([], 0, r) == r
  {
    assert [] + r.answers == r.answers;
  }

  /** A session that goes on after an attempt is that attempt followed by the rest. */
  lemma SessionContinues(record: bool, clock: nat -> string, run: Attempts, lines: seq<string>,
                         pos: nat, attempt: nat, done: seq<Answers.Answer>, count: nat)
    requires ConsumesInput(run, lines)
    requires run(pos, attempt).Completed? && !run(pos, attempt).quit
    ensures After(done, count, SessionRun(record, clock, run, lines, pos, attempt))
      == After(done + Recorded(record, clock, run(pos, attempt), attempt), count + 1,
               SessionRun(record, clock, run, lines, run(pos, attempt).next, attempt + 1))
  {
    var head := Recorded(record, clock, run(pos, attempt), attempt);
    var rest := SessionRun(record, clock, run, lines, run(pos, attempt).next, attempt + 1);
    assert done + (head + rest.answers) == done + head + rest.answers;
  }

  /** A session whose attempt fails or quits ends with that attempt. */
  lemma SessionStops(record: bool, clock: nat -> string, run: Attempts, lines: seq<string>,
                     pos: nat, attempt: nat, done: seq<Answers.Answer>, count: nat)
    requires ConsumesInput(run, lines)
    requires run(pos, attempt).Failed? || run(pos, attempt).quit
    ensures After(done, count, SessionRun(record, clock, run, lines, pos, attempt))
      == if run(pos, attempt).Failed? then SessionResult(done, count, run(pos, attempt).end)
         else SessionResult(done + Recorded(record, clock, run(pos, attempt), attempt), count + 1, Quit)
  {
    assert done + [] == done;
  }

  /** One attempt of a session, with the answers and attempts of earlier ones in front. */
  lemma SessionStep(record: bool, clock: nat -> string, run: Attempts, lines: seq<string>,
                    pos: nat, attempt: nat, done: seq<Answers.Answer>)
    requires ConsumesInput(run, lines)
    ensures var a := run(pos, attempt);
      var done' := done + Journaled(record, clock, a, attempt);
      After(done, attempt, SessionRun(record, clock, run, lines, pos, attempt))
        == if a.Failed? then SessionResult(done', attempt, a.end)
           else if a.quit then SessionResult(done', attempt + 1, Quit)
           else After(done', attempt + 1, SessionRun(record, clock, run, lines, a.next, attempt + 1))
  {
    var a := run(pos, attempt);
    if a.Failed? || a.quit {
      SessionStops(record, clock, run, lines, pos, attempt, done, attempt);
      assert done + [] == done;
    } else {
      SessionContinues(record, clock, run, lines, pos, attempt, done, attempt);
    }
  }

  /** main_loop: attempts until q, appending one answer per attempt when the challenge has an id. */
  method MainLoop(ch: Answers.Challenge, ws: Workspace, lines: seq<string>, ports: Ports)
    returns (end: SessionEnd)
    modifies ch`journal, ws
    ensures ws.outfile == old(ws.outfile) && ch.metadata == old(ch.metadata)
    ensures var r := MainLoopRun(ch, old(ws.outfile), lines, ports);
      ch.journal == old(ch.journal) + r.answers && end == r.end
  {
    ghost var setup := SetupOf(ch, ws.outfile);
    ghost var run := AttemptsOf(setup, ports, lines);
    AttemptsOfRuns(setup, ports, lines);
    end := AttemptLoop(ch, ws, lines, ports, setup, run);
  }

  /** main_loop's attempts are the ones AttemptRun specifies. */
  lemma AttemptsOfRuns(setup: Setup, ports: Ports, lines: seq<string>)
    ensures Runs(AttemptsOf(setup, ports, lines), setup, ports, lines)
  {
  }

  /** The while loop of main_loop, over the attempts run gives. */
  method AttemptLoop(ch: Answers.Challenge, ws: Workspace, lines: seq<string>, ports: Ports,
                     ghost setup: Setup, ghost run: Attempts)
    returns (end: SessionEnd)
    requires setup == SetupOf(ch, ws.outfile) && Runs(run, setup, ports, lines) && ConsumesInput(run, lines)
    modifies ch`journal, ws
    ensures ws.outfile == old(ws.outfile) && ch.metadata == old(ch.metadata)
    ensures var r := SessionRun(Truthy(ch.id), ports.clock, run, lines, 0, 0);
      ch.journal == old(ch.journal) + r.answers && end == r.end
  {
    var record := Truthy(ch.id);
    var attempt := 0;
    var pos := 0;
    ghost var done: seq<Answers.Answer> := [];
    AfterNothing(SessionRun(record, ports.clock, run, lines, 0, 0));
    while true
      invariant ws.outfile == old(ws.outfile)
      invariant ch.journal == old(ch.journal) + done
      invariant SessionRun(record, ports.clock, run, lines, 0, 0)
             == After(done, attempt, SessionRun(record, ports.clock, run, lines, pos, attempt))
      decreases |lines| - pos
    {
      var a := RunAttempt(ch, ws, lines, pos, attempt, ports, setup, run);
      SessionStep(record, ports.clock, run, lines, pos, attempt, done);
      done := done + Journaled(record, ports.clock, a, attempt);
      if a.Failed? {
        return a.end;
      }
      if a.quit {
        return Quit;
      }
      attempt, pos := attempt + 1, a.next;
    }
  }

  /** Python's Status values. */
  datatype Status = SUCCESS | FAILURE

  /** How a call ends: a return value (None when the function returns nothing), an exception, or sys.exit. */
  datatype Outcome = Returned(status: Option<Status>) | Raised | Exited(code: nat)

  const EXIT_FAILURE: nat := 1

  /** core.py play: an editor failure is caught and reported as FAILURE; other failures escape. */
  function CoreOutcome(end: SessionEnd): Outcome {
    match end
    case Quit => Returned(Some(SUCCESS))
    case EditorFailure => Returned(Some(FAILURE))
    case LogUnreadable => Raised
    case DiffFailure => Raised
    case EndOfInput => Exited(EXIT_FAILURE)
  }

  /** play.py play: returns nothing after q; editor and diff failures escape as exceptions. */
  function PlayOutcome(end: SessionEnd): Outcome {
    match end
    case Quit => Returned(None)
    case EditorFailure => Raised
    case LogUnreadable => Raised
    case DiffFailure => Raised
    case EndOfInput => Exited(EXIT_FAILURE)
  }

  /** play.py play: write the expected output, then run main_loop. */
  method Play(ch: Answers.Challenge, ws: Workspace, lines: seq<string>, ports: Ports) returns (o: Outcome)
    modifies ch`journal, ws
    ensures ws.outfile == ch.outText && ch.metadata == old(ch.metadata)
    ensures var r := MainLoopRun(ch, ch.outText, lines, ports);
      ch.journal == old(ch.journal) + r.answers && o == PlayOutcome(r.end)
  {
    ws.outfile := ch.outText;
    var end := MainLoop(ch, ws, lines, ports);
    o := PlayOutcome(end);
  }

  /** core.py play: FAILURE when no editor is found; otherwise the same loop, with core.py's handling of failures. */
  method CorePlay(ch: Answers.Challenge, ws: Workspace, editorFound: bool, lines: seq<string>, ports: Ports)
    returns (o: Outcome)
    modifies ch`journal, ws
    ensures ch.metadata == old(ch.metadata)
    ensures !editorFound ==> o == Returned(Some(FAILURE)) && ch.journal == old(ch.journal)
    ensures editorFound ==> var r := MainLoopRun(ch, ch.outText, lines, ports);
      ch.journal == old(ch.journal) + r.answers && o == CoreOutcome(r.end)
  {
    if !editorFound {
      return Returned(Some(FAILURE));
    }
    ws.outfile := ch.outText;
    var end := MainLoop(ch, ws, lines, ports);
    o := CoreOutcome(end);
  }

  /** The upload port of play.py: success exactly when the reply's status is "ok"; any exception is a failure. */
  function UploadResult(reply: Option<map<string, string>>): (ok: bool)
    ensures ok <==> reply.Some? && "status" in reply.value && reply.value["status"] == "ok"
  {
    match reply
    case None => false
    case Some(message) => "status" in message && message["status"] == "ok"
  }
}
