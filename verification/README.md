# vimgolf client core in Dafny

This project models the core of the vimgolf command-line client: the client
that lets a player solve a vimgolf challenge in vim, scores the keystrokes vim
recorded, keeps the player's history, and offers to upload the entry.

The model covers these parts of the client:

- **Keystroke log** (`keys.dfy`, module `Keys`):
  - the decoder of vim's `-W` log (`parse_keycodes`), proved equal to an entry-by-entry specification;
  - the keycode-to-token table, built by the same loops as at import time;
  - the bracketed-hexadecimal fallback of `get_keycode_repr`;
  - the set of ignored keystrokes.
- **Token splitting** (`keytrie.dfy`, module `KeyTrie`):
  - the `Trie` class;
  - `tokenize_keycode_reprs`, proved against a specification that always picks the shortest special name, compared without case.
- **Identifiers** (`core.dfy`, module `Core`): challenge-id and API-key validation, `+` shortcut expansion, and the leaderboard address.
- **History** (`answers.dfy`, module `Answers`):
  - the `Challenge` class, holding its journal of answers and its metadata dictionary;
  - `add_answer`, the `answers` property (a stable sort by timestamp) and the `update_metadata` fold.
- **Play session** (`session.dfy`, module `Session`):
  - `menu_loop`, `main_loop` and `play` of `vimgolf/play.py`, with the same loop inside `play` of `vimgolf/core.py`;
  - the outside world is a set of ports: the editor, the clock, the upload and diff outcomes, and standard input as a finite sequence of lines.
- **Older client** (`legacy.dfy`, module `Legacy`): what `vimgolf/vimgolf.py` does differently, namely the sanitised file extension and a play loop that records no answers.
- **String helpers** (`utils.dfy`, module `Utils`): `format_`, `join_lines`, `maybe_colorize`, `input_loop`, `confirm` and `bool_to_mark`.
- **HTML** (`html.dfy`, module `Html`):
  - element and text nodes linked to their parent and children;
  - the `HtmlParser` callbacks, which build that tree with a stack of open elements;
  - a description by positions of the tree a sequence of events gives (`Opened`, `ParentOf`, `ChildrenOf`), which the parser is proved to build, parent and children links included;
  - the order-preserving queries over the list of nodes.

`vimgolf/vimgolf.py` repeats several of these. Each copy is modelled once, by the member named in the table for the newer file:

- `join_lines` (`vimgolf/vimgolf.py:163-165`) and `format_` (`vimgolf/vimgolf.py:202-207`);
- the colouring inside `write` (`vimgolf/vimgolf.py:168-184`);
- `input_loop` and `confirm` (`vimgolf/vimgolf.py:210-242`);
- the validators (`vimgolf/vimgolf.py:303-313`);
- `expand_challenge_id` and `get_challenge_url` (`vimgolf/vimgolf.py:356-363`).

The menu, selection handling and attempt inside `play` of `vimgolf/core.py` (`vimgolf/core.py:301-387`) are the same as in `vimgolf/play.py`, and are modelled by the same members.

`common.dfy` (module `Common`) holds the shared vocabulary: `Option`, `Result`, bytes, and the Python string built-ins the client uses.

The model follows the code where its behaviour differs from what one might expect of the client:

- **Editor failure.** In `play.py` an editor failure is an exception that escapes `play`. In `core.py` it returns `FAILURE`. Neither exits the process.
- **Best score.** The best score is the minimum of a loop that starts from the stub `10**10`. A correct score at or above the stub therefore reads as `-1`.
- **Metadata update.** `update_metadata` updates the existing metadata dictionary rather than rewriting it, so unrelated keys survive.

## Model

| member | source | states |
|---|---|---|
| Keys.ToBytes | vimgolf/keys.py:7-9 | defined exactly on 0..65535; the two bytes are the big-endian digits of x |
| Keys.ToBytesOfByte | vimgolf/keys.py:66 | a single byte b becomes the keycode (0x00, b) |
| Keys.ParseKeycodes | vimgolf/keys.py:52-68 | the pop-from-reversed-list loop returns exactly the entry-by-entry decoding, including its failure on a truncated escape |
| Keys.DecodeEntries | vimgolf/keys.py:52-68 | a log made of whole entries (a non-0x80 byte, or 0x80 and two bytes) decodes to one keycode per entry: (0x00, b) or (b1, b2) |
| Keys.DecodedLogIsEntries | vimgolf/keys.py:52-68 | every log that decodes splits into whole entries whose keycodes are the result, so the entry widths sum to the log length |
| Keys.DecodeEncode | vimgolf/keys.py:52-68 | every keycode sequence is recovered by decoding vim's encoding of it |
| Keys.DecodeAppend | vimgolf/keys.py:59-67 | decoding is compositional at entry boundaries |
| Keys.TruncatedEscapeFails | vimgolf/keys.py:58-63 | an escape byte followed by fewer than two bytes makes decoding fail, with no partial result |
| Keys.DecodeFailureIsTruncation | vimgolf/keys.py:58-63 | a failure happens only at an escape byte among the last two of the log, after a prefix that decodes |
| Keys.IgnoredKeystrokesShape | vimgolf/keys.py:72-79 | exactly five ignored codes, all with first byte 0xfd, so no single-byte keystroke is ignored |
| Keys.BuildRangeTable | vimgolf/keys.py:81-90 | the three range loops give every single byte its <C-x>, literal or <0xNN> entry |
| Keys.AddControlRange | vimgolf/keys.py:82-84 | bytes 0..31 become <C-@> .. <C-_> |
| Keys.AddPrintableRange | vimgolf/keys.py:85-87 | bytes 32..126 stand for themselves |
| Keys.AddHighRange | vimgolf/keys.py:88-90 | bytes 127..255 become <0x7f> .. <0xff> |
| Keys.AddSpecialNames | vimgolf/keys.py:91-96 | writing <Tab>, <NL>, <CR>, <Esc> and <Del> over the range entries gives exactly the single-byte table |
| Keys.BuildReprLookup | vimgolf/keys.py:81-243 | the import-time construction yields the table: range entries, five renamed bytes, then the named-code literal |
| Keys.InReprTable | vimgolf/keys.py:81-243 | the dictionary and the lookup function agree on membership and value for every keycode |
| Keys.SingleByteEntry | vimgolf/keys.py:82-96 | every single-byte keycode has an entry, of length 1 exactly for 32..126, and then it is chr(b) |
| Keys.NamedEntryInTable | vimgolf/keys.py:98-243 | every name of the named-code literal is the table's value for its code |
| Keys.NamedCodesAreTwoByte | vimgolf/keys.py:98-243 | no named code has first byte 0x00, so the literal never overrides a single byte |
| Keys.LeftName | vimgolf/keys.py:154 | the cursor-left code is named <Left> |
| Keys.TableValueShape | vimgolf/keys.py:81-243 | every table value is one character or a name in angle brackets |
| Keys.Hex2Injective | vimgolf/keys.py:251 | two-digit hexadecimal is injective on bytes |
| Keys.Fallback | vimgolf/keys.py:249-252 | the fallback rendering has 10 characters, '[' first and ']' last |
| Keys.KeycodeRepr | vimgolf/keys.py:246-253 | get_keycode_repr is total; an unmapped code renders as the 10-character bracketed form |
| Keys.KeycodeReprIsTableGet | vimgolf/keys.py:246-253 | the rendering is the table's value when the code is in the table, the fallback otherwise |
| Keys.FallbackNeverTableValue | vimgolf/keys.py:246-253 | a fallback rendering never equals a table value |
| Keys.FallbackInjective | vimgolf/keys.py:249-252 | distinct keycodes have distinct fallback renderings |
| Keys.UnmappedRenderingUnique | vimgolf/keys.py:246-253 | an unmapped keycode shares its rendering with no other keycode |
| Keys.TableNotInjective | vimgolf/keys.py:96-194 | <Del>, <S-F10> and <C-@> each name two keycodes, so the reverse mapping is not unique |
| Keys.RenderAll | vimgolf/core.py:334 | keycode_reprs has one rendering per keycode, position by position |
| Keys.RenderingVectorZZ | tests/test_keys.py:5 | the log 5a 5a renders as Z Z |
| Keys.RenderingVectorF1 | tests/test_keys.py:6 | the log 80 6b 31 5a 5a renders as <F1> Z Z |
| Keys.RenderingVectorControls | tests/test_keys.py:7 | the log 1b 18 0e 0d renders as <Esc> <C-X> <C-N> <CR> |
| KeyTrie.Trie.constructor | vimgolf/keys.py:13-15 | a new trie has no members |
| KeyTrie.Trie.Add | vimgolf/keys.py:17-25 | adding a non-empty item makes it a member, keeps the others, and keeps every node's prefixes present |
| KeyTrie.Trie.Match | vimgolf/keys.py:27-41 | the result is the shortest length whose keyed text from start is a member; None when no length is |
| KeyTrie.Trie.NoMemberBeyond | vimgolf/keys.py:36-37 | once the walk leaves the trie, no longer text is a member, so returning None there is right |
| KeyTrie.PrefixesPresent | vimgolf/keys.py:21-24 | every prefix of a node's path is itself a node |
| KeyTrie.AngleNameShape | vimgolf/keys.py:266-267 | a filtered table value, lower-cased, still starts with '<' and ends with '>' |
| KeyTrie.SpecialShape | vimgolf/keys.py:264-272 | every special name has at least two characters, '<' first and '>' last |
| KeyTrie.CollectSpecials | vimgolf/keys.py:264-272 | the first loop and the update give the lower-cased angle names of the table plus the extra names |
| KeyTrie.AngleNameIsSpecial | vimgolf/keys.py:265-267 | a table value in angle brackets contributes its lower-cased form |
| KeyTrie.LeftAndEscAreSpecial | vimgolf/keys.py:264-272 | <left> comes from the table and <esc> from the extra names |
| KeyTrie.BuildTrie | vimgolf/keys.py:273-275 | the trie holds exactly the special names |
| KeyTrie.MatchLowered | vimgolf/keys.py:280 | trie.match with lower-casing finds the shortest special name at idx |
| KeyTrie.MatchIsShortest | vimgolf/keys.py:27-41 | what the trie reports at idx is the specification's shortest special |
| KeyTrie.ShortestSpecialIsSpecial | vimgolf/keys.py:280-283 | a reported length spells a special name, compared without case |
| KeyTrie.ShortestSpecialIsLeast | vimgolf/keys.py:27-32 | no shorter length spells a special name, and none at all when nothing is reported |
| KeyTrie.SpecialStep | vimgolf/keys.py:279-284 | at a '<' that starts a special name, the shortest such name is the next token |
| KeyTrie.CharStep | vimgolf/keys.py:285-286 | anywhere else the next token is the single character |
| KeyTrie.PlainCharStep | vimgolf/keys.py:285-286 | a character other than '<' is always a token of its own |
| KeyTrie.NextToken | vimgolf/keys.py:279-286 | one step of the scan emits a token that is the text it advances over |
| KeyTrie.ScanTokens | vimgolf/keys.py:276-287 | the scanning loop returns exactly the specified tokens |
| KeyTrie.TokenizeKeycodeReprs | vimgolf/keys.py:261-287 | the whole function returns the specified tokens for the table's special names |
| KeyTrie.TokenizeConcat | vimgolf/keys.py:261-287 | concatenating the tokens gives back the input |
| KeyTrie.TokenShape | vimgolf/keys.py:276-287 | each token is one character, or starts with '<' and is special once lower-cased |
| KeyTrie.SpecialsAllClosed | vimgolf/keys.py:266 | every special name ends with '>' |
| KeyTrie.FirstClosingBracket | vimgolf/keys.py:258-260 | a '<' is the start of the first special name that a later '>' closes |
| KeyTrie.LeftInTable | vimgolf/keys.py:154 | <Left> is a value of the table |
| KeyTrie.TokenizeExample | vimgolf/keys.py:257 | i<left>asd<esc> splits into i, <left>, a, s, d, <esc> |
| KeyTrie.TokenizeExampleWith | vimgolf/keys.py:257 | the same split under any set of closed names holding <left> and <esc> |
| KeyTrie.TokenizeExampleOver | vimgolf/keys.py:257 | the same split for the specials of any table with <Left> among its values |
| Core.MatchWordCharsIff | vimgolf/core.py:36-37 | the 24- or 32-character match succeeds iff that many leading word characters exist, and it matches exactly them |
| Core.ValidateChallengeId | vimgolf/core.py:36-37 | None is rejected |
| Core.ChallengeIdAccepted | vimgolf/core.py:36-37 | an id is accepted iff its first 24 characters are word characters |
| Core.ValidateApiKey | vimgolf/core.py:45-46 | None is rejected |
| Core.ApiKeyAccepted | vimgolf/core.py:45-46 | a key is accepted iff its first 32 characters are word characters |
| Core.MatchIgnoresSuffix | vimgolf/core.py:36-37 | the match is a prefix match: appending text keeps an accepted string accepted, with the same match |
| Core.LongerIdAccepted | vimgolf/core.py:36-37 | an id longer than 24 characters is accepted when its first 24 are word characters |
| Core.ExpandChallengeId | vimgolf/core.py:85-88 | an id without '+' is unchanged; a changed id started with '+' and was replaced by the lookup's entry |
| Core.ExpandFindsEntry | vimgolf/core.py:85-88 | '+key' with key present expands to the entry |
| Core.ExpandIdempotent | vimgolf/core.py:85-88 | expanding twice is expanding once when no entry is itself a shortcut |
| Core.ChallengeUrl | vimgolf/core.py:91-92 | the address is the host's /challenges/ path followed by the id |
| Core.ChallengeUrlInjective | vimgolf/core.py:91-92 | different ids have different addresses |
| Answers.Challenge.constructor | vimgolf/core.py:105-121 | a challenge holds its id, texts, compliance flag and API key, with its journal and metadata as loaded |
| Answers.Challenge.AddAnswer | vimgolf/core.py:156-165 | appends exactly one record of keys, correct, score, uploaded and timestamp; earlier records and the metadata are unchanged |
| Answers.Challenge.Answers | vimgolf/core.py:167-175 | the answers are every journal record, no other, in timestamp order |
| Answers.AnswersAfterAdd | vimgolf/core.py:156-175 | reading back after add_answer gives the old records and the new one |
| Answers.NotAfterTransitive | vimgolf/core.py:175 | the timestamp order used by the sort is a total preorder |
| Answers.SortPermutes | vimgolf/core.py:175 | the sort keeps every record, as a multiset |
| Answers.SortSorts | vimgolf/core.py:175 | the sort's result is in ascending timestamp order |
| Answers.SortStable | vimgolf/core.py:175 | records with equal timestamps keep their journal order |
| Answers.SortOfSorted | vimgolf/core.py:175 | a journal already in timestamp order is read back as it is |
| Answers.SortAppendLatest | vimgolf/core.py:164-175 | with a clock that never goes back, a new record is read back last |
| Answers.Tally | vimgolf/core.py:193-202 | the loop counts uploaded answers and correct answers, and keeps the running minimum of correct scores from the stub |
| Answers.MinCorrectScoreBounds | vimgolf/core.py:195-202 | the running minimum is at most every correct score and is the stub or one of them |
| Answers.BestScoreIsLeastCorrect | vimgolf/core.py:195-209 | best_score is -1 iff no correct score is below the stub, and otherwise the least correct score |
| Answers.StubScoreReadsAsNone | vimgolf/core.py:195-209 | a correct answer scoring exactly 10**10 is reported as -1 |
| Answers.CountsOfSort | vimgolf/core.py:197-202 | the fold over the sorted answers equals the fold over the journal |
| Answers.NewMetadata | vimgolf/core.py:203-214 | the keys afterwards are the old keys, the five fold keys, and name and description only when truthy |
| Answers.MetadataKeepsOtherKeys | vimgolf/core.py:203-214 | keys the update does not write keep their values |
| Answers.MetadataFoldValues | vimgolf/core.py:204-210 | id is the challenge id and url its challenge URL; uploaded, correct and best_score hold the fold's values; a non-empty name or description given is stored as given |
| Answers.MetadataIdempotent | vimgolf/core.py:191-216 | updating twice with the same answers and arguments gives the same dictionary |
| Answers.Challenge.UpdateMetadata | vimgolf/core.py:191-216 | the metadata becomes the update of the old dictionary by the fold over the answers; the journal is unchanged |
| Session.CodeOf | vimgolf/play.py:119-123 | a selection can name a code only when it is one character long |
| Session.CodeOfText | vimgolf/play.py:119-123 | a selection names a code iff it is that code's letter |
| Session.Menu | vimgolf/play.py:112-119 | d iff not correct, w iff eligible and correct, r and q always, in the order d/w, r, q |
| Session.BuildMenu | vimgolf/play.py:112-118 | the appends build exactly that menu |
| Session.MenuStep | vimgolf/play.py:123-141 | an invalid or unoffered selection changes nothing; r and q leave; a successful upload sets uploaded and clears eligibility; a failed diff aborts |
| Session.MenuLoop | vimgolf/play.py:101-145 | menu_loop returns what the specified run of selections gives, starting from the eligibility of the challenge and nothing uploaded |
| Session.MenuRunStep | vimgolf/play.py:109-141 | branch by branch: a code not on the menu is ignored, d goes on unless the diff fails, w goes on with the upload flag set when the upload succeeds, r and q leave with quit set exactly for q |
| Session.MenuChoiceLine | vimgolf/play.py:140-142 | the loop leaves only on r or q, and reports a quit exactly when the closing line was q |
| Session.MenuUploaded | vimgolf/play.py:107-139 | uploaded is reported iff a w selection was offered and its upload succeeded |
| Session.AfterUploadNoMoreUploads | vimgolf/play.py:134-135 | after a successful upload w is no longer offered and uploaded stays true |
| Session.Counted | vimgolf/play.py:60 | no more keycodes than typed, and each one kept was typed and is not ignored |
| Session.CountedAppend | vimgolf/play.py:60 | filtering a concatenation is filtering each part, so the kept keycodes keep their order |
| Session.CountedSingle | vimgolf/play.py:60 | a single keycode is kept iff it is not ignored |
| Session.CountedComplete | vimgolf/play.py:60 | every typed keycode that is not ignored is kept |
| Session.Scoring | vimgolf/play.py:59-65 | the score is the number of non-ignored keycodes, and there is one rendered key per point |
| Session.PlainLogScore | vimgolf/play.py:59-65 | a log without escape bytes scores one point per byte |
| Session.AttemptRun | vimgolf/play.py:46-98 | a completed attempt consumes input lines and has one rendered key per point; a failure is never a quit |
| Session.AttemptsOf | vimgolf/play.py:46-98 | main_loop's attempts consume input and score one key per point |
| Session.AttemptsQuitOnQ | vimgolf/play.py:81-98 | an attempt ends the session only when the line that closed its menu selected q |
| Session.AttemptQuitLine | vimgolf/play.py:142 | a quitting attempt's last consumed line selects q |
| Session.SessionRecordsEachAttempt | vimgolf/play.py:89-98 | one answer per completed attempt when the challenge has an id, and none otherwise |
| Session.SessionStampsAttempts | vimgolf/play.py:89-95 | the recorded answers carry the clock readings of consecutive attempts, in order |
| Session.SessionAnswersScored | vimgolf/play.py:59-95 | every recorded answer has one rendered key per point of its score |
| Session.QuitNeedsQ | vimgolf/play.py:97-98 | input without a q line never ends the session with a quit |
| Session.RunAttempt | vimgolf/play.py:47-95 | one pass of the loop's body gives the attempt AttemptRun specifies, leaves the expected-output file and the metadata alone, leaves the editor's text (or the challenge input when the editor crashed) in the input file, and appends that attempt's answer iff the challenge has an id |
| Session.AttemptLoop | vimgolf/play.py:46-98 | over any run of attempts, the loop's journal gains exactly that session's answers, the metadata and the expected-output file stay as they were, and the loop stops as that session stops |
| Session.MainLoop | vimgolf/play.py:32-98 | main_loop's journal gains exactly the specified session's answers, the metadata is untouched, and it stops as that session stops |
| Session.Play | vimgolf/play.py:14-29 | play writes the expected output, then runs main_loop, leaving the metadata untouched; returns nothing after q and lets editor and diff failures escape |
| Session.UploadResult | vimgolf/play.py:148-165 | the upload succeeds iff the reply parses and its status is "ok"; any exception is a failure |
| Session.CorePlay | vimgolf/core.py:243-402 | no editor found gives FAILURE with no answer; otherwise the same loop, with an editor failure caught as FAILURE; the metadata is untouched either way |
| Legacy.Sanitize | vimgolf/vimgolf.py:626-627 | every character outside [\w-] is replaced by '_', position by position |
| Legacy.Extension | vimgolf/vimgolf.py:625-627 | the extension is a dot followed by only [\w-] characters, one per character of the type |
| Legacy.SanitizeKeepsClean | vimgolf/vimgolf.py:626-627 | a type of [\w-] characters is kept as it is |
| Legacy.SanitizeIdempotent | vimgolf/vimgolf.py:626-627 | sanitising twice is sanitising once |
| Legacy.ExtensionOfCleanType | vimgolf/vimgolf.py:625-627 | a clean type's extension is the type behind a dot |
| Legacy.ExtensionExample | vimgolf/vimgolf.py:626-627 | the type c++ gives the extension .c__ |
| Legacy.SetupOf | vimgolf/vimgolf.py:522 | the older loop records nothing; uploads are offered iff id, compliance and API key are all truthy |
| Legacy.LegacyOutcome | vimgolf/vimgolf.py:488-563 | SUCCESS iff the session ended with q; FAILURE iff the editor run or the diff run failed; an unreadable log raises, and only it does; the end of input exits with status 1, and only it does |
| Legacy.LegacyAttempt | vimgolf/vimgolf.py:472-557 | the input file is rewritten with in_text before the editor runs; the expected output is kept; the attempt is the specified one |
| Legacy.LegacyPlay | vimgolf/vimgolf.py:458-563 | play returns the outcome of the specified session, with the expected output written once |
| Legacy.LegacyRecordsNothing | vimgolf/vimgolf.py:458-563 | the older play never records an answer |
| Legacy.LegacySuccessNeedsQ | vimgolf/vimgolf.py:556-559 | SUCCESS requires some input line selecting q |
| Utils.Format | vimgolf/utils.py:62-67 | the output contains no '\r' and ends with '\n' |
| Utils.FormatClean | vimgolf/utils.py:62-67 | a text without '\r' that ends in '\n' is unchanged |
| Utils.FormatIdempotent | vimgolf/utils.py:62-67 | formatting twice is formatting once |
| Utils.FormatDosLineEnding | vimgolf/utils.py:64 | '\r\n' becomes one '\n', because it is replaced before lone '\r' |
| Utils.FormatLoneCr | vimgolf/utils.py:64 | a lone '\r', one not followed by '\n', becomes '\n' |
| Utils.FormatAddsNewline | vimgolf/utils.py:65-66 | a text without '\r' that does not end in '\n' gets exactly one '\n' appended |
| Utils.ReplaceClean | vimgolf/utils.py:64 | neither replacement touches a text without '\r' |
| Utils.ReplaceCrLfPrefix | vimgolf/utils.py:64 | text without '\r' before the rest is copied as it is |
| Utils.JoinLines | vimgolf/utils.py:29-31 | the joined text contains no '\n' |
| Utils.JoinLinesKeepsBlankLine | vimgolf/utils.py:29-31 | a line of whitespace between two lines is kept as an empty piece, so two spaces separate its neighbours |
| Utils.JoinLinesDropsEmptyLine | vimgolf/utils.py:29-31 | an empty line between two lines is dropped, so one space separates its neighbours |
| Utils.StrippedLinesFree | vimgolf/utils.py:30 | stripping the kept lines introduces no character that was not there |
| Utils.JoinLinesOfCleanLine | vimgolf/utils.py:29-31 | a single stripped line is its own joined form |
| Common.StripShape | vimgolf/utils.py:30 | strip leaves no whitespace at either end and keeps only characters of its argument |
| Utils.MaybeColorize | vimgolf/utils.py:34-48 | an unknown truthy colour is an error; no colour or no terminal returns the text; otherwise the colour's own code, then the text, then the reset code |
| Utils.ColorCodeLength | vimgolf/utils.py:35-42 | every colour code is five characters starting with ESC |
| Utils.InputLoop | vimgolf/utils.py:70-85 | the loop returns the specified answer, or the end of input where the source exits |
| Utils.NextInputIsLastLine | vimgolf/utils.py:75-82 | the answer is the stripped form of the line just consumed, never empty when required |
| Utils.NextInputSkipsOnlyBlank | vimgolf/utils.py:75-82 | every line skipped before the answer was blank once stripped |
| Utils.Confirm | vimgolf/utils.py:92-101 | the loop returns the specified decision, or the end of input |
| Utils.ConfirmDecidingLine | vimgolf/utils.py:92-101 | True only for y/yes, False only for n/no, read from the line that ended the prompt |
| Utils.DecisionOfLowered | vimgolf/utils.py:94-98 | an answer decides True exactly when its lower-cased form is y or yes, and False exactly when it is n or no |
| Utils.ConfirmIgnoresCase | vimgolf/utils.py:94 | an upper-case YES confirms |
| Utils.BoolToMark | vimgolf/utils.py:147 | one character, the check mark exactly for True |
| Html.AttrIndex | vimgolf/html.py:22-26 | the position of the first attribute with the name, or the count when there is none |
| Html.Node.GetAttr | vimgolf/html.py:22-26 | get_attr returns the value of the first attribute with the name, or None |
| Html.Node.Id | vimgolf/html.py:28-29 | get_id is the value of the first attribute called id, and None when no attribute is called id |
| Html.AttrValueFirstWins | vimgolf/html.py:23-25 | a later attribute with the same name is never seen |
| Html.ClassListOf | vimgolf/html.py:31-36 | None iff the class attribute is missing or empty; otherwise non-empty words without whitespace |
| Html.BlankClassAttribute | vimgolf/html.py:33-35 | a class attribute of blanks only gives an empty list, not None |
| Html.Node.HasClass | vimgolf/html.py:38-40 | a class is held only when the attribute is truthy and the value is a non-empty word |
| Html.Node.Element | vimgolf/html.py:15-20 | a new element has its tag and attributes, no parent and no children |
| Html.Node.Text | vimgolf/html.py:43-46 | a new text node has its data and no parent |
| Html.HtmlParser.constructor | vimgolf/html.py:50-53 | no nodes and an empty stack |
| Html.HtmlParser.Append | vimgolf/html.py:57-60 | the node becomes the last child of the open element, which becomes its parent; it is appended to the nodes; parents stay listed before children; no other listed node's parent or children change |
| Html.HtmlParser.StartTag | vimgolf/html.py:55-61 | a fresh element is appended, linked under the previous top, and pushed; the stack grows by one; no other node's links change |
| Html.HtmlParser.EndTag | vimgolf/html.py:63-64 | pops exactly one element whatever the tag; fails on an empty stack; nodes unchanged |
| Html.HtmlParser.Data | vimgolf/html.py:66-71 | a fresh text node is appended and linked under the top; the stack is unchanged; no other node's links change |
| Html.HtmlParser.Handle | vimgolf/html.py:55-71 | only an end tag on an empty stack fails; a start tag pushes its new element, an end tag pops one element and leaves the nodes alone, text leaves the stack alone; a new node's parent is the old top (null on an empty stack) and it becomes the top's last child; a tree that follows the events seen before follows them and this event after |
| Html.ParseEvents | vimgolf/html.py:74-77 | succeeds iff end tags never outnumber start tags; the nodes are one per creating event, in order, parents before children and children pointing back; no node is listed twice; each node's parent is the one ParentOf names (null when no element is open at its event, else the innermost open start tag's node), and each node's children are the nodes naming it, in order |
| Html.Feed | vimgolf/html.py:76 | handing one event to the parser keeps the parser valid, decides the underflow of the rest, adds only fresh nodes, and keeps the tree following the events |
| Html.Opened | vimgolf/html.py:61-64 | the open elements after some events, as positions among the created nodes, each one of them |
| Html.ParentOf | vimgolf/html.py:57-70 | one parent position per created node, always an earlier node |
| Html.ChildrenOf | vimgolf/html.py:58-69 | exactly the positions whose parent is the given one, in increasing order |
| Html.TreeStep | vimgolf/html.py:55-71 | one more event: a start tag opens its node, an end tag closes the innermost element, text changes nothing open; a created node's parent is the innermost open element, none when nothing is open |
| Html.LinkStep | vimgolf/html.py:57-71 | a node added under position p: the parents gain the node at p, and that node alone gains the new node as its last child |
| Html.TreeInvariantStep | vimgolf/html.py:55-71 | one handled event keeps the nodes, the stack and the links those the events describe |
| Html.LinkedNode | vimgolf/html.py:58-70 | under that description each node's parent field and children list are the ones the positions give |
| Html.FilterMembers | vimgolf/html.py:87-100 | the filter keeps listed nodes that satisfy the test, and every listed node that does |
| Html.FilterConcat | vimgolf/html.py:87-100 | filtering keeps order: the matches of a concatenation are the first part's, then the second's |
| Html.IdIndex | vimgolf/html.py:80-84 | the position of the first element with the id, or the count when there is none |
| Html.GetElementById | vimgolf/html.py:80-84 | returns the first element whose id matches, or None when none does |
| Html.GetElementsByClassname | vimgolf/html.py:87-92 | returns the order-preserving subsequence of elements that have the class |
| Html.GetElementsByTagname | vimgolf/html.py:95-100 | returns the order-preserving subsequence of elements with the tag |

## Left out

- **Processes.** Spawning vim (`vimgolf/vim.py`, the nested `vim()` of `core.py`) and probing the path for it (`find_executable*`) are replaced by the editor port. The port gives, per attempt, the edited text and the log, or a failure. The Windows-only nvim-qt confirmation is not modelled.
- **Files.** `filecmp.cmp` is modelled as equality of the edited text and the expected output. Its shallow, size-and-date comparison is not modelled.
- **Workspace file names.** The workspace's file names, with or without an extension, are not modelled. The three files are the fields of `Workspace`.
- **Stored data.** Reading and writing `answers.jsonl`, `metadata.json`, `spec.json`, `id_lookup.json` and `api_key` become in-memory sequences and maps. JSON encoding and key order are not modelled.
- **Network.** `http_request` and the HTTP request of `upload_result` are left out. The upload is a port. `Session.UploadResult` models only how the parsed reply is judged.
- **Time.** `utcnow()` is a clock port giving each attempt's timestamp string. Timestamps are compared as strings, as `sorted` does.
- **Output and interrupts.** Everything written to the terminal is left out, as is a `KeyboardInterrupt` while reading input. Standard input is a finite sequence of lines, and its end is the `EOFError` that exits the process.
- **HTML tokenizer.** The standard library's `HTMLParser` tokenizer behind `parse_html` is not part of this model. A document is the sequence of start-tag, end-tag and data events it reports. A self-closing tag is a start event followed by an end event.
- **Node types.** `Element` and `TextNode` are one class, `Html.Node`. A text node has an empty tag, no attributes and no children.
- **End-tag errors.** `handle_endtag` popping an empty stack raises `IndexError`. Here `EndTag` returns false, and `ParseEvents` returns None.
- **Menu codes.** A selection is read as one of the four codes through `Session.CodeOf`. Any other text is an invalid selection.
- **Legacy menu state.** The older play loop shares `Session.MenuLoop`, which also reports `uploaded`. The older loop ignores it.
- **Tokenizer trie.** The trie is modelled as a map from node paths to member flags. The nested `[dict, bool]` lists are not modelled.
- **CLI.** The command line (`main.py`, `vimgolf.py:main`, `commands/`), `api_key.py`, logging, console setup and packaging are left out.
- **Missing module.** `vimgolf.challenge`, which `play.py` imports `get_challenge_url` from, is not part of this model. `Core.ChallengeUrl` stands for it.
- Core.IsWordChar: Python's `\w` is Unicode-aware; the model accepts ASCII letters, digits and underscore only, so `Core.ChallengeIdAccepted`, `Core.ApiKeyAccepted` and `Legacy.Sanitize` treat non-ASCII word characters as non-word characters.
- Common.Lower: `str.lower` is modelled on ASCII letters only, so `Utils.Confirm` and the case-insensitive trie match ignore non-ASCII case.
- Core.ChallengeUrl: `urljoin` is modelled as concatenation, which agrees with it for ids without '/', '?', '#' or '.' segments. The `GOLF_HOST` environment override is not modelled.
- Session.UploadResult: the reply is given already parsed, as a dictionary of strings or None for any exception. The request itself is not modelled.
