/**
 * The per-challenge history (vimgolf/core.py, class Challenge): the
 * answers.jsonl journal, read back sorted by timestamp, and the metadata.json
 * dictionary recomputed from it.  The files are the fields `journal` and
 * `metadata`; the clock reading of add_answer is a parameter.
 */
module Answers {
  import opened Common
  import Core

  /** One record of the journal; `keys` is the list of rendered keystrokes. */
  datatype Answer = Answer(keys: seq<string>, correct: bool, score: nat, uploaded: bool, timestamp: string)

  /** A value of the metadata dictionary as JSON holds it. */
  datatype Value = Null | Bool(b: bool) | Int(i: int) | Str(s: string) | Other

  // ------------------------------------------------------------------
  // Python's order on str: code points, lexicographically
  // ------------------------------------------------------------------

  predicate StrLt(a: string, b: string)
    decreases |a|
  {
    if a == [] then b != []
    else if b == [] then false
    else if a[0] < b[0] then true
    else if a[0] == b[0] then StrLt(a[1..], b[1..])
    else false
  }

  lemma {:induction false} StrLtIrreflexive(a: string)
    ensures !StrLt(a, a)
    decreases |a|
  {
    if a != [] {
      StrLtIrreflexive(a[1..]);
    }
  }

  lemma {:induction false} StrLtTransitive(a: string, b: string, c: string)
    requires StrLt(a, b) && StrLt(b, c)
    ensures StrLt(a, c)
    decreases |a|
  {
    if a != [] && b != [] && c != [] && a[0] == b[0] == c[0] {
      StrLtTransitive(a[1..], b[1..], c[1..]);
    }
  }

  lemma {:induction false} StrLtTotal(a: string, b: string)
    ensures a == b || StrLt(a, b) || StrLt(b, a)
    decreases |a|
  {
    if a != [] && b != [] && a[0] == b[0] {
      StrLtTotal(a[1..], b[1..]);
      if a[1..] == b[1..] {
        assert a == [a[0]] + a[1..] && b == [b[0]] + b[1..];
      }
    }
  }

  lemma {:induction false} StrLtAsymmetric(a: string, b: string)
    requires StrLt(a, b)
    ensures !StrLt(b, a)
    decreases |a|
  {
    if a != [] && b != [] && a[0] == b[0] {
      StrLtAsymmetric(a[1..], b[1..]);
    }
  }

  /** "Not after" is transitive: the order the sort relies on is a total preorder. */
  lemma NotAfterTransitive(a: string, b: string, c: string)
    requires !StrLt(b, a) && !StrLt(c, b)
    ensures !StrLt(c, a)
  {
    StrLtTotal(a, b);
    StrLtTotal(b, c);
    if a == c {
      StrLtIrreflexive(a);
    } else if a == b {
      assert StrLt(a, c);
      StrLtAsymmetric(a, c);
    } else if b == c {
      assert StrLt(a, c);
      StrLtAsymmetric(a, c);
    } else {
      StrLtTransitive(a, b, c);
      StrLtAsymmetric(a, c);
    }
  }

  // ------------------------------------------------------------------
  // sorted(result, key=lambda a: a['timestamp'])
  // ------------------------------------------------------------------

  /** Place x before the first record that is not earlier than it. */
  function Insert(x: Answer, t: seq<Answer>): (r: seq<Answer>)
    ensures |r| == |t| + 1
  {
    if t == [] || !StrLt(t[0].timestamp, x.timestamp) then [x] + t
    else [t[0]] + Insert(x, t[1..])
  }

  /** The stable sort by timestamp, as an insertion sort. */
  function SortByTimestamp(s: seq<Answer>): (r: seq<Answer>)
    ensures |r| == |s|
  {
    if s == [] then [] else Insert(s[0], SortByTimestamp(s[1..]))
  }

  predicate SortedByTimestamp(s: seq<Answer>) {
    forall i, j :: 0 <= i < j < |s| ==> !StrLt(s[j].timestamp, s[i].timestamp)
  }

  /** The records with one timestamp, in their order. */
  function WithTimestamp(s: seq<Answer>, stamp: string): seq<Answer>
  {
    if s == [] then []
    else if s[0].timestamp == stamp then [s[0]] + WithTimestamp(s[1..], stamp)
    else WithTimestamp(s[1..], stamp)
  }

  lemma {:induction false} InsertPermutes(x: Answer, t: seq<Answer>)
    ensures multiset(Insert(x, t)) == multiset{x} + multiset(t)
  {
    if t != [] && StrLt(t[0].timestamp, x.timestamp) {
      InsertPermutes(x, t[1..]);
      assert t == [t[0]] + t[1..];
    }
  }

  /** No record of s is earlier than stamp. */
  predicate NoneBefore(s: seq<Answer>, stamp: string) {
    forall k :: 0 <= k < |s| ==> !StrLt(s[k].timestamp, stamp)
  }

  /** A record no later than every record of a sorted sequence may go in front of it. */
  lemma SortedCons(h: Answer, s: seq<Answer>)
    requires SortedByTimestamp(s) && NoneBefore(s, h.timestamp)
    ensures SortedByTimestamp([h] + s)
  {
    var r := [h] + s;
    forall i, j | 0 <= i < j < |r|
      ensures !StrLt(r[j].timestamp, r[i].timestamp)
    {
      assert r[j] == s[j - 1];
      if i > 0 {
        assert r[i] == s[i - 1];
      }
    }
  }

  /** Inserting a record that is not earlier than stamp keeps every record not earlier than stamp. */
  lemma {:induction false} InsertNoneBefore(x: Answer, t: seq<Answer>, stamp: string)
    requires NoneBefore(t, stamp) && !StrLt(x.timestamp, stamp)
    ensures NoneBefore(Insert(x, t), stamp)
  {
    if t != [] && StrLt(t[0].timestamp, x.timestamp) {
      var rest := Insert(x, t[1..]);
      assert NoneBefore(t[1..], stamp) by {
        forall k | 0 <= k < |t[1..]| ensures !StrLt(t[1..][k].timestamp, stamp) {
          assert t[1..][k] == t[k + 1];
        }
      }
      InsertNoneBefore(x, t[1..], stamp);
      var r := [t[0]] + rest;
      forall k | 0 <= k < |r| ensures !StrLt(r[k].timestamp, stamp) {
        if k > 0 {
          assert r[k] == rest[k - 1];
        }
      }
    }
  }

  /** The tail of a sorted sequence is sorted, and its first record is no later than the rest. */
  lemma SortedTail(t: seq<Answer>)
    requires SortedByTimestamp(t) && t != []
    ensures SortedByTimestamp(t[1..]) && NoneBefore(t[1..], t[0].timestamp)
  {
    forall i, j | 0 <= i < j < |t[1..]|
      ensures !StrLt(t[1..][j].timestamp, t[1..][i].timestamp)
    {
      assert t[1..][j] == t[j + 1] && t[1..][i] == t[i + 1];
    }
    forall k | 0 <= k < |t[1..]| ensures !StrLt(t[1..][k].timestamp, t[0].timestamp) {
      assert t[1..][k] == t[k + 1];
    }
  }

  lemma {:induction false} InsertSorted(x: Answer, t: seq<Answer>)
    requires SortedByTimestamp(t)
    ensures SortedByTimestamp(Insert(x, t))
  {
    if t == [] {
      SortedCons(x, t);
    } else if !StrLt(t[0].timestamp, x.timestamp) {
      forall k | 0 <= k < |t| ensures !StrLt(t[k].timestamp, x.timestamp) {
        if k > 0 {
          NotAfterTransitive(x.timestamp, t[0].timestamp, t[k].timestamp);
        }
      }
      SortedCons(x, t);
    } else {
      SortedTail(t);
      InsertSorted(x, t[1..]);
      StrLtAsymmetric(t[0].timestamp, x.timestamp);
      InsertNoneBefore(x, t[1..], t[0].timestamp);
      SortedCons(t[0], Insert(x, t[1..]));
    }
  }

  /** Inserting keeps the records of every timestamp in their order, the inserted one first. */
  lemma {:induction false} InsertStable(x: Answer, t: seq<Answer>, stamp: string)
    ensures WithTimestamp(Insert(x, t), stamp) ==
      (if x.timestamp == stamp then [x] else []) + WithTimestamp(t, stamp)
  {
    if t != [] && StrLt(t[0].timestamp, x.timestamp) {
      InsertStable(x, t[1..], stamp);
      if t[0].timestamp == stamp {
        StrLtIrreflexive(stamp);
      }
    }
  }

  /** answers holds every record of the journal, and nothing else. */
  lemma {:induction false} SortPermutes(s: seq<Answer>)
    ensures multiset(SortByTimestamp(s)) == multiset(s)
  {
    if s != [] {
      SortPermutes(s[1..]);
      InsertPermutes(s[0], SortByTimestamp(s[1..]));
      assert s == [s[0]] + s[1..];
    }
  }

  /** answers is in timestamp order. */
  lemma {:induction false} SortSorts(s: seq<Answer>)
    ensures SortedByTimestamp(SortByTimestamp(s))
  {
    if s != [] {
      SortSorts(s[1..]);
      InsertSorted(s[0], SortByTimestamp(s[1..]));
    }
  }

  /** The sort is stable: records with equal timestamps keep their journal order. */
  lemma {:induction false} SortStable(s: seq<Answer>, stamp: string)
    ensures WithTimestamp(SortByTimestamp(s), stamp) == WithTimestamp(s, stamp)
  {
    if s != [] {
      SortStable(s[1..], stamp);
      InsertStable(s[0], SortByTimestamp(s[1..]), stamp);
    }
  }

  /** A journal already in timestamp order is read back as it is. */
  lemma {:induction false} SortOfSorted(s: seq<Answer>)
    requires SortedByTimestamp(s)
    ensures SortByTimestamp(s) == s
  {
    if s != [] {
      assert SortedByTimestamp(s[1..]) by {
        forall i, j | 0 <= i < j < |s[1..]|
          ensures !StrLt(s[1..][j].timestamp, s[1..][i].timestamp)
        {
          assert s[1..][j] == s[j + 1] && s[1..][i] == s[i + 1];
        }
      }
      SortOfSorted(s[1..]);
      if |s| > 1 {
        assert !StrLt(s[1].timestamp, s[0].timestamp);
      }
      assert s == [s[0]] + s[1..];
    }
  }

  /** A record no earlier than every other one goes after all of them. */
  lemma {:induction false} InsertBeforeLatest(x: Answer, t: seq<Answer>, a: Answer)
    requires !StrLt(a.timestamp, x.timestamp)
    ensures Insert(x, t + [a]) == Insert(x, t) + [a]
  {
    if t == [] {
      assert [] + [a] == [a];
    } else if !StrLt(t[0].timestamp, x.timestamp) {
      assert (t + [a])[0] == t[0];
    } else {
      assert (t + [a])[1..] == t[1..] + [a];
      InsertBeforeLatest(x, t[1..], a);
    }
  }

  /** With a clock that never goes back, a new record is read back last. */
  lemma {:induction false} SortAppendLatest(s: seq<Answer>, a: Answer)
    requires forall i :: 0 <= i < |s| ==> !StrLt(a.timestamp, s[i].timestamp)
    ensures SortByTimestamp(s + [a]) == SortByTimestamp(s) + [a]
  {
    if s == [] {
      assert [] + [a] == [a];
    } else {
      assert (s + [a])[1..] == s[1..] + [a];
      SortAppendLatest(s[1..], a);
      InsertBeforeLatest(s[0], SortByTimestamp(s[1..]), a);
    }
  }

  // ------------------------------------------------------------------
  // The metadata fold
  // ------------------------------------------------------------------

  const STUB_SCORE: int := 10000000000

  function CountUploaded(s: seq<Answer>): (n: nat)
    ensures n <= |s|
  {
    if s == [] then 0 else CountUploaded(s[..|s| - 1]) + (if s[|s| - 1].uploaded then 1 else 0)
  }

  function CountCorrect(s: seq<Answer>): (n: nat)
    ensures n <= |s|
  {
    if s == [] then 0 else CountCorrect(s[..|s| - 1]) + (if s[|s| - 1].correct then 1 else 0)
  }

  /** The running minimum of the loop: the stub, lowered by every correct score. */
  function MinCorrectScore(s: seq<Answer>): (m: int)
    ensures m <= STUB_SCORE
  {
    if s == [] then STUB_SCORE
    else
      var m := MinCorrectScore(s[..|s| - 1]);
      var a := s[|s| - 1];
      if a.correct && a.score < m then a.score else m
  }

  /** best_score as stored: the running minimum, with -1 when it is still the stub. */
  function BestScore(s: seq<Answer>): int
  {
    var m := MinCorrectScore(s);
    if m != STUB_SCORE then m else -1
  }

  lemma {:induction false} MinCorrectScoreBounds(s: seq<Answer>)
    ensures forall i :: 0 <= i < |s| && s[i].correct ==> MinCorrectScore(s) <= s[i].score
    ensures MinCorrectScore(s) == STUB_SCORE ||
      exists i :: 0 <= i < |s| && s[i].correct && s[i].score == MinCorrectScore(s)
  {
    if s != [] {
      var init := s[..|s| - 1];
      MinCorrectScoreBounds(init);
      assert forall i :: 0 <= i < |init| ==> init[i] == s[i];
      if MinCorrectScore(s) != STUB_SCORE && MinCorrectScore(s) == MinCorrectScore(init) {
        var i :| 0 <= i < |init| && init[i].correct && init[i].score == MinCorrectScore(init);
        assert s[i] == init[i];
      }
    }
  }

  /** best_score is the least score of a correct answer; -1 exactly when no correct answer scores below the stub. */
  lemma BestScoreIsLeastCorrect(s: seq<Answer>)
    ensures BestScore(s) == -1 <==> forall i :: 0 <= i < |s| && s[i].correct ==> s[i].score >= STUB_SCORE
    ensures BestScore(s) != -1 ==>
      (exists i :: 0 <= i < |s| && s[i].correct && s[i].score == BestScore(s)) &&
      (forall i :: 0 <= i < |s| && s[i].correct ==> BestScore(s) <= s[i].score)
  {
    MinCorrectScoreBounds(s);
  }

  /** A correct answer scoring exactly the stub is reported as no score at all. */
  lemma StubScoreReadsAsNone(a: Answer)
    requires a.correct && a.score == STUB_SCORE
    ensures BestScore([a]) == -1
  {
    BestScoreIsLeastCorrect([a]);
  }

  lemma {:induction false} CountsOfConcat(a: seq<Answer>, b: seq<Answer>)
    ensures CountUploaded(a + b) == CountUploaded(a) + CountUploaded(b)
    ensures CountCorrect(a + b) == CountCorrect(a) + CountCorrect(b)
    ensures MinCorrectScore(a + b) == Min(MinCorrectScore(a), MinCorrectScore(b))
    decreases |b|
  {
    if b == [] {
      assert a + b == a;
    } else {
      var b' := b[..|b| - 1];
      assert (a + b)[..|a + b| - 1] == a + b';
      CountsOfConcat(a, b');
    }
  }

  function Min(x: int, y: int): int { if x <= y then x else y }

  lemma {:induction false} CountsOfInsert(x: Answer, t: seq<Answer>)
    ensures CountUploaded(Insert(x, t)) == CountUploaded([x] + t)
    ensures CountCorrect(Insert(x, t)) == CountCorrect([x] + t)
    ensures MinCorrectScore(Insert(x, t)) == MinCorrectScore([x] + t)
  {
    if t != [] && StrLt(t[0].timestamp, x.timestamp) {
      CountsOfInsert(x, t[1..]);
      CountsOfConcat([t[0]], Insert(x, t[1..]));
      CountsOfConcat([x], t[1..]);
      CountsOfConcat([x], t);
      CountsOfConcat([t[0]], t[1..]);
      assert [t[0]] + t[1..] == t;
    }
  }

  /** The fold over the sorted answers gives what it gives over the journal: it does not depend on order. */
  lemma {:induction false} CountsOfSort(s: seq<Answer>)
    ensures CountUploaded(SortByTimestamp(s)) == CountUploaded(s)
    ensures CountCorrect(SortByTimestamp(s)) == CountCorrect(s)
    ensures MinCorrectScore(SortByTimestamp(s)) == MinCorrectScore(s)
  {
    if s != [] {
      CountsOfSort(s[1..]);
      CountsOfInsert(s[0], SortByTimestamp(s[1..]));
      CountsOfConcat([s[0]], SortByTimestamp(s[1..]));
      CountsOfConcat([s[0]], s[1..]);
      assert s == [s[0]] + s[1..];
    }
  }

  /** The loop of update_metadata over the answers. */
  method Tally(answers: seq<Answer>) returns (uploaded: nat, correct: nat, best: int)
    ensures uploaded == CountUploaded(answers) && correct == CountCorrect(answers)
    ensures best == MinCorrectScore(answers)
  {
    uploaded, correct, best := 0, 0, STUB_SCORE;
    for i := 0 to |answers|
      invariant uploaded == CountUploaded(answers[..i])
      invariant correct == CountCorrect(answers[..i])
      invariant best == MinCorrectScore(answers[..i])
    {
      assert answers[..i + 1][..i] == answers[..i];
      var answer := answers[i];
      if answer.uploaded {
        uploaded := uploaded + 1;
      }
      if answer.correct {
        correct := correct + 1;
        best := if answer.score < best then answer.score else best;
      }
    }
    assert answers[..|answers|] == answers;
  }

  /** The keys that update_metadata always writes, and the two it writes when given. */
  const FOLD_KEYS: set<string> := {"id", "url", "uploaded", "correct", "best_score"}

  /** The metadata after update_metadata: the old dictionary updated with the fold, then name and description when truthy. */
  function NewMetadata(m: map<string, Value>, id: string, answers: seq<Answer>,
                       name: Option<string>, description: Option<string>): (r: map<string, Value>)
    ensures r.Keys == m.Keys + FOLD_KEYS + (if Truthy(name) then {"name"} else {})
                      + (if Truthy(description) then {"description"} else {})
  {
    var folded := m["id" := Str(id)]["url" := Str(Core.ChallengeUrl(id))]
                   ["uploaded" := Int(CountUploaded(answers))]["correct" := Int(CountCorrect(answers))]
                   ["best_score" := Int(BestScore(answers))];
    var named := if Truthy(name) then folded["name" := Str(name.value)] else folded;
    if Truthy(description) then named["description" := Str(description.value)] else named
  }

  /** Keys the fold does not write keep their values; name and description are touched only when truthy. */
  lemma MetadataKeepsOtherKeys(m: map<string, Value>, id: string, answers: seq<Answer>,
                               name: Option<string>, description: Option<string>, k: string)
    requires k in m && k !in FOLD_KEYS
    requires k == "name" ==> !Truthy(name)
    requires k == "description" ==> !Truthy(description)
    ensures NewMetadata(m, id, answers, name, description)[k] == m[k]
  {
  }

  /** The fold's values: the id and its URL, the counts and best score of the answers, and a name or description given as a non-empty string. */
  lemma MetadataFoldValues(m: map<string, Value>, id: string, answers: seq<Answer>,
                           name: Option<string>, description: Option<string>)
    ensures var r := NewMetadata(m, id, answers, name, description);
      r["id"] == Str(id) && r["uploaded"] == Int(CountUploaded(answers))
      && r["correct"] == Int(CountCorrect(answers)) && r["best_score"] == Int(BestScore(answers))
      && r["url"] == Str(Core.ChallengeUrl(id))
      && (Truthy(name) ==> r["name"] == Str(name.value))
      && (Truthy(description) ==> r["description"] == Str(description.value))
  {
  }

  /** Updating twice with the same answers and arguments is updating once. */
  lemma MetadataIdempotent(m: map<string, Value>, id: string, answers: seq<Answer>,
                           name: Option<string>, description: Option<string>)
    ensures var once := NewMetadata(m, id, answers, name, description);
      NewMetadata(once, id, answers, name, description) == once
  {
    var once := NewMetadata(m, id, answers, name, description);
    var twice := NewMetadata(once, id, answers, name, description);
    forall k | k in once
      ensures twice[k] == once[k]
    {
      MetadataValueAgain(m, id, answers, name, description, k);
    }
  }

  /** One key of the metadata keeps its value when the update is repeated. */
  lemma MetadataValueAgain(m: map<string, Value>, id: string, answers: seq<Answer>,
                           name: Option<string>, description: Option<string>, k: string)
    requires k in NewMetadata(m, id, answers, name, description)
    ensures var once := NewMetadata(m, id, answers, name, description);
      NewMetadata(once, id, answers, name, description)[k] == once[k]
  {
    var once := NewMetadata(m, id, answers, name, description);
    if k !in FOLD_KEYS && (k == "name" ==> !Truthy(name)) && (k == "description" ==> !Truthy(description)) {
      MetadataKeepsOtherKeys(once, id, answers, name, description, k);
    }
  }

  // ------------------------------------------------------------------
  // The challenge
  // ------------------------------------------------------------------

  /** A challenge with its history; the texts and settings never change once loaded. */
  class Challenge {
    const id: Option<string>
    const inText: string
    const outText: string
    const compliant: bool
    const apiKey: Option<string>
    /** The lines of answers.jsonl in file order; empty when the file does not exist. */
    var journal: seq<Answer>
    /** The dictionary in metadata.json; empty when the file does not exist. */
    var metadata: map<string, Value>

    constructor(id: Option<string>, inText: string, outText: string, compliant: bool,
                apiKey: Option<string>, journal: seq<Answer>, metadata: map<string, Value>)
      ensures this.id == id && this.inText == inText && this.outText == outText
      ensures this.compliant == compliant && this.apiKey == apiKey
      ensures this.journal == journal && this.metadata == metadata
    {
      this.id := id;
      this.inText := inText;
      this.outText := outText;
      this.compliant := compliant;
      this.apiKey := apiKey;
      this.journal := journal;
      this.metadata := metadata;
    }

    /** The property answers: every record, sorted by timestamp. */
    function Answers(): (r: seq<Answer>)
      reads this
      ensures SortedByTimestamp(r) && multiset(r) == multiset(journal)
    {
      SortSorts(journal);
      SortPermutes(journal);
      SortByTimestamp(journal)
    }

    /** add_answer: append one record stamped with the clock reading; the files live under the id's directory. */
    method AddAnswer(keys: seq<string>, correct: bool, score: nat, uploaded: bool, timestamp: string)
      requires id.Some?
      modifies this`journal
      ensures journal == old(journal) + [Answer(keys, correct, score, uploaded, timestamp)]
      ensures metadata == old(metadata)
    {
      journal := journal + [Answer(keys, correct, score, uploaded, timestamp)];
    }

    /** update_metadata: fold the answers into the metadata dictionary. */
    method UpdateMetadata(name: Option<string>, description: Option<string>)
      requires id.Some?
      modifies this`metadata
      ensures journal == old(journal)
      ensures metadata == NewMetadata(old(metadata), id.value, old(Answers()), name, description)
    {
      var uploaded, correct, best := Tally(Answers());
      var current := metadata;
      current := current["id" := Str(id.value)]["url" := Str(Core.ChallengeUrl(id.value))]
                 ["uploaded" := Int(uploaded)]["correct" := Int(correct)]
                 ["best_score" := Int(if best != STUB_SCORE then best else -1)];
      if Truthy(name) {
        current := current["name" := Str(name.value)];
      }
      if Truthy(description) {
        current := current["description" := Str(description.value)];
      }
      metadata := current;
    }
  }

  /** Reading the history back after add_answer yields the old records and the new one. */
  lemma AnswersAfterAdd(journal: seq<Answer>, a: Answer)
    ensures multiset(SortByTimestamp(journal + [a])) == multiset(SortByTimestamp(journal)) + multiset{a}
  {
    SortPermutes(journal + [a]);
    SortPermutes(journal);
  }
}
