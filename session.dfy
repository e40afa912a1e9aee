/**
 * The quiz session as values: the module globals that game.js updates
 * (game.js:12-16) and one pure transition per handler that changes them
 * (game.js:76-93, 165-241, 268-275). The class in quiz.dfy is proved to
 * follow these transitions.
 */
module Session {
  import opened Wrappers
  import opened Catalog
  import opened Shuffle

  /** `.slice(0, 20)`: the number of questions a game asks at most. */
  const QUESTION_COUNT: nat := 20

  /** A sampled word with its `attempted` flag (`{...q, attempted: false}`). */
  datatype Question = Question(entry: Entry, attempted: bool)

  /** `selectedLanguage` (undefined until a language is chosen),
      `currentQuestionIndex`, `questions` and `correctFirstTry`. */
  datatype Session = Session(selected: Option<string>, index: nat, questions: seq<Question>, score: nat)

  /** What `checkAnswer` reports: the popup's verdict and what the
      pronunciation that follows plays (language code and word id). */
  datatype Feedback =
    | Correct(lang: string, id: string)
    | Incorrect(lang: string, word: string, id: string)

  datatype Answered = Answered(feedback: Feedback, next: Session)

  /** The state before any language is chosen (game.js:13-16). */
  function Initial(): (s: Session)
    ensures s.selected.None? && s.index == 0 && s.questions == [] && s.score == 0
  {
    Session(None, 0, [], 0)
  }

  function Min(a: nat, b: nat): nat { if a <= b then a else b }

  /** How many questions have been answered at least once. */
  function AttemptedCount(qs: seq<Question>): (n: nat)
    ensures n <= |qs|
  {
    if qs == [] then 0 else (if qs[0].attempted then 1 else 0) + AttemptedCount(qs[1..])
  }

  /** The session invariant: only attempted questions can have scored, so
      0 <= correctFirstTry <= attempted questions <= questions.length. */
  ghost predicate Valid(s: Session) {
    s.score <= AttemptedCount(s.questions)
  }

  /** The words behind the questions. */
  function Entries(qs: seq<Question>): (es: seq<Entry>)
    ensures |es| == |qs| && forall i :: 0 <= i < |qs| ==> es[i] == qs[i].entry
  {
    seq(|qs|, i requires 0 <= i < |qs| => qs[i].entry)
  }

  /** `shuffleArray(wordsData).slice(0, 20).map(q => ({...q, attempted: false}))`. */
  function Sample(words: seq<Entry>, keys: seq<real>): (qs: seq<Question>)
    requires |keys| == |words|
    ensures |qs| == Min(QUESTION_COUNT, |words|)
    ensures forall q :: q in qs ==> !q.attempted
    ensures multiset(Entries(qs)) <= multiset(words)
  {
    var shuffled := ShuffleArray(words, keys);
    var picked := if |shuffled| <= QUESTION_COUNT then shuffled else shuffled[..QUESTION_COUNT];
    assert shuffled == picked + shuffled[|picked|..];
    var qs := seq(|picked|, i requires 0 <= i < |picked| => Question(picked[i], false));
    assert Entries(qs) == picked;
    qs
  }

  /** `selectLanguage`: any code is stored; the game in progress is untouched. */
  function SelectLanguage(s: Session, lang: string): (r: Session)
    ensures r.selected == Some(lang)
    ensures r.index == s.index && r.questions == s.questions && r.score == s.score
  {
    s.(selected := Some(lang))
  }

  /** `startGame`: a fresh sample, index and score back to zero, the chosen
      language kept. */
  function StartGame(s: Session, words: seq<Entry>, keys: seq<real>): (r: Session)
    requires |keys| == |words|
    ensures r.selected == s.selected && r.index == 0 && r.score == 0
    ensures |r.questions| == Min(QUESTION_COUNT, |words|)
    ensures forall q :: q in r.questions ==> !q.attempted
    ensures multiset(Entries(r.questions)) <= multiset(words)
    ensures Valid(r) && !LeaveGuard(r)
  {
    Session(s.selected, 0, Sample(words, keys), 0)
  }

  /** `startGameAgain`: its own reset of the score is redundant, it starts
      the same game `startGame` does. */
  function StartGameAgain(s: Session, words: seq<Entry>, keys: seq<real>): (r: Session)
    requires |keys| == |words|
    ensures r == StartGame(s, words, keys)
  {
    StartGame(s.(score := 0), words, keys)
  }

  /** Whether an answer in `langClicked` is right: it must be the chosen
      language (nothing is right before one is chosen). */
  predicate IsCorrect(s: Session, langClicked: string) {
    s.selected == Some(langClicked)
  }

  /** `checkAnswer`. Reading the current question throws when the index is
      past the end; otherwise the question becomes attempted, and only a
      correct answer to a question not attempted before scores. */
  function CheckAnswer(s: Session, langClicked: string, wordClicked: string): (r: Result<Answered>)
    ensures r.Thrown? <==> s.index >= |s.questions|
    ensures r.Ok? ==>
      var q, n := s.questions[s.index], r.value.next;
      && (r.value.feedback.Correct? <==> IsCorrect(s, langClicked))
      && (n.score == s.score + 1 <==> IsCorrect(s, langClicked) && !q.attempted)
      && (n.score == s.score || n.score == s.score + 1)
      && n.questions == s.questions[s.index := q.(attempted := true)]
      && n.selected == s.selected && n.index == s.index
  {
    if s.index >= |s.questions| then
      Thrown("TypeError: Cannot read properties of undefined (reading 'forms')")
    else
      var q := s.questions[s.index];
      var correct := IsCorrect(s, langClicked);
      var score := if correct && !q.attempted then s.score + 1 else s.score;
      var next := s.(score := score, questions := s.questions[s.index := q.(attempted := true)]);
      Ok(Answered(if correct then Correct(langClicked, q.entry.id) else Incorrect(langClicked, wordClicked, q.entry.id), next))
  }

  /** `nextQuestion`: one question further. */
  function NextQuestion(s: Session): (r: Session)
    ensures r.index == s.index + 1
    ensures r.selected == s.selected && r.questions == s.questions && r.score == s.score
  {
    s.(index := s.index + 1)
  }

  /** Whether `nextQuestion` shows the final screen rather than a question. */
  predicate Finished(s: Session) {
    s.index >= |s.questions|
  }

  /** The `beforeunload` condition: a game is under way and not over. */
  predicate LeaveGuard(s: Session): (b: bool)
    ensures b ==> s.questions != [] && !Finished(s)
    ensures s.index == 0 ==> !b
  {
    0 < s.index < |s.questions|
  }

  /** Marking question `i` attempted adds one attempted question exactly
      when it was not attempted before. */
  lemma {:induction false} AttemptedCountMark(qs: seq<Question>, i: nat)
    requires i < |qs|
    ensures AttemptedCount(qs[i := qs[i].(attempted := true)]) ==
              AttemptedCount(qs) + (if qs[i].attempted then 0 else 1)
  {
    if i > 0 {
      assert qs[i := qs[i].(attempted := true)][1..] == qs[1..][i - 1 := qs[i].(attempted := true)];
      AttemptedCountMark(qs[1..], i - 1);
    }
  }

  /** `checkAnswer` keeps the invariant: a score point always comes with a
      question that was not attempted before and now is. */
  lemma CheckAnswerPreservesValid(s: Session, langClicked: string, wordClicked: string)
    ensures Valid(s) && CheckAnswer(s, langClicked, wordClicked).Ok? ==> Valid(CheckAnswer(s, langClicked, wordClicked).value.next)
  {
    if s.index < |s.questions| {
      AttemptedCountMark(s.questions, s.index);
    }
  }

  /** The outcome depends on the clicked language only: the clicked word is
      merely echoed by the popup. */
  lemma CheckAnswerIgnoresWord(s: Session, langClicked: string, word1: string, word2: string)
    ensures var r1, r2 := CheckAnswer(s, langClicked, word1), CheckAnswer(s, langClicked, word2);
      r1.Ok? == r2.Ok? &&
      (r1.Ok? ==> r1.value.next == r2.value.next && r1.value.feedback.Correct? == r2.value.feedback.Correct?)
  {
  }

  /** A wrong answer first, then the right one: the question is answered but
      earns nothing. */
  lemma WrongThenRightEarnsNothing(s: Session, wrong: string, right: string, word1: string, word2: string)
    requires s.index < |s.questions|
    requires s.selected == Some(right) && wrong != right
    ensures var first := CheckAnswer(s, wrong, word1);
      && first.Ok? && first.value.feedback.Incorrect?
      && var second := CheckAnswer(first.value.next, right, word2);
         second.Ok? && second.value.feedback.Correct? && second.value.next.score == s.score
  {
  }

  /** Answering the same question right twice scores at most once. */
  lemma RightTwiceScoresOnce(s: Session, right: string, word1: string, word2: string)
    requires s.index < |s.questions| && s.selected == Some(right)
    ensures var first := CheckAnswer(s, right, word1);
      && first.Ok?
      && var second := CheckAnswer(first.value.next, right, word2);
         second.Ok? && second.value.next.score == first.value.next.score <= s.score + 1
  {
  }

  /** After the last question's "next", the final screen shows and the
      leave-page guard is off; before it, the guard is on. In general the
      guard is on after `nextQuestion` exactly when no final screen shows. */
  lemma NextQuestionGuard(s: Session)
    ensures var n := NextQuestion(s);
      (LeaveGuard(n) <==> !Finished(n)) &&
      (s.index < |s.questions| ==> n.index <= |n.questions|)
  {
  }

  /** One user action, as the handlers receive it. */
  datatype Event =
    | Select(lang: string)
    | Start(keys: seq<real>)
    | Restart(keys: seq<real>)
    | Answer(lang: string, word: string)
    | Dismiss
    | Next

  /** Every start carries one random key per word. */
  predicate KeysFit(events: seq<Event>, n: nat) {
    forall e :: e in events && (e.Start? || e.Restart?) ==> |e.keys| == n
  }

  /** The effect of one action; a `checkAnswer` that throws changes nothing,
      and `closePopup` only hides the popup. */
  function Step(s: Session, words: seq<Entry>, e: Event): (r: Session)
    requires (e.Start? || e.Restart?) ==> |e.keys| == |words|
    ensures Valid(s) ==> Valid(r)
    ensures !e.Select? ==> r.selected == s.selected
    ensures (e.Answer? || e.Dismiss? || e.Select?) ==> r.index == s.index && |r.questions| == |s.questions|
  {
    match e
    case Select(lang) => SelectLanguage(s, lang)
    case Start(keys) => StartGame(s, words, keys)
    case Restart(keys) => StartGameAgain(s, words, keys)
    case Answer(lang, word) =>
      (match CheckAnswer(s, lang, word)
       case Ok(a) =>
         CheckAnswerPreservesValid(s, lang, word); a.next
       case Thrown(_) => s)
    case Dismiss => s
    case Next => NextQuestion(s)
  }

  /** The state after a sequence of actions. */
  function Run(s: Session, words: seq<Entry>, events: seq<Event>): (r: Session)
    requires KeysFit(events, |words|)
    ensures (forall e :: e in events ==> !e.Select?) ==> r.selected == s.selected
    decreases |events|
  {
    if events == [] then s
    else
      assert events[0] in events;
      Run(Step(s, words, events[0]), words, events[1..])
  }

  /** Whatever the user does, in whatever order, the invariant holds:
      correctFirstTry never exceeds the attempted questions, nor their count. */
  lemma {:induction false} RunPreservesValid(s: Session, words: seq<Entry>, events: seq<Event>)
    requires Valid(s) && KeysFit(events, |words|)
    ensures Valid(Run(s, words, events))
    ensures Run(s, words, events).score <= |Run(s, words, events).questions|
    decreases |events|
  {
    if events != [] {
      assert events[0] in events;
      var e := events[0];
      RunPreservesValid(Step(s, words, e), words, events[1..]);
    }
  }

  /** No two words share an id. */
  predicate DistinctIds(es: seq<Entry>) {
    forall i, j :: 0 <= i < j < |es| ==> es[i].id != es[j].id
  }

  lemma {:induction false} DistinctIdsOnce(es: seq<Entry>, x: Entry)
    requires DistinctIds(es)
    ensures multiset(es)[x] <= 1
  {
    if es != [] {
      assert es == [es[0]] + es[1..];
      DistinctIdsOnce(es[1..], x);
      if x == es[0] {
        assert x !in es[1..];
      }
    }
  }

  lemma TwiceInSeq(es: seq<Entry>, i: nat, j: nat)
    requires i < j < |es| && es[i] == es[j]
    ensures multiset(es)[es[i]] >= 2
  {
    assert es == es[..i] + [es[i]] + es[i + 1..j] + [es[j]] + es[j + 1..];
  }

  /** With distinct ids in the word list, a game never asks the same word
      twice. */
  lemma SampleDistinctIds(words: seq<Entry>, keys: seq<real>)
    requires |keys| == |words| && DistinctIds(words)
    ensures DistinctIds(Entries(Sample(words, keys)))
  {
    var es := Entries(Sample(words, keys));
    forall i, j | 0 <= i < j < |es| ensures es[i].id != es[j].id {
      if es[i].id == es[j].id {
        assert es[i] in multiset(words) && es[j] in multiset(words);
        var a :| 0 <= a < |words| && words[a] == es[i];
        var b :| 0 <= b < |words| && words[b] == es[j];
        assert a == b;
        TwiceInSeq(es, i, j);
        DistinctIdsOnce(words, es[i]);
        assert false;
      }
    }
  }

  /** The two numbers on the final screen as written: the score over a
      constant 20. */
  function FinalScoreAsWritten(s: Session): (r: (nat, nat))
    ensures r.0 == s.score && r.1 == 20
  {
    (s.score, 20)
  }

  /** The final screen over the number of questions asked, the total the
      progress line already shows; the score never exceeds it. */
  function FinalScore(s: Session): (r: (nat, nat))
    ensures r.0 == s.score && r.1 == |s.questions|
    ensures Valid(s) ==> r.0 <= r.1
  {
    (s.score, |s.questions|)
  }

  /** `n` questions answered right at the first click, each followed by
      "Prochaine question". */
  function PerfectRounds(lang: string, n: nat): (es: seq<Event>)
    ensures forall e :: e in es ==> e == Answer(lang, "") || e == Next
  {
    if n == 0 then [] else [Answer(lang, ""), Next] + PerfectRounds(lang, n - 1)
  }

  /** Each perfect round scores one point and moves one question on. */
  lemma {:induction false} PerfectRoundsScore(s: Session, words: seq<Entry>, lang: string, n: nat)
    requires s.selected == Some(lang) && s.index + n <= |s.questions|
    requires forall i :: s.index <= i < |s.questions| ==> !s.questions[i].attempted
    ensures KeysFit(PerfectRounds(lang, n), |words|)
    ensures var r := Run(s, words, PerfectRounds(lang, n));
      && r.index == s.index + n && r.score == s.score + n
      && r.selected == s.selected && |r.questions| == |s.questions|
      && forall i :: r.index <= i < |r.questions| ==> !r.questions[i].attempted
    decreases n
  {
    if n > 0 {
      var es := PerfectRounds(lang, n);
      var s1 := Step(s, words, Answer(lang, ""));
      var s2 := Step(s1, words, Next);
      assert es[1..][1..] == PerfectRounds(lang, n - 1);
      assert Run(s, words, es) == Run(s2, words, PerfectRounds(lang, n - 1));
      PerfectRoundsScore(s2, words, lang, n - 1);
    }
  }

  /** A game on fewer than 20 words, every answer right at the first click:
      the corrected screen shows full marks, the screen as written shows the
      same score out of 20. */
  lemma FinalScoreAsWrittenUnderstates(s: Session, words: seq<Entry>, keys: seq<real>, lang: string)
    requires |keys| == |words| && 0 < |words| < 20 && s.selected == Some(lang)
    ensures var start := StartGame(s, words, keys);
      KeysFit(PerfectRounds(lang, |words|), |words|) &&
      var end := Run(start, words, PerfectRounds(lang, |words|));
      && Finished(end)
      && FinalScore(end) == (|words|, |words|)
      && FinalScoreAsWritten(end) == (|words|, 20)
  {
    var start := StartGame(s, words, keys);
    assert forall i :: 0 <= i < |start.questions| ==> start.questions[i] in start.questions;
    PerfectRoundsScore(start, words, lang, |words|);
  }
}
