/**
 * The quiz as game.js runs it: module-level variables updated in place by
 * the click handlers (game.js:12-16, 76-93, 97-116, 165-241, 268-275).
 * Each handler is proved to perform the matching transition of the Session
 * module, and to keep the session invariant.
 */
module Game {
  import opened Wrappers
  import opened Languages
  import opened Catalog
  import opened Sorting
  import opened Shuffle
  import opened Options
  import S = Session

  class Quiz {
    /** `wordsData`: the parsed word list, set once when it has loaded. */
    const wordsData: seq<Entry>
    var selectedLanguage: Option<string>
    var currentQuestionIndex: nat
    var questions: seq<S.Question>
    var correctFirstTry: nat

    /** The globals as one session value. */
    function State(): S.Session
      reads this
    {
      S.Session(selectedLanguage, currentQuestionIndex, questions, correctFirstTry)
    }

    /** The session invariant, and every question is a word of the list. */
    ghost predicate Valid()
      reads this
    {
      S.Valid(State()) && multiset(S.Entries(questions)) <= multiset(wordsData)
    }

    /** The globals' initial values once `wordsData` has loaded (game.js:12-16, 54). */
    constructor (words: seq<Entry>)
      ensures wordsData == words && State() == S.Initial() && Valid()
    {
      wordsData := words;
      selectedLanguage := None;
      currentQuestionIndex := 0;
      questions := [];
      correctFirstTry := 0;
    }

    /** `selectLanguage`. */
    method SelectLanguage(lang: string)
      requires Valid()
      modifies this
      ensures State() == S.SelectLanguage(old(State()), lang) && Valid()
    {
      selectedLanguage := Some(lang);
    }

    /** `startGame`, given the random keys its shuffle draws; the first
        question's buttons are then `LoadQuestion`'s. */
    method StartGame(keys: seq<real>)
      requires |keys| == |wordsData|
      modifies this
      ensures State() == S.StartGame(old(State()), wordsData, keys) && Valid()
    {
      currentQuestionIndex := 0;
      correctFirstTry := 0;
      questions := S.Sample(wordsData, keys);
    }

    /** `startGameAgain`: resets the score, then `startGame`. */
    method StartGameAgain(keys: seq<real>)
      requires |keys| == |wordsData|
      modifies this
      ensures State() == S.StartGameAgain(old(State()), wordsData, keys) && Valid()
    {
      correctFirstTry := 0;
      StartGame(keys);
    }

    /** The data half of `loadQuestion`: the current question's buttons, or
        the error thrown when there is no current question. */
    method LoadQuestion(keys: seq<real>, compare: (string, string) -> int) returns (r: Result<seq<AnswerOption>>)
      requires |keys| == |LANGUAGES|
      ensures r.Thrown? <==> currentQuestionIndex >= |questions|
      ensures r.Ok? ==> r.value == BuildOptions(questions[currentQuestionIndex].entry, selectedLanguage, keys, compare)
    {
      if currentQuestionIndex >= |questions| {
        return Thrown("TypeError: Cannot read properties of undefined (reading 'forms')");
      }
      var q := questions[currentQuestionIndex];
      var options := Candidates(q.entry);
      options := ShuffleArray(options, keys);
      options := DeduplicateOptions(options, selectedLanguage);
      options := SortBy(options, ByWord(compare));
      r := Ok(options);
    }

    /** `checkAnswer`: the popup's verdict, with the score and the current
        question's flag updated as the Session transition says. */
    method CheckAnswer(langClicked: string, wordClicked: string) returns (r: Result<S.Feedback>)
      requires Valid()
      modifies this
      ensures Valid()
      ensures match S.CheckAnswer(old(State()), langClicked, wordClicked)
              case Thrown(e) => r == Thrown(e) && State() == old(State())
              case Ok(a) => r == Ok(a.feedback) && State() == a.next
    {
      S.CheckAnswerPreservesValid(State(), langClicked, wordClicked);
      if currentQuestionIndex >= |questions| {
        return Thrown("TypeError: Cannot read properties of undefined (reading 'forms')");
      }
      var q := questions[currentQuestionIndex];
      var correctLang := selectedLanguage;
      var correct := correctLang == Some(langClicked);
      if correct {
        if !q.attempted {
          correctFirstTry := correctFirstTry + 1;
        }
        questions := questions[currentQuestionIndex := q.(attempted := true)];
        r := Ok(S.Correct(langClicked, q.entry.id));
      } else {
        questions := questions[currentQuestionIndex := q.(attempted := true)];
        r := Ok(S.Incorrect(langClicked, wordClicked, q.entry.id));
      }
      assert S.Entries(questions) == S.Entries(old(questions));
    }

    /** `closePopup`: hides the popup; the game state is not touched. */
    method ClosePopup()
      ensures State() == old(State())
    {
    }

    /** `nextQuestion`: one question further; `finished` is whether the
        final screen is shown instead of the next question. */
    method NextQuestion() returns (finished: bool)
      requires Valid()
      modifies this
      ensures State() == S.NextQuestion(old(State())) && Valid()
      ensures finished <==> S.Finished(State())
    {
      currentQuestionIndex := currentQuestionIndex + 1;
      finished := currentQuestionIndex >= |questions|;
    }

    /** `showFinalScreen`'s two numbers, the total being the number of
        questions asked (the screen as written prints a constant 20). */
    method ShowFinalScreen() returns (score: nat, outOf: nat)
      requires Valid()
      ensures (score, outOf) == S.FinalScore(State())
      ensures score <= outOf
    {
      score, outOf := correctFirstTry, |questions|;
    }

    /** The `beforeunload` handler's condition. */
    function LeavePrompted(): (b: bool)
      reads this
      ensures b <==> S.LeaveGuard(State())
    {
      currentQuestionIndex > 0 && currentQuestionIndex < |questions|
    }
  }
}
