/**
 * The answer buttons of one question (game.js:106-116, 140-161): one
 * candidate per language, shuffled, collapsed by word text so that the
 * correct language survives, then sorted by word.
 */
module Options {
  import opened Wrappers
  import opened Languages
  import opened Catalog
  import opened Sorting
  import opened Shuffle

  /** One button: the language it stands for and the word it shows. */
  datatype AnswerOption = AnswerOption(lang: string, word: string)

  /** Whether `o` is in the language being quizzed; nothing is while no
      language has been chosen (`opt.lang === undefined` is false). */
  predicate InLanguage(o: AnswerOption, correctLang: Option<string>) {
    correctLang == Some(o.lang)
  }

  function Word(o: AnswerOption): string { o.word }

  /** The set of words shown by `s`. */
  ghost function WordsOf(s: seq<AnswerOption>): set<string> {
    set o | o in s :: o.word
  }

  /** `LANGUAGES.map(lang => ({lang, word: q.forms[lang] || ""}))`. */
  function Candidates(e: Entry): (r: seq<AnswerOption>)
    ensures |r| == |LANGUAGES|
    ensures forall o :: o in r <==> o.lang in LANGUAGES && o.word == FormOf(e, o.lang)
  {
    var r := seq(|LANGUAGES|, i requires 0 <= i < |LANGUAGES| => AnswerOption(LANGUAGES[i], FormOf(e, LANGUAGES[i])));
    assert forall o: AnswerOption :: o.lang in LANGUAGES && o.word == FormOf(e, o.lang) ==> o in r by {
      forall o: AnswerOption | o.lang in LANGUAGES && o.word == FormOf(e, o.lang) ensures o in r {
        var i :| 0 <= i < |LANGUAGES| && LANGUAGES[i] == o.lang;
        assert r[i] == o;
      }
    }
    r
  }

  /** Each language has exactly one candidate, whose word is its form or "". */
  lemma CandidatesOnePerLanguage(e: Entry, lang: string)
    requires lang in LANGUAGES
    ensures exists i :: 0 <= i < |Candidates(e)| && Candidates(e)[i] == AnswerOption(lang, FormOf(e, lang))
    ensures forall i, j ::
              (0 <= i < |Candidates(e)| && 0 <= j < |Candidates(e)| &&
               Candidates(e)[i].lang == lang && Candidates(e)[j].lang == lang) ==> i == j
  {
    LanguagesDistinct();
    var c := Candidates(e);
    var k :| 0 <= k < |LANGUAGES| && LANGUAGES[k] == lang;
    assert c[k] == AnswerOption(lang, FormOf(e, lang));
  }

  /** Index of the first option of `s` whose word is `w`. */
  function FirstWith(s: seq<AnswerOption>, w: string): (k: nat)
    requires w in WordsOf(s)
    ensures k < |s| && s[k].word == w
    ensures forall j :: 0 <= j < k ==> s[j].word != w
  {
    if s[0].word == w then 0
    else
      assert w in WordsOf(s[1..]) by {
        var o :| o in s && o.word == w;
        var i :| 0 <= i < |s| && s[i] == o;
        assert s[1..][i - 1] == o;
      }
      1 + FirstWith(s[1..], w)
  }

  /** Index of the first option of `s` with word `w` in the correct language. */
  function FirstCorrectWith(s: seq<AnswerOption>, w: string, correctLang: Option<string>): (k: Option<nat>)
    ensures k.Some? ==> k.value < |s| && s[k.value].word == w && InLanguage(s[k.value], correctLang)
    ensures k.Some? ==> forall j :: 0 <= j < k.value ==> !(s[j].word == w && InLanguage(s[j], correctLang))
    ensures k.None? ==> forall j :: 0 <= j < |s| ==> !(s[j].word == w && InLanguage(s[j], correctLang))
  {
    if s == [] then None
    else if s[0].word == w && InLanguage(s[0], correctLang) then Some(0)
    else
      match FirstCorrectWith(s[1..], w, correctLang)
      case None => None
      case Some(k) => Some(k + 1)
  }

  /** The distinct words of `s`, in order of first occurrence. */
  function FirstWords(s: seq<AnswerOption>): (ws: seq<string>)
    ensures Distinct(ws) && |ws| <= |s|
    ensures forall w :: w in ws <==> w in WordsOf(s)
    ensures forall i, j :: 0 <= i < j < |ws| ==> FirstWith(s, ws[i]) < FirstWith(s, ws[j])
  {
    if s == [] then []
    else
      var prefix := s[..|s| - 1];
      var ws := FirstWords(prefix);
      var last := s[|s| - 1];
      assert s == prefix + [last];
      assert WordsOf(s) == WordsOf(prefix) + {last.word};
      forall w | w in WordsOf(prefix) ensures FirstWith(s, w) == FirstWith(prefix, w) {
        FirstWithSnoc(prefix, last, w);
      }
      if last.word in ws then ws
      else
        assert FirstWith(s, last.word) == |s| - 1;
        ws + [last.word]
  }

  /** Appending an option does not move the first occurrence of an old word. */
  lemma FirstWithSnoc(s: seq<AnswerOption>, o: AnswerOption, w: string)
    requires w in WordsOf(s)
    ensures w in WordsOf(s + [o]) && FirstWith(s + [o], w) == FirstWith(s, w)
  {
    var k := FirstWith(s, w);
    assert (s + [o])[k] == s[k];
  }

  /** The option kept for word `w`: the first in the correct language if
      there is one, otherwise the first with that word. */
  function Keeper(s: seq<AnswerOption>, w: string, correctLang: Option<string>): (o: AnswerOption)
    requires w in WordsOf(s)
    ensures o in s && o.word == w
    ensures (exists j :: 0 <= j < |s| && s[j].word == w && InLanguage(s[j], correctLang)) ==> InLanguage(o, correctLang)
  {
    match FirstCorrectWith(s, w, correctLang)
    case Some(k) => s[k]
    case None => s[FirstWith(s, w)]
  }

  /** What `deduplicateOptions(options, correctLang)` returns, stated without
      its loop: one option per distinct word, in order of first occurrence,
      each the keeper of its word. */
  function Deduplicated(s: seq<AnswerOption>, correctLang: Option<string>): (r: seq<AnswerOption>)
    ensures |r| == |FirstWords(s)| <= |s|
    ensures forall i :: 0 <= i < |r| ==> r[i] == Keeper(s, FirstWords(s)[i], correctLang)
  {
    var ws := FirstWords(s);
    seq(|ws|, i requires 0 <= i < |ws| => Keeper(s, ws[i], correctLang))
  }

  lemma WordsOfSnoc(s: seq<AnswerOption>, o: AnswerOption)
    ensures WordsOf(s + [o]) == WordsOf(s) + {o.word}
  {
    assert forall x :: x in s + [o] <==> x in s || x == o;
  }

  lemma {:induction false} FirstCorrectWithSnoc(s: seq<AnswerOption>, o: AnswerOption, w: string, correctLang: Option<string>)
    ensures FirstCorrectWith(s + [o], w, correctLang) ==
      match FirstCorrectWith(s, w, correctLang)
      case Some(k) => Some(k)
      case None => if o.word == w && InLanguage(o, correctLang) then Some(|s|) else None
  {
    if s != [] {
      assert (s + [o])[1..] == s[1..] + [o];
      FirstCorrectWithSnoc(s[1..], o, w, correctLang);
    }
  }

  /** One more option whose word is new: it is appended. */
  lemma DeduplicatedSnocNew(s: seq<AnswerOption>, o: AnswerOption, correctLang: Option<string>)
    requires o.word !in WordsOf(s)
    ensures FirstWords(s + [o]) == FirstWords(s) + [o.word]
    ensures Deduplicated(s + [o], correctLang) == Deduplicated(s, correctLang) + [o]
  {
    var s' := s + [o];
    assert s'[..|s'| - 1] == s;
    WordsOfSnoc(s, o);
    var d, d' := Deduplicated(s, correctLang), Deduplicated(s', correctLang);
    forall i | 0 <= i < |d'| ensures d'[i] == (d + [o])[i] {
      var w := FirstWords(s')[i];
      FirstCorrectWithSnoc(s, o, w, correctLang);
      if i < |d| {
        FirstWithSnoc(s, o, w);
      } else {
        assert FirstWith(s', w) == |s|;
      }
    }
  }

  /** Appending an option adds its word to the first words if it is new. */
  lemma FirstWordsSnoc(s: seq<AnswerOption>, o: AnswerOption)
    ensures FirstWords(s + [o]) == if o.word in WordsOf(s) then FirstWords(s) else FirstWords(s) + [o.word]
  {
    var s' := s + [o];
    assert s'[..|s'| - 1] == s;
  }

  /** Appending an option changes the keeper of an old word only when the
      option has that word, is in the correct language and the keeper is not. */
  lemma KeeperSnoc(s: seq<AnswerOption>, o: AnswerOption, w: string, correctLang: Option<string>)
    requires w in WordsOf(s)
    ensures w in WordsOf(s + [o])
    ensures Keeper(s + [o], w, correctLang) ==
      if o.word == w && InLanguage(o, correctLang) && !InLanguage(Keeper(s, w, correctLang), correctLang)
      then o else Keeper(s, w, correctLang)
  {
    FirstCorrectWithSnoc(s, o, w, correctLang);
    FirstWithSnoc(s, o, w);
    match FirstCorrectWith(s, w, correctLang)
    case Some(k) =>
      assert (s + [o])[k] == s[k];
    case None =>
      var f := FirstWith(s, w);
      assert (s + [o])[f] == s[f];
  }

  /** One more option whose word was seen, at slot `idx`: it takes the slot
      over only if it is in the correct language and the kept one is not. */
  lemma DeduplicatedSnocSeen(s: seq<AnswerOption>, o: AnswerOption, correctLang: Option<string>, idx: nat)
    requires idx < |FirstWords(s)| && FirstWords(s)[idx] == o.word
    ensures FirstWords(s + [o]) == FirstWords(s)
    ensures var d := Deduplicated(s, correctLang);
            Deduplicated(s + [o], correctLang) ==
              if InLanguage(o, correctLang) && !InLanguage(d[idx], correctLang) then d[idx := o] else d
  {
    var s' := s + [o];
    var ws := FirstWords(s);
    FirstWordsSnoc(s, o);
    var d, d' := Deduplicated(s, correctLang), Deduplicated(s', correctLang);
    var expected := if InLanguage(o, correctLang) && !InLanguage(d[idx], correctLang) then d[idx := o] else d;
    forall i | 0 <= i < |d'| ensures d'[i] == expected[i] {
      KeeperSnoc(s, o, ws[i], correctLang);
    }
  }

  /** `seen` and `result` as they stand after a pass over `s`: `result` is
      the deduplicated list, and `seen` maps each word met to its slot. */
  ghost predicate Tracks(seen: map<string, nat>, result: seq<AnswerOption>, s: seq<AnswerOption>, correctLang: Option<string>) {
    && result == Deduplicated(s, correctLang)
    && (forall w :: w in seen <==> w in WordsOf(s))
    && (forall w :: w in seen ==> seen[w] < |result| && FirstWords(s)[seen[w]] == w)
  }

  /** The step of the loop for a word already in `seen`. */
  lemma TracksSeen(seen: map<string, nat>, result: seq<AnswerOption>, s: seq<AnswerOption>, opt: AnswerOption, correctLang: Option<string>)
    requires Tracks(seen, result, s, correctLang) && opt.word in seen
    ensures seen[opt.word] < |result|
    ensures var i := seen[opt.word];
      Tracks(seen, if InLanguage(opt, correctLang) && !InLanguage(result[i], correctLang) then result[i := opt] else result,
             s + [opt], correctLang)
  {
    WordsOfSnoc(s, opt);
    DeduplicatedSnocSeen(s, opt, correctLang, seen[opt.word]);
  }

  /** The step of the loop for a word not yet in `seen`. */
  lemma TracksNew(seen: map<string, nat>, result: seq<AnswerOption>, s: seq<AnswerOption>, opt: AnswerOption, correctLang: Option<string>)
    requires Tracks(seen, result, s, correctLang) && opt.word !in seen
    ensures Tracks(seen[opt.word := |result|], result + [opt], s + [opt], correctLang)
  {
    WordsOfSnoc(s, opt);
    DeduplicatedSnocNew(s, opt, correctLang);
  }

  /** `deduplicateOptions`: a `seen` map from word to slot and a `result`
      list, filled in one pass over the options. */
  method DeduplicateOptions(options: seq<AnswerOption>, correctLang: Option<string>) returns (result: seq<AnswerOption>)
    ensures result == Deduplicated(options, correctLang)
  {
    var seen: map<string, nat> := map[];
    result := [];
    assert options[..0] == [];
    for k := 0 to |options|
      invariant Tracks(seen, result, options[..k], correctLang)
    {
      var opt := options[k];
      var word := opt.word;
      assert options[..k + 1] == options[..k] + [opt];
      if word in seen {
        TracksSeen(seen, result, options[..k], opt, correctLang);
        var existingIndex := seen[word];
        var existingOpt := result[existingIndex];
        if Some(opt.lang) == correctLang && Some(existingOpt.lang) != correctLang {
          result := result[existingIndex := opt];
        }
      } else {
        TracksNew(seen, result, options[..k], opt, correctLang);
        seen := seen[word := |result|];
        result := result + [opt];
      }
    }
    assert options[..|options|] == options;
  }

  /** `deduplicateOptions` keeps every input word exactly once. */
  lemma DeduplicatedWords(s: seq<AnswerOption>, correctLang: Option<string>)
    ensures var r := Deduplicated(s, correctLang);
      DistinctBy(r, Word) && WordsOf(r) == WordsOf(s) && |r| <= |s|
  {
    var r, ws := Deduplicated(s, correctLang), FirstWords(s);
    assert forall i :: 0 <= i < |r| ==> r[i].word == ws[i];
    forall w | w in WordsOf(s) ensures w in WordsOf(r) {
      var i :| 0 <= i < |ws| && ws[i] == w;
      assert r[i] in r;
    }
  }

  /** Every kept option is an input option, the words come in order of first
      occurrence, and an option not in the correct language is kept only as
      the first occurrence of its word. */
  lemma DeduplicatedOrder(s: seq<AnswerOption>, correctLang: Option<string>)
    ensures var r := Deduplicated(s, correctLang);
      && (forall i :: 0 <= i < |r| ==> r[i] in s)
      && (forall i, j :: 0 <= i < j < |r| ==> FirstWith(s, r[i].word) < FirstWith(s, r[j].word))
      && (forall i :: 0 <= i < |r| && !InLanguage(r[i], correctLang) ==> r[i] == s[FirstWith(s, r[i].word)])
  {
    var r, ws := Deduplicated(s, correctLang), FirstWords(s);
    assert forall i :: 0 <= i < |r| ==> r[i].word == ws[i];
  }

  /** An option in the correct language is never lost to a same-word option
      in another language: its word's slot holds a correct-language option. */
  lemma DeduplicatedKeepsCorrect(s: seq<AnswerOption>, correctLang: Option<string>, k: nat)
    requires k < |s| && InLanguage(s[k], correctLang)
    ensures var r := Deduplicated(s, correctLang);
      exists i :: 0 <= i < |r| && r[i].word == s[k].word && InLanguage(r[i], correctLang)
  {
    var r, ws := Deduplicated(s, correctLang), FirstWords(s);
    assert s[k] in s;
    assert s[k].word in WordsOf(s);
    var i :| 0 <= i < |ws| && ws[i] == s[k].word;
    assert r[i] == Keeper(s, ws[i], correctLang);
  }

  /** Names every plain object inherits from `Object.prototype`: `word in
      seen` is true for them although `seen` was never given them. */
  const INHERITED_NAMES: set<string> := {
    "constructor", "hasOwnProperty", "isPrototypeOf", "propertyIsEnumerable",
    "toLocaleString", "toString", "valueOf", "__proto__",
    "__defineGetter__", "__defineSetter__", "__lookupGetter__", "__lookupSetter__"
  }

  /** The `seen` object and the `result` array of `deduplicateOptions`. */
  datatype DedupState = DedupState(seen: map<string, nat>, result: seq<AnswerOption>)

  /** `deduplicateOptions` as written, after its pass over `s`. For an
      inherited name `word in seen` holds, but `seen[word]` is a function or
      an object, so `result[existingIndex]` is undefined. The test after it
      reads `existingOpt.lang` only for an option in the correct language
      (`&&` short-circuits): that read throws, and an option in any other
      language is dropped without a trace. */
  function DeduplicatePassAsWritten(s: seq<AnswerOption>, correctLang: Option<string>): (p: Result<DedupState>)
    ensures p.Ok? ==> forall w :: w in p.value.seen ==> w !in INHERITED_NAMES && p.value.seen[w] < |p.value.result|
    ensures p.Thrown? ==> exists k :: 0 <= k < |s| && s[k].word in INHERITED_NAMES && InLanguage(s[k], correctLang)
    decreases |s|
  {
    if s == [] then Ok(DedupState(map[], []))
    else
      var prefix, opt := s[..|s| - 1], s[|s| - 1];
      assert forall k :: 0 <= k < |prefix| ==> prefix[k] == s[k];
      match DeduplicatePassAsWritten(prefix, correctLang)
      case Thrown(e) => Thrown(e)
      case Ok(st) =>
        if opt.word in st.seen || opt.word in INHERITED_NAMES then
          if InLanguage(opt, correctLang) then
            if opt.word in st.seen && st.seen[opt.word] < |st.result| then
              var existingIndex := st.seen[opt.word];
              var existingOpt := st.result[existingIndex];
              if !InLanguage(existingOpt, correctLang) then
                Ok(st.(result := st.result[existingIndex := opt]))
              else Ok(st)
            else
              Thrown("TypeError: Cannot read properties of undefined (reading 'lang')")
          else Ok(st)
        else Ok(DedupState(st.seen[opt.word := |st.result|], st.result + [opt]))
  }

  /** `deduplicateOptions` as written: it throws only on an option in the
      correct language whose word is an inherited name. */
  function DeduplicateAsWritten(s: seq<AnswerOption>, correctLang: Option<string>): (r: Result<seq<AnswerOption>>)
    ensures r.Thrown? ==> exists k :: 0 <= k < |s| && s[k].word in INHERITED_NAMES && InLanguage(s[k], correctLang)
  {
    match DeduplicatePassAsWritten(s, correctLang)
    case Ok(st) => Ok(st.result)
    case Thrown(e) => Thrown(e)
  }

  /** The options of `s` whose word is not an inherited name, in order. */
  function OwnWordOptions(s: seq<AnswerOption>): (t: seq<AnswerOption>)
    ensures forall o :: o in t <==> o in s && o.word !in INHERITED_NAMES
    decreases |s|
  {
    if s == [] then []
    else
      var prefix, opt := s[..|s| - 1], s[|s| - 1];
      assert s == prefix + [opt];
      if opt.word in INHERITED_NAMES then OwnWordOptions(prefix) else OwnWordOptions(prefix) + [opt]
  }

  /** The pass as written on one more option that does not throw. */
  lemma PassAsWrittenSnoc(s: seq<AnswerOption>, opt: AnswerOption, correctLang: Option<string>)
    requires opt.word in INHERITED_NAMES ==> !InLanguage(opt, correctLang)
    requires DeduplicatePassAsWritten(s, correctLang).Ok?
    ensures var st := DeduplicatePassAsWritten(s, correctLang).value;
      DeduplicatePassAsWritten(s + [opt], correctLang) ==
        if opt.word in INHERITED_NAMES then Ok(st)
        else if opt.word in st.seen then
          var i := st.seen[opt.word];
          Ok(st.(result := if InLanguage(opt, correctLang) && !InLanguage(st.result[i], correctLang) then st.result[i := opt] else st.result))
        else Ok(DedupState(st.seen[opt.word := |st.result|], st.result + [opt]))
  {
    var s' := s + [opt];
    assert s'[..|s'| - 1] == s && s'[|s'| - 1] == opt;
  }

  /** One step of the pass as written, on a word that is not an inherited
      name, is the step of `DeduplicateOptions` on the options `t` kept so far. */
  lemma PassAsWrittenStep(s: seq<AnswerOption>, opt: AnswerOption, correctLang: Option<string>, t: seq<AnswerOption>)
    requires opt.word !in INHERITED_NAMES
    requires var p := DeduplicatePassAsWritten(s, correctLang);
      p.Ok? && Tracks(p.value.seen, p.value.result, t, correctLang)
    ensures var p := DeduplicatePassAsWritten(s + [opt], correctLang);
      p.Ok? && Tracks(p.value.seen, p.value.result, t + [opt], correctLang)
  {
    var st := DeduplicatePassAsWritten(s, correctLang).value;
    PassAsWrittenSnoc(s, opt, correctLang);
    if opt.word in st.seen {
      TracksSeen(st.seen, st.result, t, opt, correctLang);
    } else {
      TracksNew(st.seen, st.result, t, opt, correctLang);
    }
  }

  /** When no word is an inherited name, the code as written returns the
      deduplicated list. */
  lemma {:induction false} DeduplicateAsWrittenAgrees(s: seq<AnswerOption>, correctLang: Option<string>)
    requires forall o :: o in s ==> o.word !in INHERITED_NAMES
    ensures var p := DeduplicatePassAsWritten(s, correctLang);
      p.Ok? && Tracks(p.value.seen, p.value.result, s, correctLang)
    ensures DeduplicateAsWritten(s, correctLang) == Ok(Deduplicated(s, correctLang))
    decreases |s|
  {
    if s == [] {
      assert WordsOf(s) == {};
    } else {
      var prefix, opt := s[..|s| - 1], s[|s| - 1];
      assert s == prefix + [opt];
      assert opt in s;
      DeduplicateAsWrittenAgrees(prefix, correctLang);
      PassAsWrittenStep(prefix, opt, correctLang, prefix);
    }
  }

  /** When every option with an inherited name is outside the correct
      language, the code as written does not throw: it drops those options,
      so their words get no button, and deduplicates the others. */
  lemma {:induction false} DeduplicateAsWrittenDrops(s: seq<AnswerOption>, correctLang: Option<string>)
    requires forall o :: o in s && o.word in INHERITED_NAMES ==> !InLanguage(o, correctLang)
    ensures var p := DeduplicatePassAsWritten(s, correctLang);
      p.Ok? && Tracks(p.value.seen, p.value.result, OwnWordOptions(s), correctLang)
    ensures DeduplicateAsWritten(s, correctLang) == Ok(Deduplicated(OwnWordOptions(s), correctLang))
    ensures forall o :: o in DeduplicateAsWritten(s, correctLang).value ==> o in s && o.word !in INHERITED_NAMES
    decreases |s|
  {
    if s == [] {
      assert WordsOf([]) == {};
    } else {
      var prefix, opt := s[..|s| - 1], s[|s| - 1];
      assert s == prefix + [opt];
      assert opt in s;
      DeduplicateAsWrittenDrops(prefix, correctLang);
      if opt.word in INHERITED_NAMES {
        PassAsWrittenSnoc(prefix, opt, correctLang);
      } else {
        PassAsWrittenStep(prefix, opt, correctLang, OwnWordOptions(prefix));
      }
    }
    DeduplicatedOrder(OwnWordOptions(s), correctLang);
  }

  /** An option in the correct language whose word is an inherited name
      makes the code as written throw, whatever the other options are. */
  lemma {:induction false} DeduplicateAsWrittenThrows(s: seq<AnswerOption>, correctLang: Option<string>, k: nat)
    requires k < |s| && s[k].word in INHERITED_NAMES && InLanguage(s[k], correctLang)
    ensures DeduplicatePassAsWritten(s, correctLang).Thrown?
    ensures DeduplicateAsWritten(s, correctLang).Thrown?
    decreases |s|
  {
    var prefix := s[..|s| - 1];
    if k < |s| - 1 {
      assert prefix[k] == s[k];
      DeduplicateAsWrittenThrows(prefix, correctLang, k);
    }
  }

  /** A question whose wolof form is "constructor" throws when wolof is
      quizzed; one whose balante form is "toString" loses that button when
      wolof is quizzed. The deduplicated lists keep both. */
  lemma DeduplicateAsWrittenCounterexample()
    ensures DeduplicateAsWritten([AnswerOption("wolof", "constructor")], Some("wolof")).Thrown?
    ensures Deduplicated([AnswerOption("wolof", "constructor")], Some("wolof")) == [AnswerOption("wolof", "constructor")]
    ensures DeduplicateAsWritten([AnswerOption("balante", "toString")], Some("wolof")) == Ok([])
    ensures Deduplicated([AnswerOption("balante", "toString")], Some("wolof")) == [AnswerOption("balante", "toString")]
  {
    var s := [AnswerOption("wolof", "constructor")];
    DeduplicateAsWrittenThrows(s, Some("wolof"), 0);
    assert s == [] + [s[0]];
    assert WordsOf([]) == {};
    DeduplicatedSnocNew([], s[0], Some("wolof"));
    var t := [AnswerOption("balante", "toString")];
    assert t == [] + [t[0]];
    PassAsWrittenSnoc([], t[0], Some("wolof"));
    DeduplicatedSnocNew([], t[0], Some("wolof"));
  }

  /** `(a, b) => a.word.localeCompare(b.word, 'fr', {sensitivity: 'base'})`,
      read as "does not come after", for a given collation `compare`. */
  function ByWord(compare: (string, string) -> int): (AnswerOption, AnswerOption) -> bool {
    (a: AnswerOption, b: AnswerOption) => compare(a.word, b.word) <= 0
  }

  /** What the option sort needs of `localeCompare`: any two words are
      ordered one way or the other, and the order is transitive. */
  ghost predicate IsCollation(compare: (string, string) -> int) {
    && (forall x, y :: compare(x, y) <= 0 || compare(y, x) <= 0)
    && (forall x, y, z :: compare(x, y) <= 0 && compare(y, z) <= 0 ==> compare(x, z) <= 0)
  }

  /** The buttons of a question (game.js:106-116): candidates, shuffled with
      the given random keys, deduplicated, sorted by word. */
  function BuildOptions(e: Entry, correctLang: Option<string>, keys: seq<real>, compare: (string, string) -> int): (r: seq<AnswerOption>)
    requires |keys| == |LANGUAGES|
    ensures |r| <= |LANGUAGES|
    ensures forall o :: o in r ==> o in Candidates(e)
  {
    var shuffled := ShuffleArray(Candidates(e), keys);
    var d := Deduplicated(shuffled, correctLang);
    DeduplicatedOrder(shuffled, correctLang);
    var r := SortBy(d, ByWord(compare));
    assert |r| == |multiset(r)| == |multiset(d)| == |d|;
    assert forall o :: o in r ==> o in multiset(d) && o in multiset(shuffled);
    r
  }

  /** Whatever the shuffle: at most one button per language, no two buttons
      showing the same word, every button a candidate, and every language's
      form on some button. */
  lemma BuildOptionsProperties(e: Entry, correctLang: Option<string>, keys: seq<real>, compare: (string, string) -> int)
    requires |keys| == |LANGUAGES|
    ensures var r := BuildOptions(e, correctLang, keys, compare);
      && DistinctBy(r, Word)
      && |r| <= |LANGUAGES|
      && (forall o :: o in r ==> o.lang in LANGUAGES && o.word == FormOf(e, o.lang))
      && (forall lang :: lang in LANGUAGES ==> FormOf(e, lang) in WordsOf(r))
  {
    var cands := Candidates(e);
    var shuffled := ShuffleArray(cands, keys);
    var d := Deduplicated(shuffled, correctLang);
    var r := BuildOptions(e, correctLang, keys, compare);
    DeduplicatedWords(shuffled, correctLang);
    DeduplicatedOrder(shuffled, correctLang);
    SortByKeepsDistinct(d, ByWord(compare), Word);
    assert |r| == |multiset(r)| == |multiset(d)| == |d|;
    forall o | o in r ensures o in cands {
      assert o in multiset(r);
      assert o in multiset(shuffled);
    }
    forall lang | lang in LANGUAGES ensures FormOf(e, lang) in WordsOf(r) {
      assert AnswerOption(lang, FormOf(e, lang)) in multiset(shuffled);
      assert FormOf(e, lang) in WordsOf(shuffled);
      var p :| p in d && p.word == FormOf(e, lang);
      assert p in multiset(r);
    }
  }

  /** A chosen language from the registry has a button showing that
      language's own form. */
  lemma BuildOptionsHasCorrect(e: Entry, correctLang: Option<string>, keys: seq<real>, compare: (string, string) -> int)
    requires |keys| == |LANGUAGES|
    requires correctLang.Some? && correctLang.value in LANGUAGES
    ensures AnswerOption(correctLang.value, FormOf(e, correctLang.value)) in BuildOptions(e, correctLang, keys, compare)
  {
    var o := AnswerOption(correctLang.value, FormOf(e, correctLang.value));
    var shuffled := ShuffleArray(Candidates(e), keys);
    var d := Deduplicated(shuffled, correctLang);
    assert o in multiset(shuffled);
    var k :| 0 <= k < |shuffled| && shuffled[k] == o;
    DeduplicatedKeepsCorrect(shuffled, correctLang, k);
    var i :| 0 <= i < |d| && d[i].word == o.word && InLanguage(d[i], correctLang);
    DeduplicatedOrder(shuffled, correctLang);
    assert d[i] in multiset(shuffled);
    assert d[i] == o;
    assert o in multiset(d);
  }

  /** A chosen language from the registry has exactly one button, and it
      shows that language's own form. */
  lemma BuildOptionsCorrectOnce(e: Entry, correctLang: Option<string>, keys: seq<real>, compare: (string, string) -> int)
    requires |keys| == |LANGUAGES|
    requires correctLang.Some? && correctLang.value in LANGUAGES
    ensures var r := BuildOptions(e, correctLang, keys, compare);
      exists i :: 0 <= i < |r| && r[i] == AnswerOption(correctLang.value, FormOf(e, correctLang.value)) &&
        forall j :: 0 <= j < |r| && r[j].lang == correctLang.value ==> j == i
  {
    var lang := correctLang.value;
    var r := BuildOptions(e, correctLang, keys, compare);
    BuildOptionsHasCorrect(e, correctLang, keys, compare);
    BuildOptionsProperties(e, correctLang, keys, compare);
    var i :| 0 <= i < |r| && r[i] == AnswerOption(lang, FormOf(e, lang));
    forall j | 0 <= j < |r| && r[j].lang == lang ensures j == i {
      assert r[j] in r;
      assert Word(r[j]) == Word(r[i]);
    }
  }

  /** A chosen language outside the registry (nothing rejects one) gets no
      button at all, so no answer to the question can be correct. */
  lemma BuildOptionsUnsupportedLanguage(e: Entry, correctLang: Option<string>, keys: seq<real>, compare: (string, string) -> int)
    requires |keys| == |LANGUAGES|
    requires correctLang.Some? && correctLang.value !in LANGUAGES
    ensures forall o :: o in BuildOptions(e, correctLang, keys, compare) ==> !InLanguage(o, correctLang)
  {
    BuildOptionsProperties(e, correctLang, keys, compare);
  }

  /** With a collation as comparator, the buttons are in word order. */
  lemma BuildOptionsSorted(e: Entry, correctLang: Option<string>, keys: seq<real>, compare: (string, string) -> int)
    requires |keys| == |LANGUAGES|
    requires IsCollation(compare)
    ensures SortedBy(BuildOptions(e, correctLang, keys, compare), ByWord(compare))
  {
    var le := ByWord(compare);
    assert TotalPreorder(le) by {
      forall x: AnswerOption, y: AnswerOption ensures le(x, y) || le(y, x) {
        assert compare(x.word, y.word) <= 0 || compare(y.word, x.word) <= 0;
      }
      forall x: AnswerOption, y: AnswerOption, z: AnswerOption | le(x, y) && le(y, z) ensures le(x, z) {
        assert compare(x.word, y.word) <= 0 && compare(y.word, z.word) <= 0;
      }
    }
    SortByIsSorted(Deduplicated(ShuffleArray(Candidates(e), keys), correctLang), le);
  }
}
