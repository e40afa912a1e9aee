/** The word list loaded from `data/words.json` (game.js:51-57), as values. */
module Catalog {

  /** One word: its id (which names its image and audio files), its French
      gloss (the question prompt) and its written form per language code. */
  datatype Entry = Entry(id: string, gloss: string, forms: map<string, string>)

  /** `q.forms[lang] || ""`: a missing form (and an empty one) reads as "". */
  function FormOf(e: Entry, lang: string): string {
    if lang in e.forms then e.forms[lang] else ""
  }
}
