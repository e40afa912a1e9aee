/**
 * The fixed language registry of the quiz and the two helpers that turn a
 * language code into the name shown on the menu buttons (game.js:6-10, 28-39).
 */
module Languages {

  /** The supported language codes, in menu order; they must match the keys of
      every word's `forms`. */
  const LANGUAGES: seq<string> := [
    "balante", "bandial", "bayot", "fonyi", "kassa", "laalaa",
    "mancagne", "manjak", "ndut", "noon", "pulaar", "saafisaafi",
    "seereersine", "wolof"
  ]

  predicate Distinct<T(==)>(s: seq<T>) {
    forall i, j :: 0 <= i < j < |s| ==> s[i] != s[j]
  }

  /** No code is listed twice, so a question gets one candidate per language. */
  lemma LanguagesDistinct()
    ensures |LANGUAGES| == 14 && Distinct(LANGUAGES)
  {
  }

  predicate IsLower(c: char) { 'a' <= c <= 'z' }
  predicate IsUpper(c: char) { 'A' <= c <= 'Z' }

  /** `toUpperCase` on one character (ASCII letters only). */
  function UpperChar(c: char): (u: char)
    ensures IsLower(c) ==> IsUpper(u) && u as int == c as int - 32
    ensures !IsLower(c) ==> u == c
  {
    if IsLower(c) then (c as int - 32) as char else c
  }

  /** `toLowerCase` on one character (ASCII letters only). */
  function LowerChar(c: char): (l: char)
    ensures IsUpper(c) ==> IsLower(l) && l as int == c as int + 32
    ensures !IsUpper(c) ==> l == c
  {
    if IsUpper(c) then (c as int + 32) as char else c
  }

  /** `String.prototype.toLowerCase`, character by character. */
  function ToLower(s: string): (r: string)
    ensures |r| == |s|
    ensures forall i :: 0 <= i < |s| ==> !IsUpper(r[i]) && (IsUpper(s[i]) || r[i] == s[i])
    ensures forall i :: 0 <= i < |s| && IsUpper(s[i]) ==> r[i] as int == s[i] as int + 32
  {
    seq(|s|, i requires 0 <= i < |s| => LowerChar(s[i]))
  }

  /** `capitalize`: the first character upper-cased, the rest untouched; the
      empty string stays empty (`charAt(0)` is then ""). */
  function Capitalize(s: string): (r: string)
    ensures |r| == |s|
    ensures |s| > 0 ==> !IsLower(r[0]) && r[1..] == s[1..]
    ensures |s| > 0 && !IsLower(s[0]) ==> r == s
    ensures |s| > 0 && IsLower(s[0]) ==> r[0] as int == s[0] as int - 32
  {
    if |s| == 0 then "" else [UpperChar(s[0])] + s[1..]
  }

  /** Capitalizing twice is capitalizing once. */
  lemma CapitalizeIdempotent(s: string)
    ensures Capitalize(Capitalize(s)) == Capitalize(s)
  {
  }

  /** `displayLanguageName`: two codes have hand-written names, matched without
      regard to case; every other input is only capitalized (its case is kept). */
  function DisplayLanguageName(lang: string): (r: string)
    ensures ToLower(lang) == "seereersine" ==> r == "Seereer Sine"
    ensures ToLower(lang) == "saafisaafi" ==> r == "Saafi-Saafi"
    ensures ToLower(lang) != "seereersine" && ToLower(lang) != "saafisaafi" ==>
              r == Capitalize(lang)
    ensures r == "" <==> lang == ""
  {
    var key := ToLower(lang);
    if key == "seereersine" then "Seereer Sine"
    else if key == "saafisaafi" then "Saafi-Saafi"
    else Capitalize(lang)
  }

  /** The names shown on the menu, in menu order. */
  const MENU_NAMES: seq<string> := [
    "Balante", "Bandial", "Bayot", "Fonyi", "Kassa", "Laalaa",
    "Mancagne", "Manjak", "Ndut", "Noon", "Pulaar", "Saafi-Saafi",
    "Seereer Sine", "Wolof"
  ]

  /** A string with no upper-case letter is its own lower-case form. */
  lemma ToLowerOfLowercase(s: string)
    requires forall i :: 0 <= i < |s| ==> !IsUpper(s[i])
    ensures ToLower(s) == s
  {
  }

  /** The name of one all-lower-case code that is not special-cased. */
  lemma DisplayNameOfPlainCode(code: string, name: string)
    requires |code| > 0 && IsLower(code[0])
    requires forall i :: 0 <= i < |code| ==> !IsUpper(code[i])
    requires |code| != |"seereersine"| && |code| != |"saafisaafi"|
    requires |name| == |code| && name[0] == UpperChar(code[0]) && name[1..] == code[1..]
    ensures DisplayLanguageName(code) == name && IsUpper(name[0])
  {
    ToLowerOfLowercase(code);
  }

  /** The menu button of the i-th code shows the i-th listed name. */
  lemma DisplayNameAt(i: nat)
    requires i < |LANGUAGES|
    ensures DisplayLanguageName(LANGUAGES[i]) == MENU_NAMES[i] && IsUpper(MENU_NAMES[i][0])
  {
    if i == 0 {
      assert LANGUAGES[i] == "balante" && MENU_NAMES[i] == "Balante";
      DisplayNameOfPlainCode("balante", "Balante");
    } else if i == 1 {
      assert LANGUAGES[i] == "bandial" && MENU_NAMES[i] == "Bandial";
      DisplayNameOfPlainCode("bandial", "Bandial");
    } else if i == 2 {
      assert LANGUAGES[i] == "bayot" && MENU_NAMES[i] == "Bayot";
      DisplayNameOfPlainCode("bayot", "Bayot");
    } else if i == 3 {
      assert LANGUAGES[i] == "fonyi" && MENU_NAMES[i] == "Fonyi";
      DisplayNameOfPlainCode("fonyi", "Fonyi");
    } else if i == 4 {
      assert LANGUAGES[i] == "kassa" && MENU_NAMES[i] == "Kassa";
      DisplayNameOfPlainCode("kassa", "Kassa");
    } else if i == 5 {
      assert LANGUAGES[i] == "laalaa" && MENU_NAMES[i] == "Laalaa";
      DisplayNameOfPlainCode("laalaa", "Laalaa");
    } else if i == 6 {
      assert LANGUAGES[i] == "mancagne" && MENU_NAMES[i] == "Mancagne";
      DisplayNameOfPlainCode("mancagne", "Mancagne");
    } else if i == 7 {
      assert LANGUAGES[i] == "manjak" && MENU_NAMES[i] == "Manjak";
      DisplayNameOfPlainCode("manjak", "Manjak");
    } else if i == 8 {
      assert LANGUAGES[i] == "ndut" && MENU_NAMES[i] == "Ndut";
      DisplayNameOfPlainCode("ndut", "Ndut");
    } else if i == 9 {
      assert LANGUAGES[i] == "noon" && MENU_NAMES[i] == "Noon";
      DisplayNameOfPlainCode("noon", "Noon");
    } else if i == 10 {
      assert LANGUAGES[i] == "pulaar" && MENU_NAMES[i] == "Pulaar";
      DisplayNameOfPlainCode("pulaar", "Pulaar");
    } else if i == 11 {
      assert LANGUAGES[i] == "saafisaafi" && MENU_NAMES[i] == "Saafi-Saafi";
      ToLowerOfLowercase("saafisaafi");
    } else if i == 12 {
      assert LANGUAGES[i] == "seereersine" && MENU_NAMES[i] == "Seereer Sine";
      ToLowerOfLowercase("seereersine");
    } else {
      assert LANGUAGES[i] == "wolof" && MENU_NAMES[i] == "Wolof";
      DisplayNameOfPlainCode("wolof", "Wolof");
    }
  }

  /** No two menu names are the same. */
  lemma MenuNamesDistinct()
    ensures Distinct(MENU_NAMES)
  {
  }

  /** The fourteen menu buttons carry fourteen different names, each the
      listed name of its code and each starting with a capital letter. */
  lemma DisplayNamesOfLanguages()
    ensures |MENU_NAMES| == |LANGUAGES|
    ensures forall i :: 0 <= i < |LANGUAGES| ==>
              DisplayLanguageName(LANGUAGES[i]) == MENU_NAMES[i] && IsUpper(MENU_NAMES[i][0])
    ensures Distinct(MENU_NAMES)
  {
    forall i | 0 <= i < |LANGUAGES|
      ensures DisplayLanguageName(LANGUAGES[i]) == MENU_NAMES[i] && IsUpper(MENU_NAMES[i][0])
    {
      DisplayNameAt(i);
    }
    MenuNamesDistinct();
  }
}
