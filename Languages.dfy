/**
  The language registry `SUPPORTED_LANGUAGES`: an ordered table from a language code to its display
  name. The parser scans it in insertion order (so the first entry that matches wins), the sidebar
  offers its codes, and the structured news route accepts only its codes.
 */
module Languages {
  import opened Text

  datatype Language = Language(code: string, displayName: string)

  const SupportedLanguages: seq<Language> := [
    Language("English", "English"),
    Language("Hindi", "Hindi (हिंदी)"),
    Language("Spanish", "Spanish (Español)"),
    Language("French", "French (Français)"),
    Language("German", "German (Deutsch)"),
    Language("Italian", "Italian (Italiano)"),
    Language("Portuguese", "Portuguese (Português)"),
    Language("Russian", "Russian (Русский)"),
    Language("Japanese", "Japanese (日本語)"),
    Language("Korean", "Korean (한국어)"),
    Language("Chinese", "Chinese (中文)"),
    Language("Arabic", "Arabic (العربية)"),
    Language("Bengali", "Bengali (বাংলা)"),
    Language("Tamil", "Tamil (தமிழ்)"),
    Language("Telugu", "Telugu (తెలుగు)"),
    Language("Marathi", "Marathi (मराठी)"),
    Language("Gujarati", "Gujarati (ગુજરાતી)"),
    Language("Punjabi", "Punjabi (ਪੰਜਾਬੀ)"),
    Language("Urdu", "Urdu (اردو)"),
    Language("Malayalam", "Malayalam (മലയാളം)"),
    Language("Kannada", "Kannada (ಕನ್ನಡ)"),
    Language("Dutch", "Dutch (Nederlands)"),
    Language("Swedish", "Swedish (Svenska)"),
    Language("Norwegian", "Norwegian (Norsk)"),
    Language("Thai", "Thai (ไทย)"),
    Language("Vietnamese", "Vietnamese (Tiếng Việt)")
  ]

  /** `code in SUPPORTED_LANGUAGES`. */
  predicate IsSupported(code: string) {
    exists k | 0 <= k < |SupportedLanguages| :: SupportedLanguages[k].code == code
  }

  /** A code made of ASCII letters only. */
  predicate IsPlainWord(s: string) {
    |s| > 0 && forall i | 0 <= i < |s| :: IsAsciiLetter(s[i])
  }

  /**
    The shape every entry has: a plain-word code, and a display name that starts with the code and
    is either the code itself or goes on with a space and a parenthesised native name.
   */
  predicate WellFormedEntry(e: Language) {
    && IsPlainWord(e.code)
    && |e.code| <= |e.displayName| && e.displayName[..|e.code|] == e.code
    && (|| |e.displayName| == |e.code|
        || (|e.displayName| > |e.code| + 1 && e.displayName[|e.code|] == ' ' && e.displayName[|e.code| + 1] == '('))
  }

  /** The display name's text before its first `(`, stripped: `name.split('(')[0].strip()`. */
  function NameBeforeParenthesis(displayName: string): string {
    Strip(Split(displayName, '(')[0])
  }

  /** 26 entries, English first and displayed as itself, no code listed twice. */
  lemma TableShape()
    ensures |SupportedLanguages| == 26
    ensures SupportedLanguages[0] == Language("English", "English")
    ensures forall i, j | 0 <= i < j < |SupportedLanguages| ::
              SupportedLanguages[i].code != SupportedLanguages[j].code
  {
  }

  /** Every entry of the table is well formed (checked four entries at a time). */
  lemma EntriesWellFormed()
    ensures forall k | 0 <= k < |SupportedLanguages| :: WellFormedEntry(SupportedLanguages[k])
  {
    EntriesWellFormed0to3();
    EntriesWellFormed4to7();
    EntriesWellFormed8to11();
    EntriesWellFormed12to15();
    EntriesWellFormed16to19();
    EntriesWellFormed20to23();
    EntriesWellFormed24to25();
  }

  lemma EntriesWellFormed0to3()
    ensures forall k | 0 <= k < 4 :: WellFormedEntry(SupportedLanguages[k])
  {
  }

  lemma EntriesWellFormed4to7()
    ensures forall k | 4 <= k < 8 :: WellFormedEntry(SupportedLanguages[k])
  {
  }

  lemma EntriesWellFormed8to11()
    ensures forall k | 8 <= k < 12 :: WellFormedEntry(SupportedLanguages[k])
  {
  }

  lemma EntriesWellFormed12to15()
    ensures forall k | 12 <= k < 16 :: WellFormedEntry(SupportedLanguages[k])
  {
  }

  lemma EntriesWellFormed16to19()
    ensures forall k | 16 <= k < 20 :: WellFormedEntry(SupportedLanguages[k])
  {
  }

  lemma EntriesWellFormed20to23()
    ensures forall k | 20 <= k < 24 :: WellFormedEntry(SupportedLanguages[k])
  {
  }

  lemma EntriesWellFormed24to25()
    ensures forall k | 24 <= k < 26 :: WellFormedEntry(SupportedLanguages[k])
  {
  }

  /** A plain-word code contains no colon, space or parenthesis. */
  lemma PlainWordHasNoPunctuation(s: string)
    requires IsPlainWord(s)
    ensures ':' !in s && ' ' !in s && '(' !in s && ')' !in s && '/' !in s && '_' !in s
    ensures IsTrimmed(s) && s != ""
  {
    forall c | c in s ensures IsAsciiLetter(c) {
      var i :| 0 <= i < |s| && s[i] == c;
    }
  }

  /** No code of the table contains `:`, a space or a parenthesis, and none is empty or padded. */
  lemma CodesArePlainWords(k: nat)
    requires k < |SupportedLanguages|
    ensures var c := SupportedLanguages[k].code;
      ':' !in c && ' ' !in c && '(' !in c && ')' !in c && IsTrimmed(c) && c != ""
  {
    EntriesWellFormed();
    PlainWordHasNoPunctuation(SupportedLanguages[k].code);
  }

  /** In a well-formed entry the text before `(`, stripped, is the code. */
  lemma NameBeforeParenthesisOfEntry(e: Language)
    requires WellFormedEntry(e)
    ensures NameBeforeParenthesis(e.displayName) == e.code
  {
    PlainWordHasNoPunctuation(e.code);
    if |e.displayName| == |e.code| {
      assert e.displayName == e.code;
      SplitNoSeparator(e.code, '(');
    } else {
      var rest := e.displayName[|e.code| + 2..];
      var padded := e.code + " ";
      assert e.displayName == padded + ['('] + rest;
      assert '(' !in padded;
      SplitAtFirst(padded, '(', rest);
      assert TrimStart(padded) == padded;
      assert padded[..|padded| - 1] == e.code;
      assert TrimEnd(padded) == e.code;
    }
  }

  /** For every entry of the table, the display name's text before `(`, stripped, equals the key. */
  lemma NameBeforeParenthesisIsCode(k: nat)
    requires k < |SupportedLanguages|
    ensures NameBeforeParenthesis(SupportedLanguages[k].displayName) == SupportedLanguages[k].code
  {
    EntriesWellFormed();
    NameBeforeParenthesisOfEntry(SupportedLanguages[k]);
  }

  /** Every display name starts with its code. */
  lemma DisplayNameStartsWithCode(k: nat)
    requires k < |SupportedLanguages|
    ensures var e := SupportedLanguages[k];
      |e.code| <= |e.displayName| && e.displayName[..|e.code|] == e.code
  {
    EntriesWellFormed();
  }
}
