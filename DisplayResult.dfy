/*
  The string logic of the Streamlit result page (`DisplayResultStreamlit`): how `_handle_news`
  reads the colon-separated request back and rebuilds the paths of the files the news node wrote,
  how a topic is shown, and which API keys a use case needs.
*/
module DisplayResult {
  import opened Wrappers
  import opened Text
  import opened MessageParser
  import opened AiNewsNode

  // ---------------------------------------------------------------- reading the request back

  /** The three fields `_handle_news` takes from the message. */
  datatype Shown = Shown(frequency: string, topic: string, language: string)

  /**
    `frequency, topic, target_language, *_ = parts + ["general news", "English"]`, then
    `topic = topic or "general news"`: the segments are padded, never stripped, and only an empty
    topic is replaced.
   */
  function ReadMessage(message: string): (r: Shown)
    ensures var parts := Split(message, ':');
      && r.frequency == parts[0]
      && r.topic != []
      && (|parts| == 1 ==> r.topic == DefaultTopic && r.language == DefaultLanguage)
      && (|parts| == 2 ==> r.language == DefaultTopic)
      && (|parts| >= 2 ==> r.topic == (if parts[1] == [] then DefaultTopic else parts[1]))
      && (|parts| >= 3 ==> r.language == parts[2])
  {
    var padded := Split(message, ':') + [DefaultTopic, DefaultLanguage];
    Shown(padded[0], if padded[1] == [] then DefaultTopic else padded[1], padded[2])
  }

  // ---------------------------------------------------------------- the file paths

  /** `lang_suffix`: empty for English, otherwise `_` and the cleaned language. */
  function LangSuffix(language: string): (r: string)
    ensures r == [] <==> IsEnglish(language)
    ensures ' ' !in r && '(' !in r && ')' !in r
  {
    if IsEnglish(language) then "" else "_" + CleanLanguage(language)
  }

  /** `base_filename`: the lower-cased frequency, the cleaned topic and the language suffix. */
  function BaseFilename(frequency: string, topic: string, language: string): string {
    Lower(frequency) + "_" + CleanTopic(topic) + LangSuffix(language) + "_summary"
  }

  /** The markdown and PDF paths the page looks for. */
  datatype NewsFiles = NewsFiles(md: string, pdf: string)

  /** `./News/{base_filename}.md` and `./News/{base_filename}.pdf`. */
  function FilesFor(base: string): NewsFiles {
    NewsFiles(NewsDir + "/" + base + ".md", NewsDir + "/" + base + ".pdf")
  }

  /** The two paths share the `./News/` directory and the base name and differ only in extension. */
  lemma FilesShareBase(base: string)
    ensures var f := FilesFor(base);
      && EndsWith(f.md, ".md") && EndsWith(f.pdf, ".pdf")
      && f.md[..|f.md| - 3] == f.pdf[..|f.pdf| - 4] == "./News/" + base
  {
    var f := FilesFor(base);
    assert f.md == ("./News/" + base) + ".md";
    assert f.pdf == ("./News/" + base) + ".pdf";
  }

  /**
    The base name, in its directory and with `.md`, is the name `save_result` gives the summary
    of the same fields, once the frequency is lower-case.
   */
  lemma {:induction false} BaseIsSavedName(frequency: string, topic: string, language: string)
    requires Lower(frequency) == frequency
    ensures FilesFor(BaseFilename(frequency, topic, language)).md == MarkdownFilename(frequency, topic, language)
  {
    assert BaseFilename(frequency, topic, language) == frequency + "_" + CleanTopic(topic) + LangSuffix(language) + "_summary";
    BaseOfLoweredIsSavedName(frequency, topic, language);
  }

  /** The same, with the lower-casing already done: the name is spelled the same way. */
  lemma BaseOfLoweredIsSavedName(frequency: string, topic: string, language: string)
    ensures FilesFor(frequency + "_" + CleanTopic(topic) + LangSuffix(language) + "_summary").md ==
              MarkdownFilename(frequency, topic, language)
  {
    var stem := NewsDir + "/" + frequency + "_" + CleanTopic(topic);
    if IsEnglish(language) {
      assert FilesFor(frequency + "_" + CleanTopic(topic) + LangSuffix(language) + "_summary").md == stem + "_summary.md";
    } else {
      assert FilesFor(frequency + "_" + CleanTopic(topic) + LangSuffix(language) + "_summary").md ==
               stem + "_" + CleanLanguage(language) + "_summary.md";
    }
  }

  /** The paths `_handle_news` computes, as written: from the unstripped, padded segments. */
  function FilesAsWritten(message: string): NewsFiles {
    var s := ReadMessage(message);
    FilesFor(BaseFilename(s.frequency, s.topic, s.language))
  }

  /** The message has at least three segments and the first three are non-empty and trimmed. */
  predicate TrimmedSegments(message: string) {
    var parts := Split(message, ':');
    |parts| >= 3 && forall i | 0 <= i < 3 :: parts[i] != [] && IsTrimmed(parts[i])
  }

  /**
    When the first three segments are already non-empty and trimmed, the page looks for the very
    file the node saved for the same message.
   */
  lemma AsWrittenAgreesOnTrimmedSegments(message: string)
    requires TrimmedSegments(message)
    ensures var d := DecodeRequest(message);
      FilesAsWritten(message).md == MarkdownFilename(d.frequency, d.topic, d.targetLanguage)
  {
    var parts := Split(message, ':');
    var d := DecodeRequest(message);
    SegmentOfField(parts, 1);
    SegmentOfField(parts, 2);
    assert d.frequency == Lower(parts[0]);
    LowerIdempotent(parts[0]);
    BaseIsSavedName(d.frequency, parts[1], parts[2]);
  }

  /**
    A topic typed with a trailing space (`Daily:sports :English:`, as the sidebar builds it): the
    node saves `daily_sports_summary.md`, but the page looks for `daily_sports__summary.md`.
   */
  lemma AsWrittenMissesUntrimmedTopic()
    ensures var message := "Daily:sports :English:";
      var d := DecodeRequest(message);
      && FilesAsWritten(message).md == "./News/daily_sports__summary.md"
      && MarkdownFilename(d.frequency, d.topic, d.targetLanguage) == "./News/daily_sports_summary.md"
  {
    var message := "Daily:sports :English:";
    var parts := ["Daily", "sports ", "English", ""];
    SidebarMessageSplits();
    DecodeOfSegments(message, parts);
    SidebarPageName(message, parts);
    SidebarSavedName(parts);
  }

  /** The page's name for the segments `Daily`, `sports `, `English`, ``. */
  lemma SidebarPageName(message: string, parts: seq<string>)
    requires Split(message, ':') == parts
    requires |parts| == 4 && parts[0] == "Daily" && parts[1] == "sports " && parts[2] == "English"
    ensures FilesAsWritten(message).md == "./News/daily_sports__summary.md"
  {
    assert ReadMessage(message) == Shown(parts[0], parts[1], parts[2]);
    PageSportsName(parts[0], parts[1], parts[2]);
  }

  /** The page's name for a daily English request on `sports `. */
  lemma PageSportsName(frequency: string, topic: string, language: string)
    requires frequency == "Daily" && topic == "sports " && language == "English"
    ensures FilesFor(BaseFilename(frequency, topic, language)).md == "./News/daily_sports__summary.md"
  {
    EnglishIsEnglish();
    DailyLowered();
    CleanSportsTopics();
    EnglishPageName(frequency, topic, language, "daily", "sports_");
    PagePathSpelled();
  }

  /** The page's path, spelled out. */
  lemma PagePathSpelled()
    ensures "./News/" + "daily" + "_" + "sports_" + "_summary.md" == "./News/daily_sports__summary.md"
  {
  }

  /** The page's markdown path for an English request, from the lowered frequency and cleaned topic. */
  lemma EnglishPageName(frequency: string, topic: string, language: string, lowered: string, cleaned: string)
    requires IsEnglish(language) && Lower(frequency) == lowered && CleanTopic(topic) == cleaned
    ensures FilesFor(BaseFilename(frequency, topic, language)).md == "./News/" + lowered + "_" + cleaned + "_summary.md"
  {
  }

  /** The node's name for the segments `Daily`, `sports `, `English`, ``. */
  lemma SidebarSavedName(parts: seq<string>)
    requires |parts| == 4 && parts[0] == "Daily" && parts[1] == "sports " && parts[2] == "English"
    ensures MarkdownFilename(FrequencyOf(parts[0]), Segment(parts, 1).GetOr(DefaultTopic),
                             Segment(parts, 2).GetOr(DefaultLanguage)) == "./News/daily_sports_summary.md"
  {
    EnglishIsEnglish();
    DailyLowered();
    StripSportsSpace();
    CleanSportsTopics();
    assert FrequencyOf(parts[0]) == "daily";
    assert Segment(parts, 1) == Some("sports");
    assert Segment(parts, 2) == Some("English");
    SavedSportsName("daily", "sports", "English");
  }

  /** `save_result`'s name for a daily English summary on sports. */
  lemma SavedSportsName(frequency: string, topic: string, language: string)
    requires frequency == "daily" && topic == "sports" && language == "English"
    requires IsEnglish(language) && CleanTopic(topic) == topic
    ensures MarkdownFilename(frequency, topic, language) == "./News/daily_sports_summary.md"
  {
    assert MarkdownFilename(frequency, topic, language) == NewsDir + "/" + frequency + "_" + topic + "_summary.md";
  }

  /** Cleaning `sports` keeps it; cleaning `sports ` turns the space into `_`. */
  lemma CleanSportsTopics()
    ensures CleanTopic("sports") == "sports" && CleanTopic("sports ") == "sports_"
  {
    assert CleanTopic("sports ") == "sports_";
    assert CleanTopic("sports") == "sports";
  }

  /** Stripping `sports ` drops its trailing space; the other two segments are already trimmed. */
  lemma StripSportsSpace()
    ensures Strip("sports ") == "sports" && Strip("English") == "English" && Strip("Daily") == "Daily"
  {
    var w := "sports";
    assert IsTrimmed(w);
    StripTrailingSpace(w);
    assert w + " " == "sports ";
    assert IsTrimmed("English") && IsTrimmed("Daily");
  }

  /** The sidebar's message splits into its four segments. */
  lemma SidebarMessageSplits()
    ensures Split("Daily:sports :English:", ':') == ["Daily", "sports ", "English", ""]
  {
    var parts := ["Daily", "sports ", "English", ""];
    assert Join(parts, ':') == "Daily:sports :English:" by {
      assert Join(parts[3..], ':') == "";
      assert Join(parts[2..], ':') == "English:";
      assert Join(parts[1..], ':') == "sports :English:";
    }
    SplitJoin(parts, ':');
  }

  /** `English` is English. */
  lemma EnglishIsEnglish()
    ensures IsEnglish("English")
  {
    assert Lower("English") == "english";
  }

  /** `Daily` lower-cased. */
  lemma DailyLowered()
    ensures Lower("Daily") == "daily" && Lower("daily") == "daily"
  {
  }

  /**
    The paths the page should look for: its own base name, but built from the fields as
    `fetch_news` decodes them (each segment stripped, a blank one replaced by its default).
   */
  function Files(message: string): NewsFiles {
    var d := DecodeRequest(message);
    FilesFor(BaseFilename(d.frequency, d.topic, d.targetLanguage))
  }

  /** For every message, the page looks for exactly the markdown file the node saved. */
  lemma FilesMatchSaved(message: string)
    ensures var d := DecodeRequest(message);
      Files(message).md == MarkdownFilename(d.frequency, d.topic, d.targetLanguage)
  {
    var parts := Split(message, ':');
    var d := DecodeRequest(message);
    assert d.frequency == Lower(Strip(parts[0]));
    LowerIdempotent(Strip(parts[0]));
    BaseIsSavedName(d.frequency, d.topic, d.targetLanguage);
  }

  /**
    A message from the chat box is the parser's `frequency:topic:language`; its segments are
    trimmed and non-empty, so even the page as written finds the file the node saved.
   */
  lemma ParsedMessageFilesAgree(message: string)
    ensures var p := ParseNewsMessage(message);
      FilesAsWritten(p.formattedMessage).md == MarkdownFilename(p.frequency, p.topic, p.language)
  {
    var p := ParseNewsMessage(message);
    FrequencyNamesAreLowerFields(p.frequency);
    SupportedIsField(p.language);
    FormattedFilesAgree(p.frequency, p.topic, p.language);
  }

  /** The page as written reads `frequency:topic:language` back to its fields when they are fields. */
  lemma FormattedFilesAgree(frequency: string, topic: string, language: string)
    requires Lower(frequency) == frequency && ':' !in frequency
    requires IsField(topic) && IsField(language)
    ensures FilesAsWritten(FormatMessage(frequency, topic, language)).md == MarkdownFilename(frequency, topic, language)
  {
    BaseIsSavedName(frequency, topic, language);
  }

  /**
    `_handle_news`: the message runs through the node's six steps in the graph's order (fetch,
    summarize, translate, save, PDF, email). If the email step raises, the page reports the error
    instead of looking for the files (`raised`, and nothing `found`). Otherwise it derives the
    paths it looks for from the unstripped, padded segments; `found` is whether the markdown path
    is the file the node wrote. It is whenever the first three segments are trimmed, and can fail
    otherwise (`AsWrittenMissesUntrimmedTopic`).
   */
  method HandleNews(node: NewsNode, message: string, search: (string, nat) -> seq<Article>, llm: string -> string,
                    translate: (string, string) -> string, convert: string -> string, deliver: Email -> bool)
    returns (files: NewsFiles, found: bool, raised: bool)
    requires node.Valid()
    modifies node
    ensures node.Valid()
    ensures var d := DecodeRequest(message);
      MdFilename in node.state && node.state[MdFilename] == Str(MarkdownFilename(d.frequency, d.topic, d.targetLanguage))
    ensures files == FilesAsWritten(message)
    ensures raised ==> !found
    ensures var d := DecodeRequest(message);
      !raised ==> (found <==> files.md == MarkdownFilename(d.frequency, d.topic, d.targetLanguage))
    ensures TrimmedSegments(message) && !raised ==> found
  {
    var written;
    written, raised := RunGraph(node, message, search, llm, translate, convert, deliver);
    files := FilesAsWritten(message);
    found := !raised && files.md == written;
    if TrimmedSegments(message) {
      AsWrittenAgreesOnTrimmedSegments(message);
    }
  }

  /**
    `_handle_news` with the paths derived as the node decodes the message (`Files`): unless the
    email step raises, the page then finds the file the node wrote for every message.
   */
  method HandleNewsCorrected(node: NewsNode, message: string, search: (string, nat) -> seq<Article>,
                             llm: string -> string, translate: (string, string) -> string, convert: string -> string,
                             deliver: Email -> bool)
    returns (files: NewsFiles, found: bool, raised: bool)
    requires node.Valid()
    modifies node
    ensures node.Valid()
    ensures files == Files(message)
    ensures MdFilename in node.state && node.state[MdFilename] == Str(files.md)
    ensures found <==> !raised
  {
    var written;
    written, raised := RunGraph(node, message, search, llm, translate, convert, deliver);
    files := Files(message);
    FilesMatchSaved(message);
    found := !raised && files.md == written;
  }

  /**
    `graph.invoke` on the message: `fetch_news` decodes it and the remaining steps write the
    summary under the name of the decoded frequency, topic and language, which stays recorded;
    `raised` is whether the email step raised.
   */
  method RunGraph(node: NewsNode, message: string, search: (string, nat) -> seq<Article>, llm: string -> string,
                  translate: (string, string) -> string, convert: string -> string, deliver: Email -> bool)
    returns (written: string, raised: bool)
    requires node.Valid()
    modifies node
    ensures node.Valid()
    ensures var d := DecodeRequest(message); written == MarkdownFilename(d.frequency, d.topic, d.targetLanguage)
    ensures MdFilename in node.state && node.state[MdFilename] == Str(written)
  {
    ghost var before := node.state;
    var query, days := node.FetchNews(message, search);
    ghost var d := DecodeRequest(message);
    ghost var email := if d.recipientEmail.Some? then Str(d.recipientEmail.value) else NoValue;
    assert node.state == Fetched(before, d, email, Results(search(query, days)));
    FetchedFields(before, d, email, Results(search(query, days)));
    written, raised := AfterFetch(node, llm, translate, convert, deliver);
  }

  /** The state `fetch_news` leaves behind for the request `d`. */
  function Fetched(before: map<Key, Value>, d: NewsRequest, email: Value, results: Value): map<Key, Value> {
    before[Frequency := Str(d.frequency)][Topic := Str(d.topic)][TargetLanguage := Str(d.targetLanguage)]
          [RecipientEmail := email][NewsData := results]
  }

  /** After `fetch_news` the state holds the request's frequency, topic and language, and the news. */
  lemma FetchedFields(before: map<Key, Value>, d: NewsRequest, email: Value, results: Value)
    ensures var m := Fetched(before, d, email, results);
      && Frequency in m && Topic in m && TargetLanguage in m && NewsData in m
      && m[Frequency] == Str(d.frequency) && m[Topic] == Str(d.topic) && m[TargetLanguage] == Str(d.targetLanguage)
  {
  }

  /**
    The graph's steps after `fetch_news`: the markdown file written is named after the fetched
    frequency, topic and language, and its name is still recorded when the last step is done.
   */
  method AfterFetch(node: NewsNode, llm: string -> string, translate: (string, string) -> string, convert: string -> string,
                    deliver: Email -> bool)
    returns (written: string, raised: bool)
    requires node.Valid() && Frequency in node.state && Topic in node.state && NewsData in node.state
    modifies node
    ensures node.Valid()
    ensures written == MarkdownFilename(old(node.state)[Frequency].text, old(node.state)[Topic].text,
                                        old(node.TextOr(TargetLanguage, "English")))
    ensures MdFilename in node.state && node.state[MdFilename] == Str(written)
  {
    var prompt := node.SummarizeNews(llm);
    var asked := node.TranslateNews(translate);
    var contents;
    written, contents := node.SaveResult();
    node.ConvertToPdf(convert);
    var sent;
    sent, raised := node.SendEmail(deliver);
  }

  // ---------------------------------------------------------------- showing a topic

  /** `_format_news_topic`: `General News` for the default topic in any case, else `topic.title()`. */
  function FormatNewsTopic(topic: string): (r: string)
    ensures |r| == |topic|
  {
    if Lower(topic) == "general news" then "General News" else Title(topic)
  }

  /** The special case agrees with `title()`: the topic is always shown title-cased. */
  lemma FormatNewsTopicIsTitle(topic: string)
    ensures FormatNewsTopic(topic) == Title(topic)
  {
    if Lower(topic) == "general news" {
      TitleIgnoresCase(topic);
      TitleOfDefaultTopic();
    }
  }

  /** `"general news".title()` is `General News`. */
  lemma TitleOfDefaultTopic()
    ensures Title("general news") == "General News"
  {
    var t := Title("general news");
    assert t[0] == 'G' && t[1] == 'e' && t[2] == 'n' && t[3] == 'e' && t[4] == 'r' && t[5] == 'a';
    assert t[6] == 'l' && t[7] == ' ' && t[8] == 'N' && t[9] == 'e' && t[10] == 'w' && t[11] == 's';
  }

  // ---------------------------------------------------------------- API keys

  /** `os.getenv(name)` is truthy: the variable is set and not empty. */
  predicate IsSet(env: map<string, string>, name: string) {
    name in env && env[name] != ""
  }

  /** The use cases that search the web and so need a Tavily key. */
  const WebUseCases: seq<string> := ["Chatbot With Web", "News"]

  /**
    `_validate_api_keys`: the Groq key is always required, the Tavily key only for the web use
    cases; `missing` lists, in the order the page reports them, the keys that are not set.
   */
  method ValidateApiKeys(env: map<string, string>, usecase: string) returns (isValid: bool, missing: seq<string>)
    ensures isValid <==> IsSet(env, "GROQ_API_KEY") && (usecase in WebUseCases ==> IsSet(env, "TAVILY_API_KEY"))
    ensures isValid <==> missing == []
    ensures forall k | k in missing :: !IsSet(env, k)
    ensures !IsSet(env, "GROQ_API_KEY") ==> |missing| > 0 && missing[0] == "GROQ_API_KEY"
    ensures "GROQ_API_KEY" in missing <==> !IsSet(env, "GROQ_API_KEY")
    ensures "TAVILY_API_KEY" in missing <==> usecase in WebUseCases && !IsSet(env, "TAVILY_API_KEY")
    ensures forall k | k in missing :: k == "GROQ_API_KEY" || k == "TAVILY_API_KEY"
  {
    isValid := true;
    missing := [];
    if !IsSet(env, "GROQ_API_KEY") {
      missing := missing + ["GROQ_API_KEY"];
      isValid := false;
    }
    if usecase in WebUseCases {
      if !IsSet(env, "TAVILY_API_KEY") {
        missing := missing + ["TAVILY_API_KEY"];
        isValid := false;
      }
    }
  }
}
