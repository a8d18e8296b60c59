/**
  The news pipeline node `NewsNode`: it decodes the colon message
  `frequency:topic:language:email`, asks the search service for recent articles, has them
  summarised and translated, names and writes the markdown file, and mails the PDF.

  Every pipeline step writes keys into the node's own `state` dictionary in place. The search
  service, the language model, the translator, the PDF converter and the mail server are
  parameters of the steps that call them; what the steps send to them and what they keep in
  `state` is what is modelled.
 */
module AiNewsNode {
  import opened Wrappers
  import opened Text
  import opened Languages
  import opened MessageParser

  // ---------------------------------------------------------------- values

  /** One search result, as the summariser reads it (`item.get('content', '')`, `item.get('url', '')`). */
  datatype Article = Article(content: string, url: string)

  /** A value of the `state` dictionary: a string, `None`, `True`/`False`, or the list of search results. */
  datatype Value = Str(text: string) | NoValue | Flag(on: bool) | Results(items: seq<Article>)

  /** Python truthiness of a state value. */
  predicate Truthy(v: Value) {
    match v
    case Str(s) => s != []
    case NoValue => false
    case Flag(b) => b
    case Results(xs) => xs != []
  }

  /** The request `fetch_news` reads out of the colon message. */
  datatype NewsRequest = NewsRequest(frequency: string, topic: string, targetLanguage: string, recipientEmail: Option<string>)

  /** A field the colon format carries unchanged: non-empty, trimmed and free of `:`. */
  predicate IsField(s: string) {
    s != [] && IsTrimmed(s) && ':' !in s
  }

  // ---------------------------------------------------------------- decoding the message

  /**
    `parts[i].strip()` when that segment exists and is not blank: the caller's default is taken
    exactly when the segment is missing or all whitespace.
   */
  function Segment(parts: seq<string>, i: nat): (r: Option<string>)
    ensures r.None? <==> i >= |parts| || AllSpace(parts[i])
    ensures r.Some? ==> r.value == Strip(parts[i])
    ensures r.Some? ==> i < |parts| && r.value != [] && IsTrimmed(r.value)
    ensures r.Some? ==> forall c | c in r.value :: c in parts[i]
  {
    if i < |parts| then StripEmptyIffAllSpace(parts[i]); (if Strip(parts[i]) != [] then Some(Strip(parts[i])) else None)
    else None
  }

  /** The defaults for a missing topic and a missing language are fields of the colon format. */
  lemma DefaultsAreFields()
    ensures IsField(DefaultTopic) && IsField(DefaultLanguage)
  {
    assert DefaultTopic == "general news";
    assert DefaultLanguage == "English";
  }

  /**
    `parts[0].strip().lower()`: the segment stripped, then lower-cased, so no upper-case letter is
    left, and no `:` unless the segment has one.
   */
  function FrequencyOf(segment: string): (r: string)
    ensures r == Lower(Strip(segment))
    ensures forall i | 0 <= i < |r| :: !IsUpperAscii(r[i])
    ensures ':' !in segment ==> ':' !in r
  {
    var stripped := Strip(segment);
    if ':' in segment then Lower(stripped)
    else LowerAddsNoNonLetter(stripped, ':'); Lower(stripped)
  }

  /**
    The decoding in `fetch_news`: the message is split on `:`; the frequency is the first segment
    stripped and lower-cased; topic, language and email are the next three segments stripped, or
    `general news`, `English` and no email when the segment is missing or blank. Later segments are
    ignored. Whatever the message, the frequency has no upper-case letter and no `:`, and the topic,
    the language and the email (when there is one) are non-empty, trimmed and free of `:`.
   */
  function DecodeRequest(message: string): (r: NewsRequest)
    ensures var parts := Split(message, ':');
      && r.frequency == Lower(Strip(parts[0]))
      && r.topic == (if |parts| <= 1 || AllSpace(parts[1]) then DefaultTopic else Strip(parts[1]))
      && r.targetLanguage == (if |parts| <= 2 || AllSpace(parts[2]) then DefaultLanguage else Strip(parts[2]))
      && (r.recipientEmail.None? <==> |parts| <= 3 || AllSpace(parts[3]))
      && (r.recipientEmail.Some? ==> r.recipientEmail.value == Strip(parts[3]))
    ensures ':' !in r.frequency && (forall i | 0 <= i < |r.frequency| :: !IsUpperAscii(r.frequency[i]))
    ensures IsField(r.topic) && IsField(r.targetLanguage)
    ensures r.recipientEmail.Some? ==> IsField(r.recipientEmail.value)
  {
    var parts := Split(message, ':');
    DefaultsAreFields();
    SegmentIsField(parts, 1);
    SegmentIsField(parts, 2);
    SegmentIsField(parts, 3);
    NewsRequest(FrequencyOf(parts[0]), Segment(parts, 1).GetOr(DefaultTopic), Segment(parts, 2).GetOr(DefaultLanguage),
                Segment(parts, 3))
  }

  /** A segment of a split on `:` that is kept is a field of the colon format. */
  lemma SegmentIsField(parts: seq<string>, i: nat)
    requires forall k | 0 <= k < |parts| :: ':' !in parts[k]
    ensures Segment(parts, i).Some? ==> IsField(Segment(parts, i).value)
  {
    if Segment(parts, i).Some? {
      assert ':' !in parts[i];
    }
  }

  /**
    The message the API route hands to the pipeline:
    `f"{frequency}:{topic}:{language}:{recipient_email or ''}"`.
   */
  function EncodeRequest(frequency: string, topic: string, language: string, email: Option<string>): (r: string)
    ensures ':' !in frequency && ':' !in topic && ':' !in language && ':' !in email.GetOr("") ==>
              Split(r, ':') == [frequency, topic, language, email.GetOr("")]
  {
    var e := email.GetOr("");
    var r := frequency + ":" + topic + ":" + language + ":" + e;
    if ':' !in frequency && ':' !in topic && ':' !in language && ':' !in e then
      var parts := [frequency, topic, language, e];
      assert Join(parts, ':') == r by {
        assert Join(parts[3..], ':') == e;
        assert Join(parts[2..], ':') == language + ":" + e;
        assert Join(parts[1..], ':') == topic + ":" + language + ":" + e;
      }
      SplitJoin(parts, ':');
      r
    else r
  }

  /**
    Decoding what the API route encodes gives the frequency stripped and lower-cased, the topic and
    the language unchanged, and the email unless it is missing or empty.
   */
  lemma {:induction false} DecodeEncode(frequency: string, topic: string, language: string, email: Option<string>)
    requires ':' !in frequency && IsField(topic) && IsField(language)
    requires email.Some? ==> ':' !in email.value && IsTrimmed(email.value)
    ensures DecodeRequest(EncodeRequest(frequency, topic, language, email)) ==
              NewsRequest(FrequencyOf(frequency), topic, language, if email.GetOr("") == "" then None else email)
  {
    var e := email.GetOr("");
    var parts := [frequency, topic, language, e];
    DecodeOfSegments(EncodeRequest(frequency, topic, language, email), parts);
    SegmentOfField(parts, 1);
    SegmentOfField(parts, 2);
    if e != "" {
      SegmentOfField(parts, 3);
    }
  }

  /** The decoding reads the pieces of the split in order. */
  lemma DecodeOfSegments(message: string, parts: seq<string>)
    requires Split(message, ':') == parts
    ensures DecodeRequest(message) ==
              NewsRequest(FrequencyOf(parts[0]), Segment(parts, 1).GetOr(DefaultTopic),
                          Segment(parts, 2).GetOr(DefaultLanguage), Segment(parts, 3))
  {
  }

  /** A segment that is already a field is kept as it is. */
  lemma SegmentOfField(parts: seq<string>, i: nat)
    requires i < |parts| && parts[i] != [] && IsTrimmed(parts[i])
    ensures Segment(parts, i) == Some(parts[i])
  {
  }

  /** The wire string the parser formats decodes to the parser's own three fields, with no email. */
  lemma ParsedMessageDecodes(message: string)
    ensures var p := ParseNewsMessage(message);
      DecodeRequest(p.formattedMessage) == NewsRequest(p.frequency, p.topic, p.language, None)
  {
    var p := ParseNewsMessage(message);
    FrequencyNamesAreLowerFields(p.frequency);
    SupportedIsField(p.language);
    FormattedMessageDecodes(p.frequency, p.topic, p.language);
  }

  /**
    `frequency:topic:language` decodes to its three fields when the frequency is already decoded
    and topic and language are fields of the format.
   */
  lemma FormattedMessageDecodes(frequency: string, topic: string, language: string)
    requires ':' !in frequency && FrequencyOf(frequency) == frequency
    requires IsField(topic) && IsField(language)
    ensures DecodeRequest(FormatMessage(frequency, topic, language)) == NewsRequest(frequency, topic, language, None)
  {
    var parts := [frequency, topic, language];
    DecodeOfSegments(FormatMessage(frequency, topic, language), parts);
    SegmentOfField(parts, 1);
    SegmentOfField(parts, 2);
  }

  /** A code of the table is a field of the colon format. */
  lemma SupportedIsField(l: string)
    requires IsSupported(l)
    ensures IsField(l)
  {
    var k :| 0 <= k < |SupportedLanguages| && SupportedLanguages[k].code == l;
    CodesArePlainWords(k);
  }

  /** The four frequency names are lower-case, trimmed and free of `:`. */
  lemma FrequencyNamesAreLowerFields(f: string)
    requires IsFrequencyName(f)
    ensures IsField(f) && Lower(f) == f && FrequencyOf(f) == f
  {
    assert IsTrimmed(f);
    assert Lower(f) == f;
  }

  // ---------------------------------------------------------------- the search request

  /** `days_map`: the look-back window of the search for each frequency. */
  const DaysMap: map<string, nat> := map["daily" := 1, "weekly" := 7, "monthly" := 30, "yearly" := 366]

  /** `days_map.get(frequency, 1)`: at least a day, at most 366, and more than a day only for a bucket name. */
  function SearchDays(frequency: string): (d: nat)
    ensures 1 <= d <= 366
    ensures d > 1 ==> IsFrequencyName(frequency)
  {
    if frequency in DaysMap then DaysMap[frequency] else 1
  }

  /** `f"Top latest {topic} news India and globally"`: the topic, whole, right after `Top latest `. */
  function SearchQuery(topic: string): (q: string)
    ensures OccursAt(q, "Top latest ", 0) && OccursAt(q, topic, 11)
  {
    "Top latest " + topic + " news India and globally"
  }

  /**
    The look-back is one day for daily, a week for weekly, thirty days for monthly and 366 days for
    yearly; any other frequency string searches one day back.
   */
  lemma SearchDaysByFrequency(frequency: string)
    ensures frequency == "daily" ==> SearchDays(frequency) == 1
    ensures frequency == "weekly" ==> SearchDays(frequency) == 7
    ensures frequency == "monthly" ==> SearchDays(frequency) == 30
    ensures frequency == "yearly" ==> SearchDays(frequency) == 366
    ensures !IsFrequencyName(frequency) ==> SearchDays(frequency) == 1
    ensures frequency in DaysMap <==> IsFrequencyName(frequency)
  {
  }

  // ---------------------------------------------------------------- naming the summary file

  /** `target_language.lower() == 'english'`. */
  predicate IsEnglish(language: string) {
    Lower(language) == "english"
  }

  /** `topic.replace(' ', '_').replace('/', '_')`. */
  function CleanTopic(topic: string): (r: string)
    ensures |r| == |topic|
    ensures ' ' !in r && '/' !in r
    ensures forall i | 0 <= i < |topic| :: topic[i] != ' ' && topic[i] != '/' ==> r[i] == topic[i]
  {
    ReplaceChar(ReplaceChar(topic, ' ', '_'), '/', '_')
  }

  /** `language.replace(' ', '_').replace('(', '').replace(')', '')`. */
  function CleanLanguage(language: string): (r: string)
    ensures ' ' !in r && '(' !in r && ')' !in r
    ensures ' ' !in language && '(' !in language && ')' !in language ==> r == language
  {
    var underscored := ReplaceChar(language, ' ', '_');
    assert ' ' !in language ==> underscored == language;
    RemoveChar(RemoveChar(underscored, '('), ')')
  }

  /** The directory every summary is written to. */
  const NewsDir: string := "./News"

  /**
    The markdown file name `save_result` writes: `./News/{frequency}_{topic_clean}_summary.md`
    for English, and with `_{language_clean}` before `_summary.md` for any other language.
   */
  function MarkdownFilename(frequency: string, topic: string, language: string): string {
    if IsEnglish(language) then NewsDir + "/" + frequency + "_" + CleanTopic(topic) + "_summary.md"
    else NewsDir + "/" + frequency + "_" + CleanTopic(topic) + "_" + CleanLanguage(language) + "_summary.md"
  }

  /** The heading written above the summary; it names the language only when that is not English. */
  function SummaryHeader(frequency: string, topic: string, language: string): string {
    "# " + Capitalize(frequency) + " " + Title(CleanTopic(topic)) + " News Summary"
    + (if IsEnglish(language) then "" else " (" + language + ")") + "\n\n"
  }

  /**
    The file name is the directory, the frequency and the cleaned topic, then the cleaned language
    exactly when the language is not English, then `_summary.md`; the cleaned topic has no space
    and no `/`, and the header names the language exactly when it is not English.
   */
  lemma FilenameShape(frequency: string, topic: string, language: string)
    ensures var name := MarkdownFilename(frequency, topic, language);
      var stem := "./News/" + frequency + "_" + CleanTopic(topic);
      && |stem| <= |name| && name[..|stem|] == stem
      && (IsEnglish(language) <==> name[|stem|..] == "_summary.md")
      && (!IsEnglish(language) ==> name[|stem|..] == "_" + CleanLanguage(language) + "_summary.md")
    ensures ' ' !in CleanTopic(topic) && '/' !in CleanTopic(topic)
    ensures IsEnglish(language) <==> !EndsWith(SummaryHeader(frequency, topic, language), " (" + language + ")\n\n")
  {
    var name := MarkdownFilename(frequency, topic, language);
    var stem := "./News/" + frequency + "_" + CleanTopic(topic);
    var tail := "_" + CleanLanguage(language) + "_summary.md";
    if !IsEnglish(language) {
      assert name == stem + tail;
      assert |tail| > |"_summary.md"|;
    } else {
      assert name == stem + "_summary.md";
    }
    HeaderNamesLanguage(frequency, topic, language);
  }

  /** `s` ends with `w`. */
  predicate EndsWith(s: string, w: string) {
    |w| <= |s| && s[|s| - |w|..] == w
  }

  /** The header ends with the parenthesised language exactly when that is not English. */
  lemma HeaderNamesLanguage(frequency: string, topic: string, language: string)
    ensures IsEnglish(language) <==> !EndsWith(SummaryHeader(frequency, topic, language), " (" + language + ")\n\n")
  {
    var h := SummaryHeader(frequency, topic, language);
    var start := "# " + Capitalize(frequency) + " " + Title(CleanTopic(topic)) + " News Summary";
    var w := " (" + language + ")\n\n";
    if IsEnglish(language) {
      assert h == start + "\n\n";
      assert h[|h| - 3] == 'y' && w[|w| - 3] == ')';
    } else {
      assert h == start + w;
    }
  }

  /** Every code of the table comes out of the language cleaning unchanged. */
  lemma CodesSurviveCleaning(k: nat)
    requires k < |SupportedLanguages|
    ensures CleanLanguage(SupportedLanguages[k].code) == SupportedLanguages[k].code
  {
    CodesArePlainWords(k);
  }

  /**
    For a language of the table other than English, the file name carries the code itself:
    `./News/{frequency}_{topic_clean}_{code}_summary.md`.
   */
  lemma FilenameCarriesCode(frequency: string, topic: string, k: nat)
    requires k < |SupportedLanguages|
    requires !IsEnglish(SupportedLanguages[k].code)
    ensures MarkdownFilename(frequency, topic, SupportedLanguages[k].code) ==
              "./News/" + frequency + "_" + CleanTopic(topic) + "_" + SupportedLanguages[k].code + "_summary.md"
  {
    var code := SupportedLanguages[k].code;
    CodesSurviveCleaning(k);
    FilenameOfCleanCode(frequency, topic, code);
  }

  /** A language other than English that cleaning leaves alone appears in the file name as it is. */
  lemma FilenameOfCleanCode(frequency: string, topic: string, code: string)
    requires !IsEnglish(code) && CleanLanguage(code) == code
    ensures MarkdownFilename(frequency, topic, code) ==
              "./News/" + frequency + "_" + CleanTopic(topic) + "_" + code + "_summary.md"
  {
  }

  // ---------------------------------------------------------------- the summariser's input

  /** `f"Content: {item.get('content', '')}\nURL: {item.get('url', '')}"`. */
  function ArticleText(a: Article): string {
    "Content: " + a.content + "\nURL: " + a.url
  }

  /** `"\n\n".join(...)` over the articles: empty exactly when there are none, and holding every article's block. */
  function ArticlesText(items: seq<Article>): (r: string)
    ensures r == [] <==> items == []
    ensures forall i | 0 <= i < |items| :: Contains(r, ArticleText(items[i]))
    decreases |items|
  {
    if |items| == 0 then ""
    else if |items| == 1 then
      ContainsInConcat(ArticleText(items[0]), "", "");
      assert ArticleText(items[0]) + "" == ArticleText(items[0]);
      ArticleText(items[0])
    else
      var head := ArticleText(items[0]);
      var rest := ArticlesText(items[1..]);
      assert head + "\n\n" + rest == head + ("\n\n" + rest);
      ContainsInConcat(head, "\n\n" + rest, "");
      forall i | 1 <= i < |items|
        ensures Contains(head + ("\n\n" + rest), ArticleText(items[i]))
      {
        assert items[i] == items[1..][i - 1];
        ContainsInConcat("\n\n", rest, ArticleText(items[i]));
        ContainsInConcat(head, "\n\n" + rest, ArticleText(items[i]));
      }
      head + "\n\n" + rest
  }

  /**
    The keys the steps store in `state`: `frequency`, `topic`, `target_language`,
    `recipient_email`, `news_data`, `summary`, `translated_summary`, `md_filename`,
    `pdf_filename` and `email_sent`.
   */
  datatype Key =
    | Frequency | Topic | TargetLanguage | RecipientEmail | NewsData
    | Summary | TranslatedSummary | MdFilename | PdfFilename | EmailSent

  /** The kind of value each step stores under `key`. */
  predicate Fits(key: Key, v: Value) {
    match key
    case RecipientEmail => v.Str? || v.NoValue?
    case NewsData => v.Results?
    case EmailSent => v.Flag?
    case _ => v.Str?
  }

  /** The message `send_email` mails. */
  datatype Email = Email(recipient: string, subject: string, body: string, attachment: string)

  // ---------------------------------------------------------------- the node

  class NewsNode {
    /** The node's own state dictionary, filled in step by step. */
    var state: map<Key, Value>

    /** The text stored under `key`, or `default` when there is none: `self.state.get(key, default)`. */
    function TextOr(key: Key, default: string): string
      reads this
    {
      if key in state && state[key].Str? then state[key].text else default
    }

    /** Every key the steps store holds the kind of value they store there. */
    predicate Valid()
      reads this
    {
      forall key | key in state :: Fits(key, state[key])
    }

    /** A node starts with an empty state. */
    constructor ()
      ensures state == map[]
      ensures Valid()
    {
      state := map[];
    }

    /** `self.state[key] = v`. */
    method Put(key: Key, v: Value)
      requires Valid() && Fits(key, v)
      modifies this
      ensures Valid()
      ensures state == old(state)[key := v]
    {
      state := state[key := v];
    }

    /**
      `fetch_news`: decodes the message into frequency, topic, target language and email, asks the
      search service for news about the topic over the frequency's look-back window, and stores the
      results. `query` and `days` are what the search service is asked.
     */
    method FetchNews(message: string, search: (string, nat) -> seq<Article>) returns (query: string, days: nat)
      requires Valid()
      modifies this
      ensures Valid()
      ensures var r := DecodeRequest(message);
        && query == SearchQuery(r.topic) && days == SearchDays(r.frequency)
        && state == old(state)[Frequency := Str(r.frequency)][Topic := Str(r.topic)]
                              [TargetLanguage := Str(r.targetLanguage)]
                              [RecipientEmail := if r.recipientEmail.Some? then Str(r.recipientEmail.value) else NoValue]
                              [NewsData := Results(search(query, days))]
    {
      var r := DecodeRequest(message);
      Put(Frequency, Str(r.frequency));
      Put(Topic, Str(r.topic));
      Put(TargetLanguage, Str(r.targetLanguage));
      Put(RecipientEmail, if r.recipientEmail.Some? then Str(r.recipientEmail.value) else NoValue);
      query := SearchQuery(r.topic);
      days := SearchDays(r.frequency);
      Put(NewsData, Results(search(query, days)));
    }

    /**
      `summarize_news`: the articles are rendered as text, the language model's answer to the
      prompt built from it is stored as the summary. `prompt` is that text.
     */
    method SummarizeNews(llm: string -> string) returns (prompt: string)
      requires Valid() && NewsData in state && Topic in state
      modifies this
      ensures Valid()
      ensures prompt == ArticlesText(old(state)[NewsData].items)
      ensures state == old(state)[Summary := Str(llm(prompt))]
    {
      prompt := ArticlesText(state[NewsData].items);
      Put(Summary, Str(llm(prompt)));
    }

    /**
      `translate_news`: when the target language is English in any letter case the summary is kept
      as it is and the translator is not asked; otherwise the translator's output is kept.
      `asked` says whether the translator was called.
     */
    method TranslateNews(translate: (string, string) -> string) returns (asked: bool)
      requires Valid()
      modifies this
      ensures Valid()
      ensures var language := old(TextOr(TargetLanguage, "English"));
        var summary := old(TextOr(Summary, ""));
        && (asked <==> !IsEnglish(language))
        && state == old(state)[TranslatedSummary := Str(if asked then translate(summary, language) else summary)]
    {
      var language := TextOr(TargetLanguage, "English");
      var summary := TextOr(Summary, "");
      if Lower(language) == "english" {
        asked := false;
        Put(TranslatedSummary, Str(summary));
      } else {
        asked := true;
        Put(TranslatedSummary, Str(translate(summary, language)));
      }
    }

    /**
      `save_result`: writes the header and the translated summary (else the summary, else nothing)
      to the file named after frequency, topic and language, and records that name.
      `filename` and `contents` are what is written.
     */
    method SaveResult() returns (filename: string, contents: string)
      requires Valid() && Topic in state && Frequency in state
      modifies this
      ensures Valid()
      ensures var frequency := old(state)[Frequency].text;
        var topic := old(state)[Topic].text;
        var language := old(TextOr(TargetLanguage, "English"));
        var summary := if TranslatedSummary in old(state) then old(TextOr(TranslatedSummary, ""))
                       else old(TextOr(Summary, ""));
        && filename == MarkdownFilename(frequency, topic, language)
        && contents == SummaryHeader(frequency, topic, language) + summary
        && state == old(state)[MdFilename := Str(filename)]
    {
      var summary := if TranslatedSummary in state then TextOr(TranslatedSummary, "") else TextOr(Summary, "");
      var topicClean := CleanTopic(state[Topic].text);
      var frequency := state[Frequency].text;
      var language := TextOr(TargetLanguage, "English");
      var header;
      if Lower(language) == "english" {
        filename := NewsDir + "/" + frequency + "_" + topicClean + "_summary.md";
        header := "# " + Capitalize(frequency) + " " + Title(topicClean) + " News Summary\n\n";
      } else {
        var languageClean := CleanLanguage(language);
        filename := NewsDir + "/" + frequency + "_" + topicClean + "_" + languageClean + "_summary.md";
        header := "# " + Capitalize(frequency) + " " + Title(topicClean) + " News Summary (" + language + ")\n\n";
      }
      assert header == SummaryHeader(frequency, state[Topic].text, language);
      contents := header + summary;
      Put(MdFilename, Str(filename));
    }

    /** `convert_to_pdf`: when a markdown file name is recorded, records the converter's PDF path. */
    method ConvertToPdf(convert: string -> string)
      requires Valid()
      modifies this
      ensures Valid()
      ensures var md := old(TextOr(MdFilename, ""));
        state == if md != [] then old(state)[PdfFilename := Str(convert(md))] else old(state)
    {
      var md := TextOr(MdFilename, "");
      if md != [] {
        Put(PdfFilename, Str(convert(md)));
      }
    }

    /**
      `send_email`: the PDF is mailed exactly when both a recipient and a PDF path are present.
      `deliver` says whether `send_email_with_attachment` returns for that email; when it raises
      (missing sender credentials, an SMTP failure) the exception leaves the step, `raised` is set
      and `email_sent` is not recorded. Otherwise `email_sent` is recorded exactly when a mail went
      out, and nothing else changes.
     */
    method SendEmail(deliver: Email -> bool) returns (sent: Option<Email>, raised: bool)
      requires Valid()
      requires ReadyToSend(state) ==> Frequency in state && Topic in state
      modifies this
      ensures Valid()
      ensures sent.Some? <==> ReadyToSend(old(state))
      ensures sent.Some? ==> var recipient := old(state)[RecipientEmail].text;
        var frequency := old(state)[Frequency].text;
        var topic := old(state)[Topic].text;
        sent.value == Email(recipient, Capitalize(frequency) + " " + Title(topic) + " News Summary",
                            "Please find attached the " + frequency + " news summary for '" + topic + "'.",
                            old(state)[PdfFilename].text)
      ensures raised <==> sent.Some? && !deliver(sent.value)
      ensures state == if sent.Some? && !raised then old(state)[EmailSent := Flag(true)] else old(state)
    {
      var recipient := if RecipientEmail in state then state[RecipientEmail] else NoValue;
      var pdf := if PdfFilename in state then state[PdfFilename] else NoValue;
      raised := false;
      if Truthy(recipient) && Truthy(pdf) {
        var frequency := state[Frequency].text;
        var topic := state[Topic].text;
        var email := Email(recipient.text, Capitalize(frequency) + " " + Title(topic) + " News Summary",
                           "Please find attached the " + frequency + " news summary for '" + topic + "'.",
                           pdf.text);
        sent := Some(email);
        if deliver(email) {
          Put(EmailSent, Flag(true));
        } else {
          raised := true;
        }
      } else {
        sent := None;
      }
    }
  }

  /** A recipient email and a PDF path are both recorded (and neither is empty). */
  predicate ReadyToSend(state: map<Key, Value>) {
    && RecipientEmail in state && Truthy(state[RecipientEmail])
    && PdfFilename in state && Truthy(state[PdfFilename])
  }
}
