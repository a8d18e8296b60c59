# News-Weaver request handling, modelled in Dafny

News-Weaver turns a chat message or a sidebar form into a news digest. Four parts of the program take
part in making it, and this model covers each of them. The news node alone runs as six graph steps:
fetch, summarise, translate, save, convert to PDF, and send.

- A rule-based parser (`NewsMessageParser`) decides whether a chat message asks for news. It then
  reads a frequency, a topic and a language from the message and joins them into the wire string
  `frequency:topic:language`.
- The language registry `SUPPORTED_LANGUAGES` is the ordered table of language codes that the
  parser scans and the sidebar offers.
- The news node (`NewsNode`) decodes the wire string, adding an optional fourth `email` segment. It
  asks a search service for articles and has a language model summarise them. It then translates
  the summary unless the language is English, and saves it under a file name made from frequency,
  topic and language. Last, it converts the file to PDF and mails it when a recipient is known.
- The result page (`DisplayResultStreamlit`) reads the same wire string back and rebuilds the path
  of the file it expects the node to have written. It also formats the topic for display and checks
  the API keys a use case needs.

Modules, one file each:

| module | models |
|---|---|
| `Wrappers` | `Option` |
| `Text` | Python's `str.lower`, `title`, `capitalize`, `strip`, `split`, `replace`, substring and `\b` word tests; case mapping and word characters are ASCII, whitespace is Python's full `str.isspace` set |
| `Languages` | `SUPPORTED_LANGUAGES` |
| `MessageParser` | `is_news_request`, `parse_news_message` and its three extractors; every regular expression is a hand-written matcher that tries alternatives in the order Python's engine does |
| `ParserExamples` | the parser's demonstration message and the worked examples of its rules |
| `AiNewsNode` | the colon decoding, search window, file naming and header, and the class `NewsNode`, whose `state` map the six steps update in place |
| `DisplayResult` | `_handle_news` path derivation, `_format_news_topic`, `_validate_api_keys` |

The search service, the language model, the translator and the PDF converter are function
parameters. So is the outcome of the email send: whether `send_email_with_attachment` returns or
raises for a given email. The file the node writes and the email it sends are out-parameters of the
methods.

## Model

| member | source | states |
|---|---|---|
| Text.Split | src/langgraphagenticai/nodes/ai_news_node.py:23 | `split(':')` gives at least one segment, no segment contains the separator, and joining the segments with it gives the message back |
| Text.SplitJoin | src/langgraphagenticai/nodes/ai_news_node.py:23 | splitting a join of separator-free segments gives exactly those segments |
| Text.Strip | src/langgraphagenticai/nodes/ai_news_node.py:24-27 | `strip()` gives a trimmed string, no longer than the input, made of its characters, and leaves a trimmed string unchanged |
| Text.StripCutsOnlySpace | src/langgraphagenticai/nodes/ai_news_node.py:24-27 | `strip()` removes exactly the leading and the trailing whitespace: the input is whitespace, then the result, then whitespace |
| Text.LowerChar | src/langgraphagenticai/utils/message_parser.py:27 | a character's lower case: an ASCII capital becomes its small letter, 32 code points higher, and every other character is kept |
| Text.Lower | src/langgraphagenticai/utils/message_parser.py:27 | `lower()` keeps the length and leaves no upper-case letter |
| Text.LowerMapsEachChar | src/langgraphagenticai/utils/message_parser.py:27 | `lower()` maps each character through `LowerChar` at its own position |
| Text.Title | src/langgraphagenticai/ui/streamlitui/display_result.py:223 | `title()` keeps every non-letter, upper-cases a letter that starts a run of letters, and lower-cases a letter that follows another letter |
| Text.Capitalize | src/langgraphagenticai/nodes/ai_news_node.py:95 | `capitalize()` upper-cases the first character and lower-cases all the others |
| Text.TitleIgnoresCase | src/langgraphagenticai/ui/streamlitui/display_result.py:223 | `title()` of a lower-cased string is `title()` of the string |
| Text.FindIsFirst | src/langgraphagenticai/utils/message_parser.py:98-100 | a find-first loop returns `k` exactly when entry `k` matches and no earlier entry does |
| Languages.TableShape | src/langgraphagenticai/tools/translation_tool.py:55-82 | 26 entries, `English` first and displayed as itself, no code listed twice |
| Languages.EntriesWellFormed | src/langgraphagenticai/tools/translation_tool.py:56-81 | every code is an ASCII word; every display name is the code, or the code followed by ` (` and a native name |
| Languages.CodesArePlainWords | src/langgraphagenticai/tools/translation_tool.py:55-82 | no code contains `:`, a space, `(` or `)`; every code is trimmed and non-empty |
| Languages.NameBeforeParenthesisIsCode | src/langgraphagenticai/tools/translation_tool.py:56-81 | the display name's text before `(`, stripped, is the code |
| Languages.DisplayNameStartsWithCode | src/langgraphagenticai/tools/translation_tool.py:56-81 | every display name starts with its code |
| MessageParser.EmptyIsNotNews | src/langgraphagenticai/utils/message_parser.py:23-48 | the empty message is not a news request |
| MessageParser.NewsKeywordSuffices | src/langgraphagenticai/utils/message_parser.py:18-30 | any of the eleven news keywords, in any letter case, makes a message a news request |
| MessageParser.WithoutKeywordNeedsTimeAndTopic | src/langgraphagenticai/utils/message_parser.py:33-48 | without a news keyword, a message is a news request exactly when a time word and a topic pattern both occur |
| MessageParser.TopicPatternNeedsWords | src/langgraphagenticai/utils/message_parser.py:39-46 | a topic pattern matches only if one of its own words occurs: a subject word, a request phrase, `news` or a recency word |
| ParserExamples.BareTopicWordIsNotNews | src/langgraphagenticai/utils/message_parser.py:40-48 | `sports` matches a topic pattern, yet is not a news request |
| ParserExamples.TimeWordAloneIsNotNews | src/langgraphagenticai/utils/message_parser.py:33-48 | `this week` has a time word but no topic pattern, so it is not a news request |
| MessageParser.ExtractFrequency | src/langgraphagenticai/utils/message_parser.py:73-78 | the frequency is always one of daily, weekly, monthly, yearly |
| MessageParser.FrequencyIsFirstBucket | src/langgraphagenticai/utils/message_parser.py:73-78 | a bucket is chosen exactly when it has a word in the message and no earlier bucket does; `daily` also when no bucket does |
| MessageParser.FrequenciesOfTable | src/langgraphagenticai/utils/message_parser.py:11-16 | the four bucket names, in table order, are pairwise distinct and `daily` comes first |
| MessageParser.DailyWordWins | src/langgraphagenticai/utils/message_parser.py:12 | a message with a daily word is daily, whatever other bucket words it holds |
| ParserExamples.LatestWeeklyNewsIsDaily | src/langgraphagenticai/utils/message_parser.py:73-78 | `latest weekly news` holds a weekly word, yet its frequency is daily |
| MessageParser.DomainPriority | src/langgraphagenticai/utils/message_parser.py:83-100 | the first of the 12 topic patterns, in listed order, that matches decides the topic |
| MessageParser.GlobalWarmingIsNeverClimate | src/langgraphagenticai/utils/message_parser.py:91-94 | a message with the whole words `global warming` always matches the world pattern or an earlier one, never climate |
| ParserExamples.GlobalWarmingIsWorld | src/langgraphagenticai/utils/message_parser.py:91-100 | the topic of `global warming` is `world` |
| ParserExamples.ClimatePatternAlsoMatches | src/langgraphagenticai/utils/message_parser.py:94 | the climate pattern matches `global warming` too, but comes later |
| ParserExamples.NewsAboutArtificialIntelligence | src/langgraphagenticai/utils/message_parser.py:92 | the topic of `news about artificial intelligence` is `artificial intelligence` |
| MessageParser.LazyGroup | src/langgraphagenticai/utils/message_parser.py:103 | the lazy group `[a-zA-Z\s]+?` yields only non-empty runs of letters and whitespace |
| MessageParser.Search | src/langgraphagenticai/utils/message_parser.py:104 | `re.search` gives the match at the leftmost start position where the pattern matches, and gives none exactly when no position matches |
| MessageParser.LazyGroupRun | src/langgraphagenticai/utils/message_parser.py:103 | the lazy group ends at the first position where the tail matches, provided every character up to it is in the class |
| MessageParser.AboutCapturesLastWord | src/langgraphagenticai/utils/message_parser.py:103-104 | `news about X`, with `X` a word of letters ending the message, captures `X` |
| MessageParser.GiveCapturesWordBeforeNews | src/langgraphagenticai/utils/message_parser.py:110-111 | `give me X news`, with `X` a word of letters, captures `X` |
| ParserExamples.NewsAboutQuantum | src/langgraphagenticai/utils/message_parser.py:102-108 | `news about quantum` captures `quantum`, which the capture step accepts |
| ParserExamples.GiveMeSportsNews | src/langgraphagenticai/utils/message_parser.py:110-111 | `give me sports news` captures `sports` with the second pattern |
| MessageParser.Accepted | src/langgraphagenticai/utils/message_parser.py:106-108 | a capture is kept exactly when it is longer than one character after `strip()`; a kept capture is trimmed and made of letters and whitespace |
| MessageParser.CapturedTopic | src/langgraphagenticai/utils/message_parser.py:102-116 | a captured topic is trimmed, longer than one character, and made of letters and whitespace |
| MessageParser.CapturePreference | src/langgraphagenticai/utils/message_parser.py:102-116 | the about-capture is preferred to the give-capture; each is used only when it is kept, and it is the stripped group of a match |
| MessageParser.NoCaptureWithoutHead | src/langgraphagenticai/utils/message_parser.py:103-112 | a message holding none of a pattern's opening words never matches that pattern |
| MessageParser.TopicShape | src/langgraphagenticai/utils/message_parser.py:98-118 | the topic is the first matching pattern's topic; else an accepted capture; else `general news` |
| MessageParser.ExtractTopic | src/langgraphagenticai/utils/message_parser.py:80-118 | the topic is non-empty, trimmed and free of `:` |
| MessageParser.MentionsIffCodeOccurs | src/langgraphagenticai/utils/message_parser.py:123-132 | an entry's three variations occur exactly when its lower-cased code does, so the second and third add nothing |
| MessageParser.LanguageScanIsFirstCode | src/langgraphagenticai/utils/message_parser.py:123-132 | the scan picks the first entry, in table order, whose lower-cased code occurs in the message |
| MessageParser.MentionSearch | src/langgraphagenticai/utils/message_parser.py:135-136 | the fallback pattern captures a non-empty run of ASCII letters at the leftmost start position where it matches, or none exactly when no position matches |
| MessageParser.LookupIsFirstName | src/langgraphagenticai/utils/message_parser.py:139-141 | the fallback picks the first entry whose lower-cased display name contains the word or whose code is the word |
| MessageParser.LanguageFallback | src/langgraphagenticai/utils/message_parser.py:134-143 | with no code in the message, the language comes from the fallback, else it is `English` |
| MessageParser.ExtractLanguage | src/langgraphagenticai/utils/message_parser.py:120-143 | the language is always a code of the table |
| MessageParser.ParseNewsMessage | src/langgraphagenticai/utils/message_parser.py:50-71 | frequency, topic and language are in range, and splitting the formatted message on `:` gives back exactly the three fields |
| MessageParser.FormatMessage | src/langgraphagenticai/utils/message_parser.py:70 | `frequency:topic:language` splits on `:` back into exactly the three fields when none of them holds a `:` |
| MessageParser.FormatFields | src/langgraphagenticai/utils/message_parser.py:70 | for a parsed frequency and language, `frequency:topic:language` splits back into its three fields when the topic has no `:` |
| MessageParser.SupportedHasNoColon | src/langgraphagenticai/tools/translation_tool.py:55-82 | no supported code contains `:` |
| ParserExamples.GiveMeLatestSportsNewsInHindi | src/langgraphagenticai/utils/message_parser.py:150 | `Give me latest sports news in Hindi` parses to daily, sports, Hindi, formatted as `daily:sports:Hindi` |
| AiNewsNode.Segment | src/langgraphagenticai/nodes/ai_news_node.py:25-27 | a segment is dropped, so the caller's default is used, exactly when it is missing or all whitespace; a kept segment is the stripped segment, non-empty and trimmed |
| AiNewsNode.FrequencyOf | src/langgraphagenticai/nodes/ai_news_node.py:24 | the decoded frequency is the segment stripped and then lower-cased: no upper-case letter, and no `:` when the segment has none |
| AiNewsNode.DecodeRequest | src/langgraphagenticai/nodes/ai_news_node.py:23-27 | for every message, the frequency is the first segment stripped and lower-cased; topic and language are their segments stripped, or `general news` and `English` when the segment is missing or all whitespace; the email is the fourth segment stripped, absent exactly when it is missing or all whitespace; topic, language and email are non-empty, trimmed and free of `:` |
| AiNewsNode.EncodeRequest | src/langgraphagenticai/api/routes/news.py:16 | `f:t:l:e` splits on `:` into exactly `f`, `t`, `l` and `e` (empty for no email) when none of them holds a `:` |
| AiNewsNode.DecodeEncode | src/langgraphagenticai/nodes/ai_news_node.py:23-27 | decoding the API route's `f:t:l:e` gives `f` stripped and lower-cased, then `t`, `l`, and `e` (none when empty) |
| AiNewsNode.ParsedMessageDecodes | src/langgraphagenticai/nodes/ai_news_node.py:23-27 | the node decodes the parser's wire string to the parser's own frequency, topic and language, with no email |
| AiNewsNode.FormattedMessageDecodes | src/langgraphagenticai/nodes/ai_news_node.py:23-26 | `f:t:l` decodes to `f`, `t`, `l` when they are already decoded fields |
| AiNewsNode.SearchDays | src/langgraphagenticai/nodes/ai_news_node.py:30-33 | the look-back is between 1 and 366 days, and more than one day only for one of the four bucket names |
| AiNewsNode.SearchQuery | src/langgraphagenticai/nodes/ai_news_node.py:32 | the query starts with `Top latest ` followed by the whole topic |
| AiNewsNode.ArticlesText | src/langgraphagenticai/nodes/ai_news_node.py:64 | the joined article text is empty exactly when there are no articles, and holds every article's `Content: …\nURL: …` block |
| AiNewsNode.SearchDaysByFrequency | src/langgraphagenticai/nodes/ai_news_node.py:30-33 | the look-back is 1, 7, 30 or 366 days for daily, weekly, monthly or yearly; any other frequency gets 1 |
| AiNewsNode.CleanTopic | src/langgraphagenticai/nodes/ai_news_node.py:84 | the cleaned topic has the same length, no space and no `/`, and keeps every other character in place |
| AiNewsNode.CleanLanguage | src/langgraphagenticai/nodes/ai_news_node.py:97 | the cleaned language has no space or parenthesis, and a language without them is unchanged |
| AiNewsNode.FilenameShape | src/langgraphagenticai/nodes/ai_news_node.py:93-99 | the name is `./News/`, frequency and cleaned topic, then the cleaned language exactly when it is not English, then `_summary.md` |
| AiNewsNode.HeaderNamesLanguage | src/langgraphagenticai/nodes/ai_news_node.py:95-99 | the header ends with ` (language)` exactly when the language is not English |
| AiNewsNode.CodesSurviveCleaning | src/langgraphagenticai/nodes/ai_news_node.py:97 | every code of the table comes out of the language cleaning unchanged |
| AiNewsNode.FilenameCarriesCode | src/langgraphagenticai/nodes/ai_news_node.py:97-98 | for a non-English code the file name carries the code itself |
| AiNewsNode.NewsNode.constructor | src/langgraphagenticai/nodes/ai_news_node.py:15 | a node starts with an empty state |
| AiNewsNode.NewsNode.FetchNews | src/langgraphagenticai/nodes/ai_news_node.py:18-37 | stores the decoded frequency, topic, language and email, and the search results for `Top latest {topic} news India and globally` over the frequency's look-back; nothing else changes |
| AiNewsNode.NewsNode.SummarizeNews | src/langgraphagenticai/nodes/ai_news_node.py:39-68 | the model is asked about the articles joined as `Content: …\nURL: …` blocks; its answer becomes the summary and nothing else changes |
| AiNewsNode.NewsNode.TranslateNews | src/langgraphagenticai/nodes/ai_news_node.py:70-79 | the translator is asked exactly when the language is not English in any case; otherwise the summary is kept as it is |
| AiNewsNode.NewsNode.SaveResult | src/langgraphagenticai/nodes/ai_news_node.py:81-105 | writes header plus translated summary (else summary, else nothing) to the derived file name, and records only that name |
| AiNewsNode.NewsNode.ConvertToPdf | src/langgraphagenticai/nodes/ai_news_node.py:107-114 | records a PDF path exactly when a markdown name is recorded |
| AiNewsNode.NewsNode.SendEmail | src/langgraphagenticai/nodes/ai_news_node.py:116-126 | mails the PDF with the given subject and body exactly when a recipient and a PDF path are present; sets `email_sent` only when that send returns, reports the send raising, and otherwise leaves the state unchanged |
| DisplayResult.ReadMessage | src/langgraphagenticai/ui/streamlitui/display_result.py:115-118 | one segment gives `general news` and `English`; two give the language `general news`; an empty topic becomes `general news`; segments are not stripped |
| DisplayResult.LangSuffix | src/langgraphagenticai/ui/streamlitui/display_result.py:132-134 | the suffix is empty exactly when the language is English in any case, and has no space or parenthesis |
| DisplayResult.FilesShareBase | src/langgraphagenticai/ui/streamlitui/display_result.py:139-140 | the md and pdf paths share `./News/` and the base name and differ only in extension |
| DisplayResult.BaseIsSavedName | src/langgraphagenticai/ui/streamlitui/display_result.py:137-139 | for a lower-case frequency, the page's base name with `.md` is the name `save_result` writes |
| DisplayResult.AsWrittenAgreesOnTrimmedSegments | src/langgraphagenticai/ui/streamlitui/display_result.py:115-139 | when the first three segments are non-empty and trimmed, the page as written looks for the file the node saved |
| DisplayResult.ParsedMessageFilesAgree | src/langgraphagenticai/ui/streamlitui/display_result.py:115-139 | for a message from the chat parser, the page as written looks for the file the node saved |
| DisplayResult.AsWrittenMissesUntrimmedTopic | src/langgraphagenticai/ui/streamlitui/display_result.py:115-139 | for `Daily:sports :English:` the node saves `./News/daily_sports_summary.md`, but the page as written looks for `./News/daily_sports__summary.md` |
| DisplayResult.FilesMatchSaved | src/langgraphagenticai/ui/streamlitui/display_result.py:131-140 | with the segments decoded as the node decodes them, the page looks for the file the node saved, for every message |
| DisplayResult.AfterFetch | src/langgraphagenticai/graph/graph_builder.py:47-53 | the steps after `fetch_news`, in graph order, write and record the file named after the fetched frequency, topic and language |
| DisplayResult.RunGraph | src/langgraphagenticai/ui/streamlitui/display_result.py:127-128 | running the graph on the message writes and records the file named after the decoded frequency, topic and language |
| DisplayResult.HandleNews | src/langgraphagenticai/ui/streamlitui/display_result.py:112-146 | the page looks for the paths built from the unstripped segments; unless the graph raised, the file is found exactly when that path is the one the node wrote, and always when the first three segments are trimmed |
| DisplayResult.HandleNewsCorrected | src/langgraphagenticai/ui/streamlitui/display_result.py:112-146 | with the paths built from the segments as the node decodes them, the file is found for every message unless the graph raised |
| DisplayResult.FormatNewsTopic | src/langgraphagenticai/ui/streamlitui/display_result.py:219-223 | the shown topic has the topic's length |
| DisplayResult.FormatNewsTopicIsTitle | src/langgraphagenticai/ui/streamlitui/display_result.py:219-223 | the `General News` special case agrees with `title()`, so a topic is always shown title-cased |
| DisplayResult.ValidateApiKeys | src/langgraphagenticai/ui/streamlitui/display_result.py:37-54 | valid exactly when the Groq key is set and, for `Chatbot With Web` and `News`, the Tavily key is set; the Groq key is listed exactly when it is unset, the Tavily key exactly when the use case searches the web and it is unset, and Groq comes first |

## Left out

- The Tavily search, the language model, the translation tool and PDF conversion are opaque
  function parameters, each assumed to return. Their arguments are modelled: the query, the day window, the prompt's
  article text, and the language. The fixed search options `topic="news"` and `max_results=20` are
  not. Neither are the summariser's system prompt, nor `response.get('results', [])`: the search
  parameter returns the article list directly.
- File system: `os.makedirs` and the file write are left out. `SaveResult` returns the name and the
  contents it would write. `os.path.exists` in `_handle_news` becomes a comparison with the name the
  node recorded.
- The LangGraph state dictionary passed between nodes (`state['news_data']`, `state['summary']`) is
  not modelled, only the node's own `self.state`. The graph wiring appears only as the call order
  in `DisplayResult.AfterFetch`.
- `time_range_map` (src/langgraphagenticai/nodes/ai_news_node.py:29) is built but never used by the
  source, so it has no counterpart here.
- Streamlit rendering is left out: spinners, the status text, `st.error` and `st.info` messages,
  downloads and the troubleshooting text. When the graph raises, the page's `except` branch only
  shows the error; the model returns `raised` and reports nothing found. `ValidateApiKeys` returns the names of the missing keys
  in place of the messages.
- `NewsNode.SendEmail`: the email send is a parameter that says whether `send_email_with_attachment`
  returns or raises. Why it raises is not modelled: missing sender credentials
  (src/langgraphagenticai/tools/email_tool.py:15-16) and an SMTP failure
  (src/langgraphagenticai/tools/email_tool.py:36-38) look the same. The message it builds, the
  attachment and the SMTP session are not modelled.
- `NewsNode.ConvertToPdf`: the progress `print` (src/langgraphagenticai/nodes/ai_news_node.py:112)
  is not modelled, and neither are the other `print` calls of the email tool.
- `NewsNode.SummarizeNews`, `NewsNode.SaveResult`, `NewsNode.SendEmail`: these require the keys
  `fetch_news` stores. The source raises `KeyError` without them, which the graph's order rules out.
- Text: `lower`, `title` and `capitalize` change ASCII letters only, and `\w` is ASCII. Non-ASCII
  letters (in the native language names, say) are left as they are, where Python would change some
  of them.
- `TranslationTool._run` and `create_translation_tool` are not part of this model; the translator is
  a parameter.
- The FastAPI routes, the sidebar and the chat input are not part of this model. The message formats
  they produce appear only in the lemmas that decode them: `AiNewsNode.DecodeEncode` and
  `DisplayResult.AsWrittenMissesUntrimmedTopic`.

## Findings

| source | as written | input that shows it | evidently intended | confidence | as-written member | corrected member |
|---|---|---|---|---|---|---|
| src/langgraphagenticai/ui/streamlitui/display_result.py:115-139 | `_handle_news` splits the message and uses the segments unstripped. `fetch_news` strips every segment, and replaces a blank topic or language by its default. | sidebar message `Daily:sports :English:`, from a topic typed with a trailing space: the node saves `./News/daily_sports_summary.md`, the page looks for `./News/daily_sports__summary.md` and reports the file as missing | the page looks for the file the node saved (the comment at line 136 states this aim for the frequency) | medium, not executed | DisplayResult.AsWrittenMissesUntrimmedTopic | DisplayResult.HandleNewsCorrected |

The as-written derivation is `DisplayResult.FilesAsWritten`. `DisplayResult.AsWrittenAgreesOnTrimmedSegments`
shows it is correct when the first three segments are already trimmed and non-empty, which always
holds for messages from the chat parser. `DisplayResult.HandleNews` uses it, as the page does, and finds the file exactly when it agrees.
The corrected derivation is `DisplayResult.Files`, which reads the segments as `fetch_news` does;
`DisplayResult.FilesMatchSaved` proves it names the saved file for every message, and
`DisplayResult.HandleNewsCorrected` uses it. A two-segment message
(`Daily:sports`) also disagrees: the page takes the padding value `general news` as the language.
Neither the sidebar nor the parser sends two segments, so this row does not list it.
