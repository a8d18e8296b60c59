/**
  The parser on concrete messages: the demonstration message of the parser's module, and the
  messages that show the rules about news requests, bucket order and pattern order at work.

  Each derivation comes in layers: facts about one message and one word list (which word does not
  occur, and why), a lemma over an arbitrary message that draws the conclusion from such facts, and
  the example itself, which only puts the two together.
 */
module ParserExamples {
  import opened Wrappers
  import opened Text
  import opened Languages
  import opened MessageParser

  /** Every character of `s` is one of `alphabet`. */
  predicate Among(s: string, alphabet: string) {
    forall i | 0 <= i < |s| :: s[i] in alphabet
  }

  /** No `a` in `s` is directly followed by `b`. */
  predicate NoAdjacent(s: string, a: char, b: char) {
    forall i | 0 <= i < |s| - 1 :: s[i] != a || s[i + 1] != b
  }

  /**
    Why a word does not occur in a text whose characters are among `alphabet`: the alphabet lacks
    one of the word's characters, or the text never has two of its adjacent characters side by side.
   */
  datatype Witness = Lacks(k: nat) | LacksAdjacent(k: nat)

  predicate Witnesses(s: string, alphabet: string, w: string, x: Witness) {
    match x
    case Lacks(k) => k < |w| && w[k] !in alphabet
    case LacksAdjacent(k) => k + 1 < |w| && NoAdjacent(s, w[k], w[k + 1])
  }

  /** Words with a witness each occur nowhere in `s`, neither as substrings nor as whole words. */
  lemma Absent(s: string, alphabet: string, words: seq<string>, xs: seq<Witness>)
    requires Among(s, alphabet)
    requires |xs| == |words|
    requires forall i | 0 <= i < |words| :: Witnesses(s, alphabet, words[i], xs[i])
    ensures forall w | w in words :: !Contains(s, w)
    ensures !ContainsAny(s, words) && !HasWholeWordAny(s, words)
  {
    forall w | w in words ensures !Contains(s, w) && !HasWholeWord(s, w) {
      var i :| 0 <= i < |words| && words[i] == w;
      match xs[i] {
        case Lacks(k) =>
          assert w[k] !in s;
          LacksChar(s, w, k);
        case LacksAdjacent(k) => LacksPair(s, w, k);
      }
    }
  }

  /** `w` does not occur in `s`, as a substring or as a whole word, because `s` lacks its `k`-th character. */
  lemma LacksChar(s: string, w: string, k: nat)
    requires k < |w| && w[k] !in s
    ensures !Contains(s, w) && !HasWholeWord(s, w)
  {
    NotContainsByChar(s, w, k);
    NoWholeWordWithout(s, w);
  }

  /** `w` does not occur in `s` because no two adjacent characters of `s` are the `k`-th and `k+1`-th of `w`. */
  lemma LacksPair(s: string, w: string, k: nat)
    requires k + 1 < |w|
    requires forall i | 0 <= i < |s| - 1 :: s[i] != w[k] || s[i + 1] != w[k + 1]
    ensures !Contains(s, w) && !HasWholeWord(s, w)
  {
    NotContainsByPair(s, w, k);
    NoWholeWordWithout(s, w);
  }

  // ---------------------------------------------------------------- is_news_request

  /** "sports" contains none of the news keywords. */
  lemma SportsHasNoNewsKeyword()
    ensures !ContainsAny("sports", NewsKeywords)
  {
    Absent("sports", "sports", NewsKeywords, [Lacks(0), Lacks(0), Lacks(0), Lacks(0), Lacks(1), Lacks(0), Lacks(0), Lacks(4), Lacks(1), Lacks(0), Lacks(0)]);
  }

  /** "sports" contains no daily and no weekly word. */
  lemma SportsHasNoDailyOrWeeklyWord()
    ensures forall k | 0 <= k < 2 :: !ContainsAny("sports", TimeKeywords[k].words)
  {
    Absent("sports", "sports", TimeKeywords[0].words, [Lacks(0), Lacks(2), Lacks(0), Lacks(0), Lacks(1)]);
    Absent("sports", "sports", TimeKeywords[1].words, [Lacks(0), Lacks(0), Lacks(1), Lacks(1)]);
  }

  /** "sports" contains no monthly and no yearly word. */
  lemma SportsHasNoMonthlyOrYearlyWord()
    ensures forall k | 2 <= k < 4 :: !ContainsAny("sports", TimeKeywords[k].words)
  {
    Absent("sports", "sports", TimeKeywords[2].words, [Lacks(0), Lacks(0), Lacks(1), Lacks(1)]);
    Absent("sports", "sports", TimeKeywords[3].words, [Lacks(0), Lacks(0), Lacks(0), Lacks(1)]);
  }

  /** A bare topic word is not a news request: "sports" matches a topic pattern but has no time word and no news keyword. */
  lemma BareTopicWordIsNotNews()
    ensures HasTopicPattern("sports")
    ensures !IsNewsRequest("sports")
  {
    assert Lower("sports") == "sports";
    assert WholeWordAt("sports", "sports", 0) && "sports" in SubjectWords;
    SportsHasNoNewsKeyword();
    SportsHasNoDailyOrWeeklyWord();
    SportsHasNoMonthlyOrYearlyWord();
  }

  /** "this week" contains none of the news keywords. */
  lemma ThisWeekHasNoNewsKeyword()
    ensures !ContainsAny("this week", NewsKeywords)
  {
    Absent("this week", "this week", NewsKeywords, [Lacks(0), Lacks(0), Lacks(0), Lacks(0), Lacks(0), Lacks(0), Lacks(2), Lacks(2), Lacks(0), Lacks(0), Lacks(0)]);
  }

  /** "this week" contains no subject word. */
  lemma ThisWeekHasNoSubjectWord()
    ensures !HasWholeWordAny("this week", SubjectWords)
  {
    Absent("this week", "this week", SubjectWords, [Lacks(1), Lacks(1), Lacks(2), Lacks(2), Lacks(0), Lacks(0), Lacks(2), Lacks(0), Lacks(1), Lacks(1), Lacks(1), Lacks(1)]);
  }

  /** "this week" contains no request phrase, no `news` and no recency word. */
  lemma ThisWeekHasNoPhraseWord()
    ensures !ContainsAny("this week", IntentPhrases) && !Contains("this week", "news") && !ContainsAny("this week", RecencyWords)
  {
    Absent("this week", "this week", IntentPhrases, [Lacks(0), Lacks(2), Lacks(0), Lacks(0), Lacks(0), Lacks(2)]);
    Absent("this week", "this week", ["news"], [Lacks(0)]);
    Absent("this week", "this week", RecencyWords, [Lacks(0), Lacks(0), Lacks(0)]);
  }

  /** A time word alone is not a news request: "this week" has a time word but no news keyword and no topic pattern. */
  lemma TimeWordAloneIsNotNews()
    ensures HasTimeKeyword("this week")
    ensures !HasTopicPattern("this week")
    ensures !IsNewsRequest("this week")
  {
    assert Lower("this week") == "this week";
    assert OccursAt("this week", "week", 5) && "week" in TimeKeywords[1].words;
    assert ContainsAny("this week", TimeKeywords[1].words);
    ThisWeekHasNoNewsKeyword();
    ThisWeekHasNoSubjectWord();
    ThisWeekHasNoPhraseWord();
    TopicPatternNeedsWords("this week");
  }

  // ---------------------------------------------------------------- _extract_frequency

  /** "latest weekly news" is daily news: the weekly bucket matches too, but `latest` is a daily word and that bucket comes first. */
  lemma LatestWeeklyNewsIsDaily()
    ensures ContainsAny("latest weekly news", TimeKeywords[1].words)
    ensures ExtractFrequency("latest weekly news") == "daily"
  {
    assert OccursAt("latest weekly news", "latest", 0);
    assert OccursAt("latest weekly news", "weekly", 7) && "weekly" in TimeKeywords[1].words;
    DailyWordWins("latest weekly news", "latest");
  }

  // ---------------------------------------------------------------- _extract_topic

  /** No word of topic pattern 0 (`sports`) occurs in "global warming" as a whole word. */
  lemma GlobalWarmingMissesPattern0()
    ensures !HasWholeWordAny("global warming", ["sports", "sport"])
  {
    Absent("global warming", "global warming", ["sports", "sport"], [Lacks(0), Lacks(0)]);
  }

  /** No word of topic pattern 1 (`tech`) occurs in "global warming" as a whole word. */
  lemma GlobalWarmingMissesPattern1()
    ensures !HasWholeWordAny("global warming", ["tech", "technology", "technological"])
  {
    Absent("global warming", "global warming", ["tech", "technology", "technological"], [Lacks(0), Lacks(0), Lacks(0)]);
  }

  /** No word of topic pattern 2 (`politics`) occurs in "global warming" as a whole word. */
  lemma GlobalWarmingMissesPattern2()
    ensures !HasWholeWordAny("global warming", ["politics", "politic", "political", "government"])
  {
    Absent("global warming", "global warming", ["politics", "politic", "political", "government"], [Lacks(0), Lacks(0), Lacks(0), Lacks(2)]);
  }

  /** No word of topic pattern 3 (`health`) occurs in "global warming" as a whole word. */
  lemma GlobalWarmingMissesPattern3()
    ensures !HasWholeWordAny("global warming", ["health", "medical", "healthcare"])
  {
    Absent("global warming", "global warming", ["health", "medical", "healthcare"], [Lacks(0), Lacks(1), Lacks(0)]);
  }

  /** No word of topic pattern 4 (`business`) occurs in "global warming" as a whole word. */
  lemma GlobalWarmingMissesPattern4()
    ensures !HasWholeWordAny("global warming", ["business", "economic", "economy", "finance", "financial"])
  {
    Absent("global warming", "global warming", ["business", "economic", "economy", "finance", "financial"], [Lacks(1), Lacks(0), Lacks(0), Lacks(0), Lacks(0)]);
  }

  /** No word of topic pattern 5 (`entertainment`) occurs in "global warming" as a whole word. */
  lemma GlobalWarmingMissesPattern5()
    ensures !HasWholeWordAny("global warming", ["entertainment", "celebrity", "movies", "movie", "films", "film"])
  {
    Absent("global warming", "global warming", ["entertainment", "celebrity", "movies", "movie", "films", "film"], [Lacks(0), Lacks(0), Lacks(2), Lacks(2), Lacks(0), Lacks(0)]);
  }

  /** No word of topic pattern 6 (`science`) occurs in "global warming" as a whole word. */
  lemma GlobalWarmingMissesPattern6()
    ensures !HasWholeWordAny("global warming", ["science", "scientific", "research"])
  {
    Absent("global warming", "global warming", ["science", "scientific", "research"], [Lacks(0), Lacks(0), Lacks(1)]);
  }

  /** A message with `global` as a whole word and no word of the first seven patterns is world news. */
  lemma WorldPatternDecides(m: string)
    requires !HasWholeWordAny(m, ["sports", "sport"])
    requires !HasWholeWordAny(m, ["tech", "technology", "technological"])
    requires !HasWholeWordAny(m, ["politics", "politic", "political", "government"])
    requires !HasWholeWordAny(m, ["health", "medical", "healthcare"])
    requires !HasWholeWordAny(m, ["business", "economic", "economy", "finance", "financial"])
    requires !HasWholeWordAny(m, ["entertainment", "celebrity", "movies", "movie", "films", "film"])
    requires !HasWholeWordAny(m, ["science", "scientific", "research"])
    requires HasWholeWord(m, "global")
    ensures ExtractTopic(m) == DomainPatterns[7].topic
  {
    assert DomainPatterns[0].words == ["sports", "sport"];
    assert DomainPatterns[1].words == ["tech", "technology", "technological"];
    assert DomainPatterns[2].words == ["politics", "politic", "political", "government"];
    assert DomainPatterns[3].words == ["health", "medical", "healthcare"];
    assert DomainPatterns[4].words == ["business", "economic", "economy", "finance", "financial"];
    assert DomainPatterns[5].words == ["entertainment", "celebrity", "movies", "movie", "films", "film"];
    assert DomainPatterns[6].words == ["science", "scientific", "research"];
    assert "global" in DomainPatterns[7].words;
    DomainPriority(m, 7);
  }

  /** "global warming" is world news, not climate news: the climate pattern matches it, but the world pattern comes first. */
  lemma GlobalWarmingIsWorld()
    ensures ExtractTopic("global warming") == DomainPatterns[7].topic
  {
    GlobalWarmingMissesPattern0();
    GlobalWarmingMissesPattern1();
    GlobalWarmingMissesPattern2();
    GlobalWarmingMissesPattern3();
    GlobalWarmingMissesPattern4();
    GlobalWarmingMissesPattern5();
    GlobalWarmingMissesPattern6();
    assert WholeWordAt("global warming", "global", 0);
    WorldPatternDecides("global warming");
  }

  /** The climate pattern matches "global warming" as well; only table order makes the topic `world`. */
  lemma ClimatePatternAlsoMatches()
    ensures HasWholeWordAny("global warming", DomainPatterns[10].words)
    ensures DomainPatterns[7].topic == "world" && DomainPatterns[10].topic == "climate"
  {
    assert WholeWordAt("global warming", "global warming", 0) && "global warming" in DomainPatterns[10].words;
  }

  /**
    The shape of "news about artificial intelligence" that decides its topic: its characters are among `abcefgilnorstuw` and
    the space, and none of `bu`, `na`, `sc`, `er`, `gl` occurs in it.
   */
  predicate AiMessageShape(m: string) {
    Among(m, " abcefgilnorstuw") && NoAdjacent(m, 'b', 'u') && NoAdjacent(m, 'n', 'a') && NoAdjacent(m, 's', 'c') && NoAdjacent(m, 'e', 'r') && NoAdjacent(m, 'g', 'l')
  }

  /** "news about artificial intelligence" has that shape. */
  lemma AiMessageHasShape()
    ensures AiMessageShape("news about artificial intelligence")
  {
    AiMessageAlphabet();
    AiMessageLacksBu();
    AiMessageLacksNa();
    AiMessageLacksSc();
    AiMessageLacksEr();
    AiMessageLacksGl();
  }

  lemma AiMessageAlphabet()
    ensures Among("news about artificial intelligence", " abcefgilnorstuw")
  {
  }

  lemma AiMessageLacksBu()
    ensures NoAdjacent("news about artificial intelligence", 'b', 'u')
  {
  }

  lemma AiMessageLacksNa()
    ensures NoAdjacent("news about artificial intelligence", 'n', 'a')
  {
  }

  lemma AiMessageLacksSc()
    ensures NoAdjacent("news about artificial intelligence", 's', 'c')
  {
  }

  lemma AiMessageLacksEr()
    ensures NoAdjacent("news about artificial intelligence", 'e', 'r')
  {
  }

  lemma AiMessageLacksGl()
    ensures NoAdjacent("news about artificial intelligence", 'g', 'l')
  {
  }

  /** No word of topic pattern 0 (`sports`) occurs in a message of that shape. */
  lemma AiShapeMissesPattern0(m: string)
    requires AiMessageShape(m)
    ensures !HasWholeWordAny(m, ["sports", "sport"])
  {
    Absent(m, " abcefgilnorstuw", ["sports", "sport"], [Lacks(1), Lacks(1)]);
  }

  /** No word of topic pattern 1 (`tech`) occurs in a message of that shape. */
  lemma AiShapeMissesPattern1(m: string)
    requires AiMessageShape(m)
    ensures !HasWholeWordAny(m, ["tech", "technology", "technological"])
  {
    Absent(m, " abcefgilnorstuw", ["tech", "technology", "technological"], [Lacks(3), Lacks(3), Lacks(3)]);
  }

  /** No word of topic pattern 2 (`politics`) occurs in a message of that shape. */
  lemma AiShapeMissesPattern2(m: string)
    requires AiMessageShape(m)
    ensures !HasWholeWordAny(m, ["politics", "politic", "political", "government"])
  {
    Absent(m, " abcefgilnorstuw", ["politics", "politic", "political", "government"], [Lacks(0), Lacks(0), Lacks(0), Lacks(2)]);
  }

  /** No word of topic pattern 3 (`health`) occurs in a message of that shape. */
  lemma AiShapeMissesPattern3(m: string)
    requires AiMessageShape(m)
    ensures !HasWholeWordAny(m, ["health", "medical", "healthcare"])
  {
    Absent(m, " abcefgilnorstuw", ["health", "medical", "healthcare"], [Lacks(0), Lacks(0), Lacks(0)]);
  }

  /** No word of topic pattern 4 (`business`) occurs in a message of that shape. */
  lemma AiShapeMissesPattern4(m: string)
    requires AiMessageShape(m)
    ensures !HasWholeWordAny(m, ["business", "economic", "economy", "finance", "financial"])
  {
    Absent(m, " abcefgilnorstuw", ["business", "economic", "economy", "finance", "financial"], [LacksAdjacent(0), Lacks(5), Lacks(5), LacksAdjacent(2), LacksAdjacent(2)]);
  }

  /** No word of topic pattern 5 (`entertainment`) occurs in a message of that shape. */
  lemma AiShapeMissesPattern5(m: string)
    requires AiMessageShape(m)
    ensures !HasWholeWordAny(m, ["entertainment", "celebrity", "movies", "movie", "films", "film"])
  {
    Absent(m, " abcefgilnorstuw", ["entertainment", "celebrity", "movies", "movie", "films", "film"], [Lacks(9), Lacks(8), Lacks(0), Lacks(0), Lacks(3), Lacks(3)]);
  }

  /** No word of topic pattern 6 (`science`) occurs in a message of that shape. */
  lemma AiShapeMissesPattern6(m: string)
    requires AiMessageShape(m)
    ensures !HasWholeWordAny(m, ["science", "scientific", "research"])
  {
    Absent(m, " abcefgilnorstuw", ["science", "scientific", "research"], [LacksAdjacent(0), LacksAdjacent(0), Lacks(7)]);
  }

  /** No word of topic pattern 7 (`world`) occurs in a message of that shape. */
  lemma AiShapeMissesPattern7(m: string)
    requires AiMessageShape(m)
    ensures !HasWholeWordAny(m, ["world", "international", "global"])
  {
    Absent(m, " abcefgilnorstuw", ["world", "international", "global"], [Lacks(4), LacksAdjacent(3), LacksAdjacent(0)]);
  }

  /** A message with `artificial intelligence` as a whole word and no word of the first eight patterns is about artificial intelligence. */
  lemma AiPatternDecides(m: string)
    requires !HasWholeWordAny(m, ["sports", "sport"])
    requires !HasWholeWordAny(m, ["tech", "technology", "technological"])
    requires !HasWholeWordAny(m, ["politics", "politic", "political", "government"])
    requires !HasWholeWordAny(m, ["health", "medical", "healthcare"])
    requires !HasWholeWordAny(m, ["business", "economic", "economy", "finance", "financial"])
    requires !HasWholeWordAny(m, ["entertainment", "celebrity", "movies", "movie", "films", "film"])
    requires !HasWholeWordAny(m, ["science", "scientific", "research"])
    requires !HasWholeWordAny(m, ["world", "international", "global"])
    requires HasWholeWord(m, "artificial intelligence")
    ensures ExtractTopic(m) == DomainPatterns[8].topic
    ensures DomainPatterns[8].topic == "artificial intelligence"
  {
    FirstFourPatternsMissed(m);
    NextFourPatternsMissed(m);
    assert "artificial intelligence" in DomainPatterns[8].words;
    DomainPriority(m, 8);
  }

  /** Missing the words of the first four patterns is missing those patterns. */
  lemma FirstFourPatternsMissed(m: string)
    requires !HasWholeWordAny(m, ["sports", "sport"])
    requires !HasWholeWordAny(m, ["tech", "technology", "technological"])
    requires !HasWholeWordAny(m, ["politics", "politic", "political", "government"])
    requires !HasWholeWordAny(m, ["health", "medical", "healthcare"])
    ensures forall j | 0 <= j < 4 :: !HasWholeWordAny(m, DomainPatterns[j].words)
  {
    assert DomainPatterns[0].words == ["sports", "sport"];
    assert DomainPatterns[1].words == ["tech", "technology", "technological"];
    assert DomainPatterns[2].words == ["politics", "politic", "political", "government"];
    assert DomainPatterns[3].words == ["health", "medical", "healthcare"];
  }

  /** Missing the words of patterns five to eight is missing those patterns. */
  lemma NextFourPatternsMissed(m: string)
    requires !HasWholeWordAny(m, ["business", "economic", "economy", "finance", "financial"])
    requires !HasWholeWordAny(m, ["entertainment", "celebrity", "movies", "movie", "films", "film"])
    requires !HasWholeWordAny(m, ["science", "scientific", "research"])
    requires !HasWholeWordAny(m, ["world", "international", "global"])
    ensures forall j | 4 <= j < 8 :: !HasWholeWordAny(m, DomainPatterns[j].words)
  {
    assert DomainPatterns[4].words == ["business", "economic", "economy", "finance", "financial"];
    assert DomainPatterns[5].words == ["entertainment", "celebrity", "movies", "movie", "films", "film"];
    assert DomainPatterns[6].words == ["science", "scientific", "research"];
    assert DomainPatterns[7].words == ["world", "international", "global"];
  }

  /** A message of that shape with `artificial intelligence` as a whole word is about artificial intelligence. */
  lemma AiShapeDecides(m: string)
    requires AiMessageShape(m)
    requires HasWholeWord(m, "artificial intelligence")
    ensures ExtractTopic(m) == "artificial intelligence"
  {
    AiShapeMissesPattern0(m);
    AiShapeMissesPattern1(m);
    AiShapeMissesPattern2(m);
    AiShapeMissesPattern3(m);
    AiShapeMissesPattern4(m);
    AiShapeMissesPattern5(m);
    AiShapeMissesPattern6(m);
    AiShapeMissesPattern7(m);
    AiPatternDecides(m);
  }

  /** `artificial intelligence` stands as a whole word at position 11 of "news about artificial intelligence". */
  lemma AiMessageHasPhrase()
    ensures HasWholeWord("news about artificial intelligence", "artificial intelligence")
  {
    OccursAtByChars("news about artificial intelligence", "artificial intelligence", 11);
    assert WholeWordAt("news about artificial intelligence", "artificial intelligence", 11);
  }

  /** "news about artificial intelligence" is resolved by the AI pattern before the about-capture is tried. */
  lemma NewsAboutArtificialIntelligence()
    ensures ExtractTopic("news about artificial intelligence") == "artificial intelligence"
  {
    AiMessageHasShape();
    AiMessageHasPhrase();
    AiShapeDecides("news about artificial intelligence");
  }

  // ---------------------------------------------------------------- parse_news_message

  /** What `parse_news_message` returns once each extractor's result is known. */
  lemma ParsedFrom(message: string, m: string, f: string, t: string, l: string)
    requires Lower(message) == m
    requires ExtractFrequency(m) == f
    requires ExtractTopic(m) == t
    requires ExtractLanguage(m) == l
    ensures ParseNewsMessage(message) == ParsedNewsRequest(f, t, l, FormatMessage(f, t, l))
  {
  }

  /** A message with the whole word `sports` is sports news: the sports pattern comes first. */
  lemma SportsPatternDecides(m: string)
    requires HasWholeWord(m, "sports")
    ensures ExtractTopic(m) == "sports"
  {
    assert "sports" in DomainPatterns[0].words;
    DomainPriority(m, 0);
  }

  /** A message that contains `hindi` but not `english` is to be translated into Hindi. */
  lemma HindiIsFirstCode(m: string)
    requires !Contains(m, "english") && Contains(m, "hindi")
    ensures ExtractLanguage(m) == "Hindi"
  {
    var codes := SupportedLanguages;
    assert Lower(codes[0].code) == "english" && Lower(codes[1].code) == "hindi" && codes[1].code == "Hindi";
    assert forall j | 0 <= j < 1 :: !Contains(m, Lower(codes[j].code));
    LanguageScanIsFirstCode(m, 1);
    assert LanguageScan(m) == Some(1);
  }

  /** The demonstration message does not contain `english`: no `e` in it is followed by an `n`. */
  lemma DemoMessageLacksEnglish()
    ensures !Contains("give me latest sports news in hindi", "english")
  {
    LacksPair("give me latest sports news in hindi", "english", 0);
  }

  /** The demonstration message, lower-cased one half at a time. */
  lemma DemoMessageLowered()
    ensures Lower("Give me latest sports news in Hindi") == "give me latest sports news in hindi"
  {
    LowerAppend("Give me latest ", "sports news in Hindi");
    DemoMessageHeadLowered();
    DemoMessageTailLowered();
    assert "Give me latest " + "sports news in Hindi" == "Give me latest sports news in Hindi";
    assert "give me latest " + "sports news in hindi" == "give me latest sports news in hindi";
  }

  /** The first three words of the demonstration message, lower-cased. */
  lemma DemoMessageHeadLowered()
    ensures Lower("Give me latest ") == "give me latest "
  {
    var s := "Give me latest ";
    assert forall i | 0 <= i < |s| :: LowerChar(s[i]) == "give me latest "[i];
  }

  /** The last four words of the demonstration message, lower-cased. */
  lemma DemoMessageTailLowered()
    ensures Lower("sports news in Hindi") == "sports news in hindi"
  {
    var s := "sports news in Hindi";
    assert forall i | 0 <= i < |s| :: LowerChar(s[i]) == "sports news in hindi"[i];
  }

  /** The lower-cased demonstration message asks for daily news: `latest` is a daily word. */
  lemma DemoMessageFrequency()
    ensures ExtractFrequency("give me latest sports news in hindi") == "daily"
  {
    OccursAtByChars("give me latest sports news in hindi", "latest", 8);
    DailyWordWins("give me latest sports news in hindi", "latest");
  }

  /** The lower-cased demonstration message is sports news. */
  lemma DemoMessageTopic()
    ensures ExtractTopic("give me latest sports news in hindi") == "sports"
  {
    OccursAtByChars("give me latest sports news in hindi", "sports", 15);
    assert WholeWordAt("give me latest sports news in hindi", "sports", 15);
    SportsPatternDecides("give me latest sports news in hindi");
  }

  /** The lower-cased demonstration message asks for Hindi. */
  lemma DemoMessageLanguage()
    ensures ExtractLanguage("give me latest sports news in hindi") == "Hindi"
  {
    OccursAtByChars("give me latest sports news in hindi", "hindi", 30);
    DemoMessageLacksEnglish();
    HindiIsFirstCode("give me latest sports news in hindi");
  }

  /** The demonstration message "Give me latest sports news in Hindi" parses to `daily:sports:Hindi`. */
  lemma GiveMeLatestSportsNewsInHindi()
    ensures ParseNewsMessage("Give me latest sports news in Hindi") == ParsedNewsRequest("daily", "sports", "Hindi", FormatMessage("daily", "sports", "Hindi"))
  {
    DemoMessageLowered();
    DemoMessageFrequency();
    DemoMessageTopic();
    DemoMessageLanguage();
    ParsedFrom("Give me latest sports news in Hindi", "give me latest sports news in hindi", "daily", "sports", "Hindi");
  }

  /** `news about quantum` captures `quantum`, which is accepted as the topic. */
  lemma NewsAboutQuantum()
    ensures Search(About, "news about quantum", 0) == Some("quantum")
    ensures CapturedTopic("news about quantum") == Some("quantum")
  {
    assert "news about " + "quantum" == "news about quantum";
    AboutCapturesLastWord("quantum");
    assert IsTrimmed("quantum");
  }

  /** `give me sports news` captures `sports` with the second pattern. */
  lemma GiveMeSportsNews()
    ensures Search(Give, "give me sports news", 0) == Some("sports")
  {
    assert "give me " + "sports" + " news" == "give me sports news";
    GiveCapturesWordBeforeNews("sports");
  }
}
