/**
  `NewsMessageParser`: the rule-based reader that decides whether a chat message asks for news and
  turns it into the `frequency:topic:language` string the news pipeline consumes.

  Every regular expression of the parser is written out as a hand-made matcher over the lower-cased
  message. The matchers follow the order in which Python's backtracking engine tries things:
  alternatives left to right, a greedy `\s+` longest first, a lazy group shortest first, and
  `re.search` at the leftmost start that matches. Only the first match is ever used.
 */
module MessageParser {
  import opened Wrappers
  import opened Text
  import opened Languages

  // ---------------------------------------------------------------- the keyword tables

  /** One entry of `time_keywords`: a frequency and the words that select it. */
  datatype Bucket = Bucket(frequency: string, words: seq<string>)

  /** `time_keywords`, in insertion order (which is the order the extractor tries them in). */
  const TimeKeywords: seq<Bucket> := [
    Bucket("daily", ["daily", "today", "current", "latest", "recent"]),
    Bucket("weekly", ["weekly", "week", "this week", "past week"]),
    Bucket("monthly", ["monthly", "month", "this month", "past month"]),
    Bucket("yearly", ["yearly", "year", "annual", "this year"])
  ]

  const NewsKeywords: seq<string> := [
    "news", "latest", "update", "current", "recent", "breaking",
    "headlines", "stories", "reports", "coverage", "articles"
  ]

  /** The subject alternatives of the first topic pattern of `is_news_request` (`sports?` spelt out). */
  const SubjectWords: seq<string> := [
    "sports", "sport", "technology", "tech", "politics", "politic", "health", "business",
    "entertainment", "science", "world", "international"
  ]

  /** The request phrases of the second topic pattern of `is_news_request`. */
  const IntentPhrases: seq<string> := ["give me", "show me", "get me", "fetch", "provide", "tell me about"]

  /** `(news|updates?|headlines?)`, in the order the engine tries the alternatives. */
  const NewsNouns: seq<string> := ["news", "updates", "update", "headlines", "headline"]

  const Prepositions: seq<string> := ["about", "on", "regarding", "for"]

  const RecencyWords: seq<string> := ["latest", "recent", "current"]

  /** One entry of the topic table: the alternatives of its pattern and the topic it yields. */
  datatype Domain = Domain(words: seq<string>, topic: string)

  /** The twelve topic patterns of `_extract_topic`, in insertion order, optional suffixes spelt out. */
  const DomainPatterns: seq<Domain> := [
    Domain(["sports", "sport"], "sports"),
    Domain(["tech", "technology", "technological"], "technology"),
    Domain(["politics", "politic", "political", "government"], "politics"),
    Domain(["health", "medical", "healthcare"], "health"),
    Domain(["business", "economic", "economy", "finance", "financial"], "business"),
    Domain(["entertainment", "celebrity", "movies", "movie", "films", "film"], "entertainment"),
    Domain(["science", "scientific", "research"], "science"),
    Domain(["world", "international", "global"], "world"),
    Domain(["ai", "artificial intelligence", "machine learning", "ml"], "artificial intelligence"),
    Domain(["crypto", "cryptocurrency", "bitcoin", "blockchain"], "cryptocurrency"),
    Domain(["climate", "environment", "environmental", "global warming"], "climate"),
    Domain(["education", "educational", "school", "university"], "education")
  ]

  const DefaultTopic: string := "general news"

  const DefaultLanguage: string := "English"

  predicate IsFrequencyName(f: string) {
    f == "daily" || f == "weekly" || f == "monthly" || f == "yearly"
  }

  // ---------------------------------------------------------------- is_news_request

  predicate HasNewsKeyword(m: string) {
    ContainsAny(m, NewsKeywords)
  }

  predicate HasTimeKeyword(m: string) {
    exists k | 0 <= k < |TimeKeywords| :: ContainsAny(m, TimeKeywords[k].words)
  }

  /**
    `\b(give me|show me|get me|fetch|provide|tell me about)\b.*\b(news|updates?|headlines?)\b`:
    a request phrase and, later on the same line (`.` does not match a newline), a news noun, both
    standing as whole words.
   */
  predicate IntentThenNoun(m: string) {
    exists a, p, n, q | a in IntentPhrases && n in NewsNouns && 0 <= p && p + |a| <= q <= |m| ::
      WholeWordAt(m, a, p) && WholeWordAt(m, n, q) && '\n' !in m[p + |a|..q]
  }

  /**
    `\s+` from `i` followed by one of `words` and then `\b`. None of the words starts with
    whitespace, so the greedy `\s+` can only succeed by taking the whole run of whitespace.
   */
  predicate SpacedWordAt(m: string, i: nat, words: seq<string>)
    requires i <= |m|
  {
    var j := SpaceEnd(m, i);
    j > i && exists w | w in words :: OccursAt(m, w, j) && WordBoundary(m, j + |w|)
  }

  /** `\bnews\s+(about|on|regarding|for)\b`. */
  predicate NewsPreposition(m: string) {
    exists i | 0 <= i <= |m| :: WordBoundary(m, i) && OccursAt(m, "news", i) && SpacedWordAt(m, i + 4, Prepositions)
  }

  /** `\b(latest|recent|current)\s+(news|updates?|headlines?)\b`. */
  predicate RecentNoun(m: string) {
    exists r, i | r in RecencyWords && 0 <= i <= |m| ::
      WordBoundary(m, i) && OccursAt(m, r, i) && SpacedWordAt(m, i + |r|, NewsNouns)
  }

  /** Any of the four topic patterns of `is_news_request` is found. */
  predicate HasTopicPattern(m: string) {
    || HasWholeWordAny(m, SubjectWords)
    || IntentThenNoun(m)
    || NewsPreposition(m)
    || RecentNoun(m)
  }

  /** `is_news_request`: a news keyword, or a time word together with a topic pattern. */
  predicate IsNewsRequest(message: string) {
    var m := Lower(message);
    HasNewsKeyword(m) || (HasTimeKeyword(m) && HasTopicPattern(m))
  }

  // ---------------------------------------------------------------- _extract_frequency

  /** The first bucket, in table order, one of whose words occurs in `m`. */
  function FrequencyBucket(m: string): Option<nat> {
    Find(m, TimeKeywords, (m: string, b: Bucket) => ContainsAny(m, b.words))
  }

  /** `_extract_frequency`: the first bucket with a word in `m`, else `daily`. */
  function ExtractFrequency(m: string): (f: string)
    ensures IsFrequencyName(f)
  {
    match FrequencyBucket(m)
    case Some(k) => TimeKeywords[k].frequency
    case None => "daily"
  }

  // ---------------------------------------------------------------- _extract_topic

  /** The first topic pattern, in table order, that matches `m` as a whole word. */
  function DomainMatch(m: string): Option<nat> {
    Find(m, DomainPatterns, (m: string, d: Domain) => HasWholeWordAny(m, d.words))
  }

  /** The characters of `[a-zA-Z\s]`. */
  predicate InGroupClass(c: char) {
    IsAsciiLetter(c) || IsSpace(c)
  }

  /** What a captured group is made of: at least one character, all from `[a-zA-Z\s]`. */
  predicate GroupShape(g: string) {
    |g| > 0 && forall c | c in g :: InGroupClass(c)
  }

  /** The two capture patterns of `_extract_topic`. */
  datatype Capture = About | Give

  /** The alternatives each capture pattern opens with, in the engine's order. */
  function Heads(kind: Capture): seq<string> {
    match kind
    case About => NewsNouns
    case Give => ["give me", "show me", "get me", "fetch", "provide"]
  }

  /**
    The tail that ends the lazy group at `e`. For `About` it is `(?:\s+in\s+|\s+news|\s*$)`; a
    greedy `\s*$` reaches the end exactly when only whitespace is left. For `Give` it is
    `\s+(news|updates?|headlines?)\b`. In both, backing a `\s+` off would leave whitespace in front
    of a letter, so the run of whitespace is always taken whole.
   */
  predicate StopsAt(kind: Capture, s: string, e: nat) {
    e <= |s| &&
    var j := SpaceEnd(s, e);
    match kind
    case About =>
      || (j > e && OccursAt(s, "in", j) && j + 2 < |s| && IsSpace(s[j + 2]))
      || (j > e && OccursAt(s, "news", j))
      || j == |s|
    case Give =>
      j > e && exists n | n in NewsNouns :: OccursAt(s, n, j) && WordBoundary(s, j + |n|)
  }

  /** The tail test of a pattern over `s`, as a function of the position the group ends at. */
  function Tail(kind: Capture, s: string): nat -> bool {
    (e: nat) => StopsAt(kind, s, e)
  }

  /**
    The lazy group `([a-zA-Z\s]+?)` that starts at `g` and is being tried with end `e`: it grows one
    character at a time until the tail `stops` matches, and fails at the first character outside the
    class.
   */
  function LazyGroup(stops: nat -> bool, s: string, g: nat, e: nat): (r: Option<string>)
    requires g < e
    requires forall i | g <= i < e - 1 && i < |s| :: InGroupClass(s[i])
    ensures r.Some? ==> GroupShape(r.value)
    decreases |s| + 1 - e
  {
    if e > |s| || !InGroupClass(s[e - 1]) then None
    else if stops(e) then
      GroupShapeOfRun(s, g, e);
      Some(s[g..e])
    else LazyGroup(stops, s, g, e + 1)
  }

  lemma GroupShapeOfRun(s: string, g: nat, e: nat)
    requires g < e <= |s|
    requires forall i | g <= i < e :: InGroupClass(s[i])
    ensures GroupShape(s[g..e])
  {
    assert forall c | c in s[g..e] :: InGroupClass(c);
  }

  /**
    The greedy `\s+` that runs from `i`, currently taking the spaces up to `k`, followed by the
    lazy group; on failure it gives back one space at a time.
   */
  function SpacesThenGroup(kind: Capture, s: string, i: nat, k: nat): (r: Option<string>)
    requires i < k <= |s|
    ensures r.Some? ==> GroupShape(r.value)
    decreases k
  {
    var r := LazyGroup(Tail(kind, s), s, k, k + 1);
    if r.Some? then r
    else if k - 1 > i then SpacesThenGroup(kind, s, i, k - 1)
    else None
  }

  /** `\s+(about|on|regarding|for)\s+` then the group, trying the prepositions from index `n` on. */
  function TryPrepositions(s: string, j: nat, n: nat): (r: Option<string>)
    requires j <= |s| && n <= |Prepositions|
    ensures r.Some? ==> GroupShape(r.value)
    decreases |Prepositions| - n
  {
    if n == |Prepositions| then None
    else
      var w := Prepositions[n];
      var r :=
        if OccursAt(s, w, j) && SpaceEnd(s, j + |w|) > j + |w| then
          SpacesThenGroup(About, s, j + |w|, SpaceEnd(s, j + |w|))
        else None;
      if r.Some? then r else TryPrepositions(s, j, n + 1)
  }

  /** Everything after the opening alternative, which ended at `i`. */
  function AfterHead(kind: Capture, s: string, i: nat): (r: Option<string>)
    requires i <= |s|
    ensures r.Some? ==> GroupShape(r.value)
  {
    var j := SpaceEnd(s, i);
    if j == i then None
    else
      match kind
      case About => TryPrepositions(s, j, 0)
      case Give => SpacesThenGroup(Give, s, i, j)
  }

  /** The opening alternatives at `p`, from index `n` on, each followed by the rest of the pattern. */
  function TryHeads(kind: Capture, s: string, p: nat, n: nat): (r: Option<string>)
    requires p <= |s| && n <= |Heads(kind)|
    ensures r.Some? ==> GroupShape(r.value)
    decreases |Heads(kind)| - n
  {
    if n == |Heads(kind)| then None
    else
      var h := Heads(kind)[n];
      var r := if OccursAt(s, h, p) then AfterHead(kind, s, p + |h|) else None;
      if r.Some? then r else TryHeads(kind, s, p, n + 1)
  }

  /** The pattern tried at start `p`: `\b`, then the alternatives in order. */
  function MatchAt(kind: Capture, s: string, p: nat): (r: Option<string>)
    requires p <= |s|
    ensures r.Some? ==> GroupShape(r.value)
  {
    if WordBoundary(s, p) then TryHeads(kind, s, p, 0) else None
  }

  /** `re.search` from `p` on: the captured group of the leftmost start at which the pattern matches. */
  function Search(kind: Capture, s: string, p: nat): (r: Option<string>)
    requires p <= |s|
    ensures r.Some? ==> GroupShape(r.value)
    ensures r.Some? ==> exists q | p <= q <= |s| ::
      r == MatchAt(kind, s, q) && forall q' | p <= q' < q :: MatchAt(kind, s, q').None?
    ensures r.None? ==> forall q | p <= q <= |s| :: MatchAt(kind, s, q).None?
    decreases |s| - p
  {
    var r := MatchAt(kind, s, p);
    if r.Some? then r
    else if p == |s| then None
    else Search(kind, s, p + 1)
  }

  /** A captured group is used when, stripped, it is longer than one character. */
  function Accepted(g: Option<string>): (r: Option<string>)
    requires g.Some? ==> GroupShape(g.value)
    ensures r.Some? ==> |r.value| > 1 && IsTrimmed(r.value) && forall c | c in r.value :: InGroupClass(c)
    ensures r.Some? <==> g.Some? && |Strip(g.value)| > 1
  {
    if g.Some? && |Strip(g.value)| > 1 then Some(Strip(g.value)) else None
  }

  /** The about-capture if it is accepted, else the give-capture if it is accepted. */
  function CapturedTopic(m: string): (r: Option<string>)
    ensures r.Some? ==> |r.value| > 1 && IsTrimmed(r.value) && forall c | c in r.value :: InGroupClass(c)
  {
    var about := Accepted(Search(About, m, 0));
    if about.Some? then about else Accepted(Search(Give, m, 0))
  }

  /** The topic of the first pattern that matched, else the captured topic, else the default. */
  function FirstTopic(domain: Option<nat>, captured: Option<string>): (t: string)
    requires domain.Some? ==> domain.value < |DomainPatterns|
    requires captured.Some? ==> |captured.value| > 1 && IsTrimmed(captured.value)
    requires captured.Some? ==> forall c | c in captured.value :: InGroupClass(c)
    ensures t != [] && ':' !in t && IsTrimmed(t)
  {
    match domain
    case Some(k) =>
      DomainTopicsAreColonFree();
      DomainTopicsAreTrimmed();
      DomainPatterns[k].topic
    case None =>
      match captured
      case Some(t) =>
        assert !InGroupClass(':');
        t
      case None => DefaultTopic
  }

  /** `_extract_topic`: the first topic pattern, else the about-capture, else the give-capture. */
  function ExtractTopic(m: string): (t: string)
    ensures t != [] && ':' !in t && IsTrimmed(t)
  {
    FirstTopic(DomainMatch(m), CapturedTopic(m))
  }

  /** Every topic of the table is non-empty and free of `:` (checked four entries at a time). */
  lemma DomainTopicsAreColonFree()
    ensures forall k | 0 <= k < |DomainPatterns| :: DomainPatterns[k].topic != [] && ':' !in DomainPatterns[k].topic
  {
    DomainTopicsAreColonFree0to3();
    DomainTopicsAreColonFree4to7();
    DomainTopicsAreColonFree8to11();
  }

  lemma DomainTopicsAreColonFree0to3()
    ensures forall k | 0 <= k < 4 :: DomainPatterns[k].topic != [] && ':' !in DomainPatterns[k].topic
  {
  }

  lemma DomainTopicsAreColonFree4to7()
    ensures forall k | 4 <= k < 8 :: DomainPatterns[k].topic != [] && ':' !in DomainPatterns[k].topic
  {
  }

  lemma DomainTopicsAreColonFree8to11()
    ensures forall k | 8 <= k < 12 :: DomainPatterns[k].topic != [] && ':' !in DomainPatterns[k].topic
  {
  }

  /** No topic of the table starts or ends with whitespace. */
  lemma DomainTopicsAreTrimmed()
    ensures forall k | 0 <= k < |DomainPatterns| :: IsTrimmed(DomainPatterns[k].topic)
  {
    DomainTopicsAreTrimmed0to5();
    DomainTopicsAreTrimmed6to11();
  }

  lemma DomainTopicsAreTrimmed0to5()
    ensures forall k | 0 <= k < 6 :: IsTrimmed(DomainPatterns[k].topic)
  {
    assert DomainPatterns[0].topic == "sports";
    assert DomainPatterns[1].topic == "technology";
    assert DomainPatterns[2].topic == "politics";
    assert DomainPatterns[3].topic == "health";
    assert DomainPatterns[4].topic == "business";
    assert DomainPatterns[5].topic == "entertainment";
  }

  lemma DomainTopicsAreTrimmed6to11()
    ensures forall k | 6 <= k < 12 :: IsTrimmed(DomainPatterns[k].topic)
  {
    assert DomainPatterns[6].topic == "science";
    assert DomainPatterns[7].topic == "world";
    assert DomainPatterns[8].topic == "artificial intelligence";
    assert DomainPatterns[9].topic == "cryptocurrency";
    assert DomainPatterns[10].topic == "climate";
    assert DomainPatterns[11].topic == "education";
  }

  // ---------------------------------------------------------------- _extract_language

  /** The three variations the language scan looks for. */
  function Variations(e: Language): seq<string> {
    [Lower(e.code), Lower(e.displayName), Lower(NameBeforeParenthesis(e.displayName))]
  }

  /** An entry is mentioned when any of its variations occurs in the message. */
  predicate Mentions(m: string, e: Language) {
    ContainsAny(m, Variations(e))
  }

  /** The first entry, in table order, that the message mentions. */
  function LanguageScan(m: string): Option<nat> {
    Find(m, SupportedLanguages, Mentions)
  }

  /** The alternatives of `\b(in|translate to|convert to)\s+([a-zA-Z]+)\b`. */
  const MentionHeads: seq<string> := ["in", "translate to", "convert to"]

  /** The end of the run of ASCII letters that starts at `i`. */
  function LetterEnd(s: string, i: nat): (j: nat)
    requires i <= |s|
    ensures i <= j <= |s|
    ensures forall k | i <= k < j :: IsAsciiLetter(s[k])
    ensures j == |s| || !IsAsciiLetter(s[j])
    decreases |s| - i
  {
    if i < |s| && IsAsciiLetter(s[i]) then LetterEnd(s, i + 1) else i
  }

  /**
    `\s+([a-zA-Z]+)\b` after an alternative that ended at `i`. Backing off either greedy run
    cannot help (a letter group cannot start with whitespace, and `\b` never holds between two
    letters), so only the longest runs are tried.
   */
  function MentionAfter(s: string, i: nat): (r: Option<string>)
    requires i <= |s|
    ensures r.Some? ==> |r.value| > 0 && forall c | c in r.value :: IsAsciiLetter(c)
  {
    var j := SpaceEnd(s, i);
    if j == i then None
    else
      var e := LetterEnd(s, j);
      if e > j && WordBoundary(s, e) then Some(s[j..e]) else None
  }

  function TryMentionHeads(s: string, p: nat, n: nat): (r: Option<string>)
    requires p <= |s| && n <= |MentionHeads|
    ensures r.Some? ==> |r.value| > 0 && forall c | c in r.value :: IsAsciiLetter(c)
    decreases |MentionHeads| - n
  {
    if n == |MentionHeads| then None
    else
      var h := MentionHeads[n];
      var r := if OccursAt(s, h, p) then MentionAfter(s, p + |h|) else None;
      if r.Some? then r else TryMentionHeads(s, p, n + 1)
  }

  function MentionAt(s: string, p: nat): (r: Option<string>)
    requires p <= |s|
    ensures r.Some? ==> |r.value| > 0 && forall c | c in r.value :: IsAsciiLetter(c)
  {
    if WordBoundary(s, p) then TryMentionHeads(s, p, 0) else None
  }

  /** `re.search` of the language-mention pattern from `p` on: the word of the leftmost match. */
  function MentionSearch(s: string, p: nat): (r: Option<string>)
    requires p <= |s|
    ensures r.Some? ==> |r.value| > 0 && forall c | c in r.value :: IsAsciiLetter(c)
    ensures r.Some? ==> exists q | p <= q <= |s| ::
      r == MentionAt(s, q) && forall q' | p <= q' < q :: MentionAt(s, q').None?
    ensures r.None? ==> forall q | p <= q <= |s| :: MentionAt(s, q).None?
    decreases |s| - p
  {
    var r := MentionAt(s, p);
    if r.Some? then r
    else if p == |s| then None
    else MentionSearch(s, p + 1)
  }

  /** The fallback lookup: the word occurs in the lower-cased display name, or is the lower-cased code. */
  predicate NamesMention(w: string, e: Language) {
    Contains(Lower(e.displayName), w) || w == Lower(e.code)
  }

  function LookupMention(w: string): Option<nat> {
    Find(w, SupportedLanguages, NamesMention)
  }

  /** The fallback: the word of the leftmost language mention, looked up in the table. */
  function MentionedLanguage(m: string): (r: Option<nat>)
    ensures r.Some? ==> r.value < |SupportedLanguages|
  {
    match MentionSearch(m, 0)
    case None => None
    case Some(g) => LookupMention(Lower(g))
  }

  /** The code of the entry the scan found, else of the entry the fallback found, else `English`. */
  function FirstLanguage(scan: Option<nat>, mentioned: Option<nat>): (l: string)
    requires scan.Some? ==> scan.value < |SupportedLanguages|
    requires mentioned.Some? ==> mentioned.value < |SupportedLanguages|
    ensures IsSupported(l)
  {
    assert SupportedLanguages[0].code == DefaultLanguage;
    match scan
    case Some(k) => SupportedLanguages[k].code
    case None =>
      match mentioned
      case Some(k) => SupportedLanguages[k].code
      case None => DefaultLanguage
  }

  /** `_extract_language`: the table scan, else the mention pattern and its lookup, else `English`. */
  function ExtractLanguage(m: string): (l: string)
    ensures IsSupported(l)
  {
    FirstLanguage(LanguageScan(m), MentionedLanguage(m))
  }

  // ---------------------------------------------------------------- parse_news_message

  /** The dictionary `parse_news_message` returns. */
  datatype ParsedNewsRequest = ParsedNewsRequest(frequency: string, topic: string, language: string, formattedMessage: string)

  /** `f"{frequency}:{topic}:{language}"`, which splits back into the three fields when none holds a `:`. */
  function FormatMessage(frequency: string, topic: string, language: string): (r: string)
    ensures ':' !in frequency && ':' !in topic && ':' !in language ==> Split(r, ':') == [frequency, topic, language]
  {
    var r := frequency + ":" + topic + ":" + language;
    if ':' !in frequency && ':' !in topic && ':' !in language then
      var parts := [frequency, topic, language];
      assert Join(parts, ':') == r by {
        assert Join(parts[1..], ':') == topic + ":" + language;
      }
      SplitJoin(parts, ':');
      r
    else r
  }

  /**
    `parse_news_message`: the three extractors over the message lower-cased once. The frequency is
    one of the four names, the topic is never empty, the language is a key of the table, and the
    formatted message splits on `:` into exactly the three fields.
   */
  function ParseNewsMessage(message: string): (r: ParsedNewsRequest)
    ensures IsFrequencyName(r.frequency)
    ensures r.topic != [] && ':' !in r.topic && IsTrimmed(r.topic)
    ensures IsSupported(r.language)
    ensures Split(r.formattedMessage, ':') == [r.frequency, r.topic, r.language]
  {
    var m := Lower(message);
    var f := ExtractFrequency(m);
    var t := ExtractTopic(m);
    var l := ExtractLanguage(m);
    FormatFields(f, t, l);
    ParsedNewsRequest(f, t, l, FormatMessage(f, t, l))
  }

  /** A supported code never contains `:`. */
  lemma SupportedHasNoColon(l: string)
    requires IsSupported(l)
    ensures ':' !in l && l != []
  {
    var k :| 0 <= k < |SupportedLanguages| && SupportedLanguages[k].code == l;
    CodesArePlainWords(k);
  }

  /** The three fields survive the colon format. */
  lemma FormatFields(f: string, t: string, l: string)
    requires IsFrequencyName(f) && ':' !in t && IsSupported(l)
    ensures Split(FormatMessage(f, t, l), ':') == [f, t, l]
  {
    SupportedHasNoColon(l);
    FrequencyHasNoColon(f);
  }

  /** None of the four frequency names contains `:`. */
  lemma FrequencyHasNoColon(f: string)
    requires IsFrequencyName(f)
    ensures ':' !in f
  {
  }

  // ---------------------------------------------------------------- properties

  /** A word that does not occur in `s` occurs nowhere in it as a whole word either. */
  lemma NoWholeWordWithout(s: string, w: string)
    requires !Contains(s, w)
    ensures !HasWholeWord(s, w)
    ensures forall p :: !WholeWordAt(s, w, p)
  {
    forall p ensures !WholeWordAt(s, w, p) {
      assert WholeWordAt(s, w, p) ==> 0 <= p <= |s| && OccursAt(s, w, p);
    }
  }

  /** Nothing non-empty occurs in the empty message, so it is not a news request. */
  lemma EmptyIsNotNews()
    ensures !IsNewsRequest("")
  {
    assert Lower("") == "";
    forall w: string | w != [] ensures !Contains("", w) {
      NotContainsByChar("", w, 0);
    }
    assert forall k | 0 <= k < |TimeKeywords| :: forall w | w in TimeKeywords[k].words :: w != [];
  }

  /** Any of the eleven news keywords, in any letter case, makes a message a news request. */
  lemma NewsKeywordSuffices(message: string, k: nat)
    requires k < |NewsKeywords| && Contains(Lower(message), NewsKeywords[k])
    ensures IsNewsRequest(message)
  {
    assert NewsKeywords[k] in NewsKeywords;
  }

  /** Without a news keyword, a message is a news request exactly when a time word and a topic pattern both occur. */
  lemma WithoutKeywordNeedsTimeAndTopic(message: string)
    requires forall k | 0 <= k < |NewsKeywords| :: !Contains(Lower(message), NewsKeywords[k])
    ensures IsNewsRequest(message) <==> HasTimeKeyword(Lower(message)) && HasTopicPattern(Lower(message))
  {
    var m := Lower(message);
    forall w | w in NewsKeywords ensures !Contains(m, w) {
      var k :| 0 <= k < |NewsKeywords| && NewsKeywords[k] == w;
    }
  }

  /**
    Each topic pattern needs one of its own words in the message: a subject word, a request phrase,
    `news`, or a recency word.
   */
  lemma TopicPatternNeedsWords(m: string)
    ensures HasTopicPattern(m) ==>
              || HasWholeWordAny(m, SubjectWords)
              || ContainsAny(m, IntentPhrases)
              || Contains(m, "news")
              || ContainsAny(m, RecencyWords)
  {
    if IntentThenNoun(m) {
      var a, p, n, q :| a in IntentPhrases && n in NewsNouns && 0 <= p && p + |a| <= q <= |m| &&
        WholeWordAt(m, a, p) && WholeWordAt(m, n, q) && '\n' !in m[p + |a|..q];
      assert Contains(m, a);
    }
    if NewsPreposition(m) {
      var i :| 0 <= i <= |m| && WordBoundary(m, i) && OccursAt(m, "news", i) && SpacedWordAt(m, i + 4, Prepositions);
      assert Contains(m, "news");
    }
    if RecentNoun(m) {
      var r, i :| r in RecencyWords && 0 <= i <= |m| &&
        WordBoundary(m, i) && OccursAt(m, r, i) && SpacedWordAt(m, i + |r|, NewsNouns);
      assert Contains(m, r);
    }
  }

  /**
    The frequency is the first bucket, in table order, with a word in the message: a later bucket
    is chosen exactly when it has a word in the message and no earlier bucket has one, and `daily`
    is chosen when its own words occur or no bucket's words do.
   */
  lemma FrequencyIsFirstBucket(m: string, k: nat)
    requires 0 < k < |TimeKeywords|
    ensures ExtractFrequency(m) == TimeKeywords[k].frequency <==>
              ContainsAny(m, TimeKeywords[k].words) && forall j | 0 <= j < k :: !ContainsAny(m, TimeKeywords[j].words)
    ensures ExtractFrequency(m) == "daily" <==>
              ContainsAny(m, TimeKeywords[0].words) || forall j | 0 <= j < |TimeKeywords| :: !ContainsAny(m, TimeKeywords[j].words)
  {
    var p := (m: string, b: Bucket) => ContainsAny(m, b.words);
    FindIsFirst(m, TimeKeywords, p, k);
    FindIsFirst(m, TimeKeywords, p, 0);
    var r := FrequencyBucket(m);
    FrequenciesOfTable();
    assert r.Some? ==> r.value < 4 && TimeKeywords[r.value].frequency == Frequencies[r.value];
  }

  /** The frequency names in table order. */
  const Frequencies: seq<string> := ["daily", "weekly", "monthly", "yearly"]

  /** The buckets carry the frequency names in table order, pairwise distinct, `daily` first. */
  lemma FrequenciesOfTable()
    ensures |Frequencies| == |TimeKeywords|
    ensures forall k | 0 <= k < |TimeKeywords| :: TimeKeywords[k].frequency == Frequencies[k]
    ensures forall i, j | 0 <= i < j < |Frequencies| :: Frequencies[i] != Frequencies[j]
    ensures Frequencies[0] == "daily"
  {
  }

  /** A daily word wins over every other bucket: "latest weekly news" is daily news. */
  lemma DailyWordWins(m: string, w: string)
    requires w in TimeKeywords[0].words && Contains(m, w)
    ensures ExtractFrequency(m) == "daily"
  {
    FrequencyIsFirstBucket(m, 1);
  }

  /** The topic patterns are tried in table order: the first that matches decides the topic. */
  lemma DomainPriority(m: string, k: nat)
    requires k < |DomainPatterns|
    requires HasWholeWordAny(m, DomainPatterns[k].words)
    requires forall j | 0 <= j < k :: !HasWholeWordAny(m, DomainPatterns[j].words)
    ensures DomainMatch(m) == Some(k)
    ensures ExtractTopic(m) == DomainPatterns[k].topic
  {
    FindIsFirst(m, DomainPatterns, (m: string, d: Domain) => HasWholeWordAny(m, d.words), k);
  }

  /** Topic names of the patterns before the climate pattern, none of which is `climate`. */
  lemma TopicsBeforeClimate()
    ensures forall k | 0 <= k < 8 :: DomainPatterns[k].topic != "climate"
    ensures DomainPatterns[10].topic == "climate"
  {
  }

  /**
    "global warming" never yields `climate`: it contains the whole word "global", so the world
    pattern, which comes earlier, matches first.
   */
  lemma GlobalWarmingIsNeverClimate(m: string)
    requires HasWholeWord(m, "global warming")
    ensures DomainMatch(m).Some? && DomainMatch(m).value <= 7
    ensures ExtractTopic(m) != "climate"
  {
    var i :| 0 <= i <= |m| && WholeWordAt(m, "global warming", i);
    assert m[i..i + 14] == "global warming";
    assert m[i..i + 6] == m[i..i + 14][..6];
    assert m[i + 5] == m[i..i + 14][5] && m[i + 6] == m[i..i + 14][6];
    assert WholeWordAt(m, "global", i);
    assert "global" in DomainPatterns[7].words;
    assert HasWholeWordAny(m, DomainPatterns[7].words);
    var r := DomainMatch(m);
    assert r.Some? && r.value <= 7;
    TopicsBeforeClimate();
  }

  /**
    What the topic is made of: the first matching pattern's topic; otherwise a captured group,
    stripped, longer than one character and made of ASCII letters and whitespace; otherwise
    `general news`.
   */
  lemma TopicShape(m: string)
    ensures DomainMatch(m).Some? ==> ExtractTopic(m) == DomainPatterns[DomainMatch(m).value].topic
    ensures DomainMatch(m).None? && CapturedTopic(m).None? ==> ExtractTopic(m) == DefaultTopic
    ensures DomainMatch(m).None? && CapturedTopic(m).Some? ==>
              var t := ExtractTopic(m);
              |t| > 1 && IsTrimmed(t) && forall c | c in t :: InGroupClass(c)
  {
  }

  /** The about-capture is preferred to the give-capture; each is used only when it is accepted. */
  lemma CapturePreference(m: string)
    ensures Accepted(Search(About, m, 0)).Some? ==> CapturedTopic(m) == Accepted(Search(About, m, 0))
    ensures Accepted(Search(About, m, 0)).None? ==> CapturedTopic(m) == Accepted(Search(Give, m, 0))
    ensures CapturedTopic(m).Some? ==> exists kind: Capture, g :: Search(kind, m, 0) == Some(g) && CapturedTopic(m) == Some(Strip(g))
  {
    var a := Search(About, m, 0);
    var b := Search(Give, m, 0);
    if Accepted(a).Some? {
      assert CapturedTopic(m) == Some(Strip(a.value));
    } else if Accepted(b).Some? {
      assert CapturedTopic(m) == Some(Strip(b.value));
    }
  }

  /** A message that contains none of a pattern's opening alternatives never matches it. */
  lemma NoCaptureWithoutHead(kind: Capture, s: string)
    requires forall h | h in Heads(kind) :: !Contains(s, h)
    ensures Search(kind, s, 0).None?
  {
    forall q | 0 <= q <= |s| ensures MatchAt(kind, s, q).None? {
      NoHeadAt(kind, s, q, 0);
    }
  }

  /** No opening alternative at `p` means no match starts at `p`. */
  lemma {:induction false} NoHeadAt(kind: Capture, s: string, p: nat, n: nat)
    requires p <= |s| && n <= |Heads(kind)|
    requires forall h | h in Heads(kind) :: !OccursAt(s, h, p)
    ensures TryHeads(kind, s, p, n).None?
    decreases |Heads(kind)| - n
  {
    if n < |Heads(kind)| {
      assert Heads(kind)[n] in Heads(kind);
      NoHeadAt(kind, s, p, n + 1);
    }
  }

  /**
    The lazy group grows one character at a time up to the first end at which the tail matches:
    when every character before `f` is in the class, the tail fails at every end from `e` up to
    `f` and holds at `f`, the group is `s[g..f]`.
   */
  lemma {:induction false} LazyGroupRun(stops: nat -> bool, s: string, g: nat, e: nat, f: nat)
    requires g < e <= f <= |s|
    requires forall i | g <= i < f :: InGroupClass(s[i])
    requires forall k: nat | e <= k < f :: !stops(k)
    requires stops(f)
    ensures LazyGroup(stops, s, g, e) == Some(s[g..f])
    decreases f - e
  {
    if e < f {
      LazyGroupRun(stops, s, g, e + 1, f);
    }
  }

  /**
    A match at the very start: `news`, one space, `about`, one space, then the lazy group starting
    at 11 is what `Search` returns.
   */
  lemma AboutMatchFromStart(s: string, x: string)
    requires OccursAt(s, NewsNouns[0], 0) && SpaceEnd(s, 4) == 5
    requires OccursAt(s, Prepositions[0], 5) && SpaceEnd(s, 10) == 11
    requires LazyGroup(Tail(About, s), s, 11, 12) == Some(x)
    ensures Search(About, s, 0) == Some(x)
  {
    assert s[0] == NewsNouns[0][0];
    assert WordBoundary(s, 0);
    assert SpacesThenGroup(About, s, 10, 11) == Some(x);
    assert TryPrepositions(s, 5, 0) == Some(x);
    assert AfterHead(About, s, 4) == Some(x);
    assert TryHeads(About, s, 0, 0) == Some(x);
  }

  /** `give me`, one space, then the lazy group starting at 8 is what `Search` returns. */
  lemma GiveMatchFromStart(s: string, x: string)
    requires OccursAt(s, Heads(Give)[0], 0) && SpaceEnd(s, 7) == 8
    requires LazyGroup(Tail(Give, s), s, 8, 9) == Some(x)
    ensures Search(Give, s, 0) == Some(x)
  {
    assert s[0] == Heads(Give)[0][0];
    assert WordBoundary(s, 0);
    assert SpacesThenGroup(Give, s, 7, 8) == Some(x);
    assert AfterHead(Give, s, 7) == Some(x);
    assert TryHeads(Give, s, 0, 0) == Some(x);
  }

  /** A run of letters from `g` to `f` has no whitespace in it, so no tail stops inside it. */
  lemma NoStopInsideWord(kind: Capture, s: string, g: nat, f: nat)
    requires g < f <= |s|
    requires forall i | g <= i < f :: IsAsciiLetter(s[i])
    ensures forall k: nat | g < k < f :: !Tail(kind, s)(k)
  {
    forall k: nat | g < k < f
      ensures !Tail(kind, s)(k)
    {
      assert SpaceEnd(s, k) == k;
    }
  }

  /** `news about X`, with `X` a word of letters that ends the message, captures `X`. */
  lemma AboutCapturesLastWord(w: string)
    requires w != [] && forall c | c in w :: IsAsciiLetter(c)
    ensures Search(About, "news about " + w, 0) == Some(w)
  {
    var s := "news about " + w;
    assert forall i | 11 <= i < |s| :: s[i] == w[i - 11] && IsAsciiLetter(s[i]);
    assert OccursAt(s, NewsNouns[0], 0) by { assert s[0..4] == "news"; }
    assert SpaceEnd(s, 4) == 5;
    assert OccursAt(s, Prepositions[0], 5) by { assert s[5..10] == "about"; }
    assert SpaceEnd(s, 10) == 11;
    NoStopInsideWord(About, s, 11, |s|);
    assert Tail(About, s)(|s|);
    LazyGroupRun(Tail(About, s), s, 11, 12, |s|);
    assert s[11..|s|] == w;
    AboutMatchFromStart(s, w);
  }

  /** `give me X news`, with `X` a word of letters, captures `X`. */
  lemma GiveCapturesWordBeforeNews(w: string)
    requires w != [] && forall c | c in w :: IsAsciiLetter(c)
    ensures Search(Give, "give me " + w + " news", 0) == Some(w)
  {
    var s := "give me " + w + " news";
    var f := 8 + |w|;
    assert forall i | 8 <= i < f :: s[i] == w[i - 8] && IsAsciiLetter(s[i]);
    assert OccursAt(s, Heads(Give)[0], 0) by { assert s[0..7] == "give me"; }
    assert SpaceEnd(s, 7) == 8;
    NoStopInsideWord(Give, s, 8, f);
    assert Tail(Give, s)(f) by {
      assert SpaceEnd(s, f) == f + 1;
      assert OccursAt(s, NewsNouns[0], f + 1) by { assert s[f + 1..f + 5] == "news"; }
      assert WordBoundary(s, f + 1 + |NewsNouns[0]|);
    }
    LazyGroupRun(Tail(Give, s), s, 8, 9, f);
    assert s[8..f] == w;
    GiveMatchFromStart(s, w);
  }

  /** The language scan's second and third variations add nothing: an entry is mentioned exactly when its code is. */
  lemma MentionsIffCodeOccurs(m: string, k: nat)
    requires k < |SupportedLanguages|
    ensures Mentions(m, SupportedLanguages[k]) <==> Contains(m, Lower(SupportedLanguages[k].code))
  {
    NameBeforeParenthesisIsCode(k);
    DisplayNameStartsWithCode(k);
    MentionsIffCodeOccursOf(m, SupportedLanguages[k]);
  }

  /** The same for any entry whose display name starts with its code, which is the name before `(`. */
  lemma MentionsIffCodeOccursOf(m: string, e: Language)
    requires NameBeforeParenthesis(e.displayName) == e.code
    requires |e.code| <= |e.displayName| && e.displayName[..|e.code|] == e.code
    ensures Mentions(m, e) <==> Contains(m, Lower(e.code))
  {
    DisplayNameHoldsCode(m, e.code, e.displayName);
    VariationsOfEntry(e);
    ContainsAnyOfPair(m, Lower(e.code), Lower(e.displayName));
  }

  /** When the name before `(` is the code, the third variation repeats the first. */
  lemma VariationsOfEntry(e: Language)
    requires NameBeforeParenthesis(e.displayName) == e.code
    ensures Variations(e) == [Lower(e.code), Lower(e.displayName), Lower(e.code)]
  {
  }

  /** One of `a`, `b`, `a` occurs exactly when `a` or `b` does. */
  lemma ContainsAnyOfPair(m: string, a: string, b: string)
    ensures ContainsAny(m, [a, b, a]) <==> Contains(m, a) || Contains(m, b)
  {
    var v := [a, b, a];
    if Contains(m, a) {
      assert v[0] in v;
    } else if Contains(m, b) {
      assert v[1] in v;
    } else {
      assert forall w | w in v :: !Contains(m, w);
    }
  }

  /** A message holding a lower-cased name holds the lower-cased code the name starts with. */
  lemma DisplayNameHoldsCode(m: string, code: string, name: string)
    requires |code| <= |name| && name[..|code|] == code
    ensures Contains(m, Lower(name)) ==> Contains(m, Lower(code))
  {
    var rest := name[|code|..];
    assert name == code + rest;
    LowerAppend(code, rest);
    if Contains(m, Lower(name)) {
      ContainsPrefix(m, Lower(code), Lower(rest));
    }
  }

  /**
    The language scan picks the first entry, in table order, whose lower-cased code occurs in the
    message.
   */
  lemma LanguageScanIsFirstCode(m: string, k: nat)
    requires k < |SupportedLanguages|
    ensures LanguageScan(m) == Some(k) <==>
              Contains(m, Lower(SupportedLanguages[k].code)) &&
              forall j | 0 <= j < k :: !Contains(m, Lower(SupportedLanguages[j].code))
    ensures LanguageScan(m) == Some(k) ==> ExtractLanguage(m) == SupportedLanguages[k].code
  {
    FindIsFirst(m, SupportedLanguages, Mentions, k);
    forall j | 0 <= j <= k ensures Mentions(m, SupportedLanguages[j]) <==> Contains(m, Lower(SupportedLanguages[j].code)) {
      MentionsIffCodeOccurs(m, j);
    }
  }

  /** With no code in the message, the language comes from the fallback lookup, or is `English`. */
  lemma LanguageFallback(m: string)
    requires forall j | 0 <= j < |SupportedLanguages| :: !Contains(m, Lower(SupportedLanguages[j].code))
    ensures MentionedLanguage(m).Some? ==> ExtractLanguage(m) == SupportedLanguages[MentionedLanguage(m).value].code
    ensures MentionedLanguage(m).None? ==> ExtractLanguage(m) == DefaultLanguage
  {
    forall j | 0 <= j < |SupportedLanguages| ensures !Mentions(m, SupportedLanguages[j]) {
      MentionsIffCodeOccurs(m, j);
    }
    assert LanguageScan(m).None?;
  }

  /**
    The fallback lookup picks the first entry whose lower-cased display name contains the
    mentioned word, or whose lower-cased code is that word.
   */
  lemma LookupIsFirstName(w: string, k: nat)
    requires k < |SupportedLanguages|
    ensures LookupMention(w) == Some(k) <==>
              NamesMention(w, SupportedLanguages[k]) && forall j | 0 <= j < k :: !NamesMention(w, SupportedLanguages[j])
  {
    FindIsFirst(w, SupportedLanguages, NamesMention, k);
  }

  /** A message that contains none of `in`, `translate to`, `convert to` has no fallback language. */
  lemma NoMentionWithoutHead(s: string)
    requires forall h | h in MentionHeads :: !Contains(s, h)
    ensures MentionedLanguage(s).None?
  {
    forall q | 0 <= q <= |s| ensures MentionAt(s, q).None? {
      NoMentionHeadAt(s, q, 0);
    }
  }

  lemma {:induction false} NoMentionHeadAt(s: string, p: nat, n: nat)
    requires p <= |s| && n <= |MentionHeads|
    requires forall h | h in MentionHeads :: !OccursAt(s, h, p)
    ensures TryMentionHeads(s, p, n).None?
    decreases |MentionHeads| - n
  {
    if n < |MentionHeads| {
      assert MentionHeads[n] in MentionHeads;
      NoMentionHeadAt(s, p, n + 1);
    }
  }
}
