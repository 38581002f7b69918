/**
 * The content filter (utils/content_filter.py): the keyword decision that
 * accepts or refuses a message, the heuristics that call a message
 * mathematical or educational, the improvement suggestions and the
 * whitelist sanitiser.
 */
module ContentFiltering {
  import opened Wrappers
  import opened Text

  /** The filter's settings, read once from the environment. */
  datatype Config = Config(enabled: bool, blockedKeywords: seq<string>)

  const DefaultBlockedKeywords: string := "inappropriate,spam,violence"

  /** `[kw.strip().lower() for kw in s.split(',')]`. */
  function ParseKeywords(raw: string): (r: seq<string>)
    ensures |r| == |Split(raw, ',')|
  {
    var pieces := Split(raw, ',');
    seq(|pieces|, i requires 0 <= i < |pieces| => Lower(Strip(pieces[i])))
  }

  /**
   * The settings built by `__init__` from `ENABLE_CONTENT_FILTER` and
   * `BLOCKED_KEYWORDS` (None stands for an unset variable).
   */
  function Configure(enableVar: Option<string>, keywordsVar: Option<string>): (c: Config)
    ensures c.enabled <==> (enableVar.None? || Lower(enableVar.value) == "true")
    ensures keywordsVar.None? ==> c.blockedKeywords == ParseKeywords(DefaultBlockedKeywords)
    ensures keywordsVar.Some? ==> c.blockedKeywords == ParseKeywords(keywordsVar.value)
  {
    var enable := if enableVar.Some? then enableVar.value else "true";
    var raw := if keywordsVar.Some? then keywordsVar.value else DefaultBlockedKeywords;
    Config(Lower(enable) == "true", ParseKeywords(raw))
  }

  /** `lower` changes no whitespace character and turns every ASCII capital into a small letter. */
  lemma LowerKeepsSpace(s: string)
    ensures forall i :: 0 <= i < |s| ==> (IsSpace(Lower(s)[i]) <==> IsSpace(s[i]))
    ensures forall i :: 0 <= i < |s| ==> !('A' <= Lower(s)[i] <= 'Z')
    ensures forall i :: 0 <= i < |s| ==> (Lower(s)[i] == ',' <==> s[i] == ',')
  {
  }

  /**
   * Each keyword is one comma-separated entry: it holds no comma, no
   * whitespace at either end and no ASCII capital.
   */
  lemma ParsedKeywordsClean(raw: string)
    ensures forall i :: 0 <= i < |ParseKeywords(raw)| ==>
              var k := ParseKeywords(raw)[i];
              && ',' !in k && Trimmed(k) && (forall j :: 0 <= j < |k| ==> !('A' <= k[j] <= 'Z'))
  {
    var pieces := Split(raw, ',');
    forall i | 0 <= i < |pieces|
      ensures var k := ParseKeywords(raw)[i];
              && ',' !in k && Trimmed(k) && (forall j :: 0 <= j < |k| ==> !('A' <= k[j] <= 'Z'))
    {
      var t := Strip(pieces[i]);
      StripMeans(pieces[i]);
      StripKeepsChars(pieces[i]);
      LowerKeepsSpace(t);
      assert ',' !in t;
      assert ParseKeywords(raw)[i] == Lower(t);
    }
  }

  /** `_contains_blocked_content`: some non-empty keyword occurs in the text. */
  predicate ContainsBlocked(text: string, keywords: seq<string>) {
    keywords != [] && ((keywords[0] != [] && Contains(text, keywords[0])) || ContainsBlocked(text, keywords[1..]))
  }

  /** The keyword scan finds a hit exactly when a non-empty keyword is a substring; an empty one never hits. */
  lemma {:induction false} ContainsBlockedMeans(text: string, keywords: seq<string>)
    ensures ContainsBlocked(text, keywords) <==> exists k :: 0 <= k < |keywords| && keywords[k] != [] && Contains(text, keywords[k])
  {
    if keywords != [] {
      ContainsBlockedMeans(text, keywords[1..]);
      if exists k :: 0 <= k < |keywords| && keywords[k] != [] && Contains(text, keywords[k]) {
        var k :| 0 <= k < |keywords| && keywords[k] != [] && Contains(text, keywords[k]);
        if k > 0 { assert keywords[1..][k - 1] == keywords[k]; }
      }
      if ContainsBlocked(text, keywords[1..]) {
        var k :| 0 <= k < |keywords[1..]| && keywords[1..][k] != [] && Contains(text, keywords[1..][k]);
        assert keywords[k + 1] == keywords[1..][k];
      }
    }
  }

  /** The terms that always mark a message as mathematical (a set in the source; order is irrelevant). */
  const MathTerms: seq<string> := [
    "algebra", "calculus", "geometry", "trigonometry", "statistics",
    "derivative", "integral", "equation", "function", "variable",
    "coefficient", "polynomial", "logarithm", "exponential", "matrix",
    "vector", "angle", "triangle", "circle", "square", "rectangle",
    "probability", "mean", "median", "mode", "standard deviation",
    "solve", "calculate", "find", "determine", "evaluate", "simplify",
    "factor", "expand", "graph", "plot", "limit", "series", "sequence"]

  /** The common question phrases of a math problem. */
  const MathQuestionWords: seq<string> := [
    "solve", "calculate", "find", "what is", "how much", "how many",
    "derive", "prove", "show that", "simplify", "factor", "expand",
    "integrate", "differentiate", "graph", "plot"]

  /** The symbols of the fifth pattern: integral, sum, product, root, the Greek letters, infinity. */
  const MathSymbols: seq<char> := [
    '\U{222B}', '\U{2211}', '\U{220F}', '\U{221A}', '\U{3C0}', '\U{3B8}', '\U{3B1}',
    '\U{3B2}', '\U{3B3}', '\U{3B4}', '\U{3BB}', '\U{3BC}', '\U{3C3}', '\U{221E}']

  predicate HasDigit(text: string) {
    exists i :: 0 <= i < |text| && '0' <= text[i] <= '9'
  }

  /**
   * The first pattern, one or more digits followed by optional operator
   * characters, finds a match exactly where the text holds a digit.
   */
  predicate MatchesNumberPattern(text: string) {
    HasDigit(text)
  }

  predicate MatchesSymbolPattern(text: string) {
    exists i :: 0 <= i < |text| && text[i] in MathSymbols
  }

  /**
   * `_is_math_related`. `otherPatterns` says whether the algebra, LaTeX
   * command or LaTeX inline pattern finds a match.
   */
  predicate IsMathRelated(text: string, otherPatterns: string -> bool) {
    || ContainsAny(text, MathTerms)
    || MatchesNumberPattern(text) || otherPatterns(text) || MatchesSymbolPattern(text)
    || ContainsAny(text, MathQuestionWords)
  }

  /** A math term makes a message mathematical, whatever the patterns say. */
  lemma MathTermMakesMath(text: string, otherPatterns: string -> bool)
    requires exists k :: 0 <= k < |MathTerms| && Contains(text, MathTerms[k])
    ensures IsMathRelated(text, otherPatterns)
  {
    ContainsAnyMeans(text, MathTerms);
  }

  /** So does a question phrase. */
  lemma QuestionWordMakesMath(text: string, otherPatterns: string -> bool)
    requires exists k :: 0 <= k < |MathQuestionWords| && Contains(text, MathQuestionWords[k])
    ensures IsMathRelated(text, otherPatterns)
  {
    ContainsAnyMeans(text, MathQuestionWords);
  }

  /** The first pattern makes any message holding a digit mathematical. */
  lemma DigitMakesMath(text: string, otherPatterns: string -> bool)
    requires exists i :: 0 <= i < |text| && '0' <= text[i] <= '9'
    ensures IsMathRelated(text, otherPatterns)
  {
  }

  const EducationalIndicators: seq<string> := [
    "help", "learn", "understand", "explain", "how", "why", "what",
    "homework", "assignment", "problem", "question", "exercise",
    "study", "practice", "review", "test", "exam", "quiz"]

  /** `_has_educational_intent`. */
  predicate HasEducationalIntent(text: string) {
    ContainsAny(text, EducationalIndicators)
  }

  /** Educational intent is exactly an indicator word occurring in the text. */
  lemma EducationalIntentMeans(text: string)
    ensures HasEducationalIntent(text) <==> exists k :: 0 <= k < |EducationalIndicators| && Contains(text, EducationalIndicators[k])
  {
    ContainsAnyMeans(text, EducationalIndicators);
  }

  /**
   * `is_appropriate`. The math and intent checks only choose between log
   * lines: every branch after the keyword check accepts.
   */
  predicate IsAppropriate(config: Config, text: string, otherPatterns: string -> bool) {
    if !config.enabled then true
    else
      var textLower := Strip(Lower(text));
      if |textLower| < 3 then true
      else if ContainsBlocked(textLower, config.blockedKeywords) then false
      else if IsMathRelated(textLower, otherPatterns) then true
      else if HasEducationalIntent(textLower) then true
      else true
  }

  /**
   * A message is refused exactly when the filter is on, the lowered and
   * stripped message has at least three characters, and a non-empty blocked
   * keyword occurs in it. In particular a disabled filter accepts everything.
   */
  lemma IsAppropriateExactly(config: Config, text: string, otherPatterns: string -> bool)
    ensures !IsAppropriate(config, text, otherPatterns) <==>
              var t := Strip(Lower(text));
              && config.enabled && |t| >= 3
              && exists k :: 0 <= k < |config.blockedKeywords| && config.blockedKeywords[k] != []
                             && Contains(t, config.blockedKeywords[k])
    ensures !config.enabled ==> IsAppropriate(config, text, otherPatterns)
  {
    ContainsBlockedMeans(Strip(Lower(text)), config.blockedKeywords);
  }

  const AdviceTerms: string := "Try including specific mathematical terms or expressions in your question."
  const AdviceDetails: string := "Provide more details about your math problem for better assistance."
  const AdviceQuestion: string := "Frame your message as a clear question (e.g., 'Solve for x: ...' or 'What is...')."

  /** The third suggestion's test: no question mark and none of solve/find/calculate. */
  predicate NeedsQuestion(text: string) {
    '?' !in text && !ContainsAny(Lower(text), ["solve", "find", "calculate"])
  }

  /**
   * `get_content_suggestions`: each piece of advice is given exactly when
   * its test holds, at most once, and in the fixed order terms, details,
   * question.
   */
  method GetContentSuggestions(text: string, otherPatterns: string -> bool) returns (suggestions: seq<string>)
    ensures |suggestions| <= 3
    ensures AdviceTerms in suggestions <==> !IsMathRelated(Lower(text), otherPatterns)
    ensures AdviceDetails in suggestions <==> |text| < 10
    ensures AdviceQuestion in suggestions <==> NeedsQuestion(text)
    ensures forall i :: 0 <= i < |suggestions| ==> suggestions[i] in [AdviceTerms, AdviceDetails, AdviceQuestion]
    ensures forall i, j :: 0 <= i < j < |suggestions| ==> suggestions[i] != suggestions[j]
    ensures AdviceTerms in suggestions ==> suggestions[0] == AdviceTerms
    ensures AdviceQuestion in suggestions ==> suggestions[|suggestions| - 1] == AdviceQuestion
  {
    var terms, details, question := !IsMathRelated(Lower(text), otherPatterns), |text| < 10, NeedsQuestion(text);
    ghost var t, d, q := if terms then [AdviceTerms] else [], if details then [AdviceDetails] else [],
                         if question then [AdviceQuestion] else [];
    suggestions := [];
    if terms {
      suggestions := suggestions + [AdviceTerms];
    }
    assert suggestions == t;
    if details {
      suggestions := suggestions + [AdviceDetails];
    } else {
      assert suggestions + d == suggestions;
    }
    assert suggestions == t + d;
    if question {
      suggestions := suggestions + [AdviceQuestion];
    } else {
      assert suggestions + q == suggestions;
    }
    SuggestedShape(terms, details, question, suggestions);
  }

  /**
   * The advice list built from the three tests: each piece present exactly
   * when its test holds, none twice, in the fixed order.
   */
  lemma SuggestedShape(terms: bool, details: bool, question: bool, s: seq<string>)
    requires s == (if terms then [AdviceTerms] else []) + (if details then [AdviceDetails] else [])
                  + (if question then [AdviceQuestion] else [])
    ensures |s| <= 3
    ensures AdviceTerms in s <==> terms
    ensures AdviceDetails in s <==> details
    ensures AdviceQuestion in s <==> question
    ensures forall i :: 0 <= i < |s| ==> s[i] in [AdviceTerms, AdviceDetails, AdviceQuestion]
    ensures forall i, j :: 0 <= i < j < |s| ==> s[i] != s[j]
    ensures AdviceTerms in s ==> s[0] == AdviceTerms
    ensures AdviceQuestion in s ==> s[|s| - 1] == AdviceQuestion
  {
    assert |AdviceTerms| == 74 && |AdviceDetails| == 67 && |AdviceQuestion| == 82;
  }

  /** The character class of `sanitize_input`'s whitelist. */
  predicate Allowed(c: char) {
    || ('a' <= c <= 'z') || ('A' <= c <= 'Z') || ('0' <= c <= '9') || IsSpace(c)
    || c in "+-*/=()[]{}^.,?!:;'\"\\"
    || c in MathSymbols
    || c in ['\U{2264}', '\U{2265}', '\U{2260}', '\U{2248}', '\U{B0}']
  }

  /** `''.join(allowed_chars.findall(s))`: the whitelisted characters of `s`, in order. */
  function KeepAllowed(s: string): (r: string)
    ensures |r| <= |s|
    ensures forall k :: 0 <= k < |r| ==> Allowed(r[k])
  {
    if s == [] then []
    else (if Allowed(s[0]) then [s[0]] else []) + KeepAllowed(s[1..])
  }

  /** The whitelist filter drops nothing from text that is already clean. */
  lemma {:induction false} KeepAllowedClean(s: string)
    requires forall k :: 0 <= k < |s| ==> Allowed(s[k])
    ensures KeepAllowed(s) == s
  {
    if s != [] {
      KeepAllowedClean(s[1..]);
      assert [s[0]] + s[1..] == s;
    }
  }

  /** The filter works character by character, so the order of the kept characters is the input's. */
  lemma {:induction false} KeepAllowedAppend(a: string, b: string)
    ensures KeepAllowed(a + b) == KeepAllowed(a) + KeepAllowed(b)
  {
    if a == [] {
      assert a + b == b;
    } else {
      assert (a + b)[0] == a[0] && (a + b)[1..] == a[1..] + b;
      KeepAllowedAppend(a[1..], b);
      var head := if Allowed(a[0]) then [a[0]] else [];
      JoinAssoc(head, KeepAllowed(a[1..]), KeepAllowed(b));
    }
  }

  /** Every whitelisted character is kept as often as it occurs; every other one is dropped. */
  lemma {:induction false} KeepAllowedCount(s: string, c: char)
    ensures multiset(KeepAllowed(s))[c] == if Allowed(c) then multiset(s)[c] else 0
  {
    if s != [] {
      KeepAllowedCount(s[1..], c);
      assert s == [s[0]] + s[1..];
      assert multiset(s) == multiset([s[0]]) + multiset(s[1..]);
      var head := if Allowed(s[0]) then [s[0]] else [];
      assert multiset(KeepAllowed(s)) == multiset(head) + multiset(KeepAllowed(s[1..]));
    }
  }

  /** The longest sanitised text kept before the ellipsis. */
  const MaxLength: nat := 1000

  /**
   * `sanitize_input`: collapse whitespace, keep only whitelisted characters,
   * cut to 1000 characters plus an ellipsis when longer, strip.
   */
  method SanitizeInput(text: string) returns (sanitized: string)
    ensures forall k :: 0 <= k < |sanitized| ==> Allowed(sanitized[k])
    ensures Trimmed(sanitized)
    ensures |sanitized| <= MaxLength + 3
    ensures var f := KeepAllowed(CollapseWhitespace(text));
            && (|f| <= MaxLength ==> sanitized == Strip(f))
            && (|f| > MaxLength ==> sanitized == TrimStart(f[..MaxLength]) + "...")
  {
    sanitized := CollapseWhitespace(text);
    sanitized := KeepAllowed(sanitized);
    if |sanitized| > MaxLength {
      var cut := sanitized[..MaxLength];
      sanitized := cut + "...";
      assert Strip(sanitized) == TrimStart(cut) + "..." by {
        TrimStartAppend(cut, "...");
        TrimStartMeans(cut);
        assert TrimEnd(TrimStart(cut) + "...") == TrimStart(cut) + "...";
      }
    }
    assert forall k :: 0 <= k < |sanitized| ==> Allowed(sanitized[k]);
    var before := sanitized;
    sanitized := Strip(sanitized);
    assert Trimmed(sanitized) by {
      StripTrimmed(before);
    }
    assert forall k :: 0 <= k < |sanitized| ==> sanitized[k] in before by {
      StripKeepsChars(before);
    }
  }
}
