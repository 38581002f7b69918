/**
 * The text handling of the full solver (ai_solver.py): turning the AI's
 * answer into the solution dict, cleaning OCR text, and choosing among OCR
 * results. `json.loads` is a parameter: a partial function from text to a
 * dict, None standing for `JSONDecodeError`.
 */
module AiSolver {
  import opened Wrappers
  import opened Text
  import opened Json
  import opened ResponseParsing

  // ---------------------------------------------------------------------
  // _parse_ai_response
  // ---------------------------------------------------------------------

  /**
   * The JSON candidate of a stripped response: from its first `{` through
   * its last `}`; None when there is no `{` or no `}` after it.
   */
  function JsonCandidate(text: string): (r: Option<string>)
    ensures r.None? <==> '{' !in text || forall j :: Find(text, '{') < j < |text| ==> text[j] != '}'
    ensures r.Some? ==> && 2 <= |r.value| && r.value[0] == '{' && r.value[|r.value| - 1] == '}'
                        && exists i :: 0 <= i && i + |r.value| <= |text| && text[i..i + |r.value|] == r.value
                                       && '{' !in text[..i] && '}' !in text[i + |r.value|..]
  {
    var start := Find(text, '{');
    var end := RFind(text, '}') + 1;
    if start >= 0 && end > start then
      CandidateSlice(text, start, end);
      CandidateBounds(text, start, end);
      Some(text[start..end])
    else if start < 0 then None
    else
      NoCloseAfterOpen(text);
      None
  }

  /** The slice from the first `{` through the last `}` opens and closes with them. */
  lemma CandidateSlice(text: string, start: int, end: int)
    requires start == Find(text, '{') && end == RFind(text, '}') + 1 && 0 <= start < end
    ensures end <= |text| && start + 2 <= end && text[start] == '{' && text[end - 1] == '}'
  {
  }

  /** Nothing before the slice opens and nothing after it closes. */
  lemma CandidateBounds(text: string, start: int, end: int)
    requires start == Find(text, '{') && end == RFind(text, '}') + 1 && 0 <= start < end
    ensures end <= |text| && '{' !in text[..start] && '}' !in text[end..]
  {
  }

  /** When the last `}` comes before the first `{`, nothing after that `{` closes it. */
  lemma NoCloseAfterOpen(text: string)
    requires Find(text, '{') >= 0 && RFind(text, '}') + 1 <= Find(text, '{')
    ensures forall j :: Find(text, '{') < j < |text| ==> text[j] != '}'
  {
    var start := Find(text, '{');
    var r := RFind(text, '}');
    forall j | start < j < |text| ensures text[j] != '}' {
      if r >= 0 {
        assert text[j] == text[r + 1..][j - r - 1];
      }
    }
  }

  /** What one entry of `steps` becomes: `str(step).strip()`. */
  function StepText(step: Json): string {
    Strip(Str(step))
  }

  /** The test a cleaned step passes: non-empty, longer than ten characters, not opening with a quote. */
  predicate KeepsStep(t: string) {
    t != [] && |t| > 10 && !StartsWith(t, "\"")
  }

  /** What one entry contributes: its text when it passes the test, nothing otherwise. */
  function StepKept(step: Json): seq<string> {
    if KeepsStep(StepText(step)) then [StepText(step)] else []
  }

  /** The steps kept from the parsed `steps` entries, in their order. */
  function CleanSteps(items: seq<Json>): (r: seq<string>)
    ensures |r| <= |items|
  {
    if items == [] then [] else StepKept(items[0]) + CleanSteps(items[1..])
  }

  /** Cleaning works entry by entry, so it keeps the original order. */
  lemma {:induction false} CleanStepsAppend(a: seq<Json>, b: seq<Json>)
    ensures CleanSteps(a + b) == CleanSteps(a) + CleanSteps(b)
  {
    if a == [] {
      assert a + b == b;
    } else {
      assert (a + b)[0] == a[0] && (a + b)[1..] == a[1..] + b;
      CleanStepsAppend(a[1..], b);
      JoinAssoc(StepKept(a[0]), CleanSteps(a[1..]), CleanSteps(b));
    }
  }

  /** Exactly the entries that pass the test survive, and nothing else appears. */
  lemma {:induction false} CleanStepsExact(items: seq<Json>)
    ensures forall k :: 0 <= k < |CleanSteps(items)| ==>
              KeepsStep(CleanSteps(items)[k]) && exists i :: 0 <= i < |items| && StepText(items[i]) == CleanSteps(items)[k]
    ensures forall i :: 0 <= i < |items| && KeepsStep(StepText(items[i])) ==> StepText(items[i]) in CleanSteps(items)
  {
    if items != [] {
      var rest := items[1..];
      CleanStepsExact(rest);
      var head := StepKept(items[0]);
      assert CleanSteps(items) == head + CleanSteps(rest);
      forall k | 0 <= k < |CleanSteps(items)|
        ensures KeepsStep(CleanSteps(items)[k]) && exists i :: 0 <= i < |items| && StepText(items[i]) == CleanSteps(items)[k]
      {
        if k < |head| {
          assert StepText(items[0]) == CleanSteps(items)[k];
        } else {
          var i :| 0 <= i < |rest| && StepText(rest[i]) == CleanSteps(rest)[k - |head|];
          assert StepText(items[i + 1]) == CleanSteps(items)[k];
        }
      }
      forall i | 0 <= i < |items| && KeepsStep(StepText(items[i])) ensures StepText(items[i]) in CleanSteps(items) {
        if i > 0 { assert items[i] == rest[i - 1]; }
      }
    }
  }

  /** The loop of `_parse_ai_response` that builds `clean_steps`. */
  method CollectSteps(items: seq<Json>) returns (clean: seq<string>)
    ensures clean == CleanSteps(items)
  {
    clean := [];
    for i := 0 to |items|
      invariant clean == CleanSteps(items[..i])
    {
      CleanStepsStep(items, i);
      var stepText := StepText(items[i]);
      if stepText != [] && |stepText| > 10 && !StartsWith(stepText, "\"") {
        clean := clean + [stepText];
      } else {
        assert clean + [] == clean;
      }
    }
    assert items[..|items|] == items;
  }

  /** The kept steps of one more entry: those so far, then the entry's own, if kept. */
  lemma CleanStepsStep(items: seq<Json>, i: nat)
    requires i < |items|
    ensures CleanSteps(items[..i + 1]) == CleanSteps(items[..i]) + StepKept(items[i])
  {
    assert items[..i + 1] == items[..i] + [items[i]];
    CleanStepsAppend(items[..i], [items[i]]);
    assert [items[i]][1..] == [];
    assert CleanSteps([items[i]]) == StepKept(items[i]) + [];
  }

  /** The answer dict once a parsed object is accepted: steps cleaned, metadata added. */
  function Accepted(d: Dict, items: seq<Json>, originalProblem: string, aiProvider: string): Dict {
    AddMetadata(Set(d, "steps", JArr(StringList(CleanSteps(items)))), originalProblem, aiProvider)
  }

  /**
   * What `_parse_ai_response` of ai_solver.py returns: None only when the
   * AI reported an error; the unstructured parse of the stripped response
   * whenever there is no usable JSON object (no candidate, a decode error,
   * a missing field, or a `steps` value that cannot be iterated, whose
   * TypeError the outer handler catches).
   */
  function AiResponse(responseText: string, originalProblem: string, aiProvider: string,
                      loads: string -> Option<Dict>): Option<Dict>
  {
    var text := Strip(responseText);
    var fallback := Some(UnstructuredResult(text, originalProblem, aiProvider));
    match JsonCandidate(text)
    case None => fallback
    case Some(candidate) =>
      match loads(candidate)
      case None => fallback
      case Some(d) =>
        if HasKey(d, "error") then None
        else if !HasKey(d, "solution") || !HasKey(d, "steps") then fallback
        else
          match Iterate(Get(d, "steps").value)
          case None => fallback
          case Some(items) => Some(Accepted(d, items, originalProblem, aiProvider))
  }

  /** `_parse_ai_response`, step by step as the source does it. */
  method ParseAiResponse(responseText: string, originalProblem: string, aiProvider: string,
                         loads: string -> Option<Dict>)
    returns (result: Option<Dict>)
    ensures result == AiResponse(responseText, originalProblem, aiProvider, loads)
  {
    var text := Strip(responseText);
    var candidate := JsonCandidate(text);
    if candidate.None? {
      return Some(UnstructuredResult(text, originalProblem, aiProvider));
    }
    var parsed := loads(candidate.value);
    if parsed.None? {
      return Some(UnstructuredResult(text, originalProblem, aiProvider));
    }
    var parsedData := parsed.value;
    if HasKey(parsedData, "error") {
      return None;
    }
    if !HasKey(parsedData, "solution") || !HasKey(parsedData, "steps") {
      return Some(UnstructuredResult(text, originalProblem, aiProvider));
    }
    var steps := Iterate(Get(parsedData, "steps").value);
    if steps.None? {
      return Some(UnstructuredResult(text, originalProblem, aiProvider));
    }
    var cleanSteps := CollectSteps(steps.value);
    parsedData := Set(parsedData, "steps", JArr(StringList(cleanSteps)));
    parsedData := Set(parsedData, "original_problem", JStr(originalProblem));
    parsedData := Set(parsedData, "ai_provider", JStr(aiProvider));
    result := Some(parsedData);
  }

  /** The answer is None exactly when the JSON candidate parses and names an error. */
  lemma NoneOnlyForReportedError(responseText: string, originalProblem: string, aiProvider: string,
                                 loads: string -> Option<Dict>)
    ensures var c := JsonCandidate(Strip(responseText));
            AiResponse(responseText, originalProblem, aiProvider, loads).None?
            <==> (c.Some? && loads(c.value).Some? && HasKey(loads(c.value).value, "error"))
  {
  }

  /**
   * Without a decodable candidate, or with a required field missing, the
   * answer is the unstructured parse of the stripped response.
   */
  lemma FallsBackToUnstructured(responseText: string, originalProblem: string, aiProvider: string,
                                loads: string -> Option<Dict>)
    requires var c := JsonCandidate(Strip(responseText));
             || c.None?
             || loads(c.value).None?
             || (!HasKey(loads(c.value).value, "error")
                 && (!HasKey(loads(c.value).value, "solution") || !HasKey(loads(c.value).value, "steps")))
    ensures AiResponse(responseText, originalProblem, aiProvider, loads)
            == Some(UnstructuredResult(Strip(responseText), originalProblem, aiProvider))
  {
  }

  /**
   * An accepted object keeps every key it had, in order, with `steps`
   * replaced by the cleaned steps and the metadata set; all other values
   * are untouched.
   */
  lemma AcceptedFields(d: Dict, items: seq<Json>, originalProblem: string, aiProvider: string)
    requires HasKey(d, "steps")
    ensures var r := Accepted(d, items, originalProblem, aiProvider);
            && Get(r, "steps") == Some(JArr(StringList(CleanSteps(items))))
            && Get(r, "original_problem") == Some(JStr(originalProblem))
            && Get(r, "ai_provider") == Some(JStr(aiProvider))
            && (forall k :: k != "steps" && k != "original_problem" && k != "ai_provider" ==> Get(r, k) == Get(d, k))
            && Keys(r)[..|d|] == Keys(d)
  {
    var v := JArr(StringList(CleanSteps(items)));
    var d1 := Set(d, "steps", v);
    SetGet(d, "steps", v);
    SetKeys(d, "steps", v);
    AddMetadataFields(d1, originalProblem, aiProvider);
    AddMetadataKeys(d1, originalProblem, aiProvider);
  }

  /**
   * An answer with a well-formed JSON object is that object, accepted, with
   * whatever `for step in steps` walks over: a list's items, a string's
   * characters or a dict's keys.
   */
  lemma UsesParsedObject(responseText: string, originalProblem: string, aiProvider: string,
                         loads: string -> Option<Dict>, d: Dict)
    requires var c := JsonCandidate(Strip(responseText)); c.Some? && loads(c.value) == Some(d)
    requires !HasKey(d, "error") && HasKey(d, "solution") && HasKey(d, "steps")
    requires Iterate(Get(d, "steps").value).Some?
    ensures AiResponse(responseText, originalProblem, aiProvider, loads)
            == Some(Accepted(d, Iterate(Get(d, "steps").value).value, originalProblem, aiProvider))
  {
  }

  /**
   * A `steps` that cannot be iterated (null, a boolean, a number) raises
   * TypeError in the step loop; the outer handler answers with the
   * unstructured parse of the stripped response.
   */
  lemma NonIterableStepsFallBack(responseText: string, originalProblem: string, aiProvider: string,
                                 loads: string -> Option<Dict>, d: Dict)
    requires var c := JsonCandidate(Strip(responseText)); c.Some? && loads(c.value) == Some(d)
    requires !HasKey(d, "error") && HasKey(d, "solution") && HasKey(d, "steps")
    requires Iterate(Get(d, "steps").value).None?
    ensures AiResponse(responseText, originalProblem, aiProvider, loads)
            == Some(UnstructuredResult(Strip(responseText), originalProblem, aiProvider))
  {
  }

  // ---------------------------------------------------------------------
  // _clean_extracted_text
  // ---------------------------------------------------------------------

  /** The replacement table, in its source order: each glyph and its ASCII spelling. */
  const Glyphs: seq<(char, string)> := [
    ('\U{D7}', "*"), ('\U{F7}', "/"), ('\U{2013}', "-"), ('\U{2014}', "-"),
    ('\U{222B}', "integral of"), ('\U{2202}', "partial derivative of"),
    ('\U{2211}', "sum of"), ('\U{220F}', "product of"), ('\U{221A}', "sqrt"),
    ('\U{B1}', "plus or minus"), ('\U{2264}', "<="), ('\U{2265}', ">="),
    ('\U{2260}', "!="), ('\U{2248}', "approximately"), ('\U{3C0}', "pi"),
    ('\U{3B8}', "theta"), ('\U{3B1}', "alpha"), ('\U{3B2}', "beta"),
    ('\U{3B3}', "gamma"), ('\U{3B4}', "delta"), ('\U{3BB}', "lambda"),
    ('\U{3BC}', "mu"), ('\U{3C3}', "sigma"), ('\U{B0}', " degrees")
  ]

  /** The table's replacements applied one after another (`cleaned = cleaned.replace(old, new)`). */
  function ReplaceAll(s: string, table: seq<(char, string)>): string
    decreases |table|
  {
    if table == [] then s else ReplaceAll(Replace(s, [table[0].0], table[0].1), table[1..])
  }

  /** What `_clean_extracted_text` returns. */
  function CleanedText(text: string): string {
    if text == [] then [] else ReplaceAll(CollapseWhitespace(text), Glyphs)
  }

  /** `_clean_extracted_text`: collapse whitespace, then run through the replacement table. */
  method CleanExtractedText(text: string) returns (cleaned: string)
    ensures cleaned == CleanedText(text)
  {
    if text == [] {
      return "";
    }
    cleaned := CollapseWhitespace(text);
    cleaned := ApplyTable(cleaned, Glyphs);
  }

  /** The replacement loop of `_clean_extracted_text`, for any table. */
  method ApplyTable(s: string, table: seq<(char, string)>) returns (cleaned: string)
    ensures cleaned == ReplaceAll(s, table)
  {
    cleaned := s;
    for k := 0 to |table|
      invariant ReplaceAll(cleaned, table[k..]) == ReplaceAll(s, table)
    {
      assert table[k..][1..] == table[k + 1..];
      var (glyph, spelling) := table[k];
      cleaned := Replace(cleaned, [glyph], spelling);
    }
    assert table[|table|..] == [];
  }

  /** A character of the ASCII range. */
  predicate IsAscii(c: char) {
    c < '\U{80}'
  }

  /** A replacement text of ASCII characters whose only whitespace is the plain space. */
  predicate PlainAscii(t: string) {
    forall j :: 0 <= j < |t| ==> IsAscii(t[j]) && (IsSpace(t[j]) ==> t[j] == ' ')
  }

  /** The first six entries of the table spell its glyphs in plain ASCII. */
  lemma FirstSpellingsPlain()
    ensures forall k :: 0 <= k < 6 ==> PlainAscii(Glyphs[k].1)
  {
  }

  /** The next six entries of the table spell its glyphs in plain ASCII. */
  lemma NextSpellingsPlain()
    ensures forall k :: 6 <= k < 12 ==> PlainAscii(Glyphs[k].1)
  {
  }

  /** The rest of the table spells its glyphs in plain ASCII. */
  lemma LastSpellingsPlain()
    ensures forall k :: 12 <= k < |Glyphs| ==> PlainAscii(Glyphs[k].1)
  {
  }

  /** Every replacement is ASCII and every glyph is not. */
  lemma GlyphTableAscii()
    ensures forall k :: 0 <= k < |Glyphs| ==> !IsAscii(Glyphs[k].0)
    ensures forall k, j :: 0 <= k < |Glyphs| && 0 <= j < |Glyphs[k].1| ==> IsAscii(Glyphs[k].1[j])
    ensures forall k, j :: 0 <= k < |Glyphs| && 0 <= j < |Glyphs[k].1| && IsSpace(Glyphs[k].1[j]) ==> Glyphs[k].1[j] == ' '
  {
    FirstSpellingsPlain();
    NextSpellingsPlain();
    LastSpellingsPlain();
    assert forall k :: 0 <= k < |Glyphs| ==> PlainAscii(Glyphs[k].1);
  }

  /**
   * Running a table whose replacements are ASCII and whose glyphs are not
   * leaves none of its glyphs, and brings in no non-ASCII character and no
   * whitespace other than plain spaces.
   */
  lemma {:induction false} ReplaceAllClears(s: string, table: seq<(char, string)>)
    requires forall k :: 0 <= k < |table| ==> !IsAscii(table[k].0)
    requires forall k, j :: 0 <= k < |table| && 0 <= j < |table[k].1| ==> IsAscii(table[k].1[j])
    requires forall k, j :: 0 <= k < |table| && 0 <= j < |table[k].1| && IsSpace(table[k].1[j]) ==> table[k].1[j] == ' '
    ensures forall k :: 0 <= k < |table| ==> table[k].0 !in ReplaceAll(s, table)
    ensures forall c :: c in ReplaceAll(s, table) && !IsAscii(c) ==> c in s
    ensures forall c :: c in ReplaceAll(s, table) && IsSpace(c) && c != ' ' ==> c in s
    decreases |table|
  {
    if table != [] {
      var (glyph, spelling) := table[0];
      var next := Replace(s, [glyph], spelling);
      ReplaceSingleChar(s, glyph, spelling);
      assert glyph !in spelling by {
        assert forall j :: 0 <= j < |spelling| ==> IsAscii(table[0].1[j]);
      }
      assert glyph !in next;
      ReplaceAllClears(next, table[1..]);
      forall k | 0 <= k < |table| ensures table[k].0 !in ReplaceAll(s, table) {
        if k > 0 {
          assert table[k] == table[1..][k - 1];
        }
      }
      forall c | c in ReplaceAll(s, table) && !IsAscii(c) ensures c in s {
        var j :| 0 <= j < |next| && next[j] == c;
      }
      forall c | c in ReplaceAll(s, table) && IsSpace(c) && c != ' ' ensures c in s {
        var j :| 0 <= j < |next| && next[j] == c;
      }
    }
  }

  /**
   * The cleaned text holds none of the table's glyphs, and its only
   * whitespace is the plain space: no newline, no tab survives.
   */
  lemma CleanedTextClean(text: string)
    ensures forall k :: 0 <= k < |Glyphs| ==> Glyphs[k].0 !in CleanedText(text)
    ensures forall c :: c in CleanedText(text) && IsSpace(c) ==> c == ' '
  {
    if text != [] {
      var collapsed := CollapseWhitespace(text);
      GlyphTableAscii();
      ReplaceAllClears(collapsed, Glyphs);
    }
  }

  // ---------------------------------------------------------------------
  // _choose_best_ocr_result
  // ---------------------------------------------------------------------

  /** An OCR result (method name, text) from EasyOCR with some non-blank text. */
  predicate ReadableEasyOcr(result: (string, string)) {
    result.0 == "easyocr" && |Strip(result.1)| > 0
  }

  /** The position of the first readable EasyOCR result, if any. */
  function FirstReadableEasyOcr(results: seq<(string, string)>): (r: Option<nat>)
    ensures r.None? <==> forall i :: 0 <= i < |results| ==> !ReadableEasyOcr(results[i])
    ensures r.Some? ==> r.value < |results| && ReadableEasyOcr(results[r.value])
                        && forall i :: 0 <= i < r.value ==> !ReadableEasyOcr(results[i])
  {
    if results == [] then None
    else if ReadableEasyOcr(results[0]) then Some(0)
    else
      var r := FirstReadableEasyOcr(results[1..]);
      assert forall i :: 1 <= i < |results| ==> results[i] == results[1..][i - 1];
      if r.None? then None else Some(r.value + 1)
  }

  /**
   * `_choose_best_ocr_result`: "" for no results; the text of the first
   * EasyOCR result that is not blank; otherwise the first result's text.
   */
  function ChooseBestOcrResult(results: seq<(string, string)>): (r: string)
    ensures results == [] ==> r == ""
    ensures forall i :: (0 <= i < |results| && ReadableEasyOcr(results[i])
                         && forall j :: 0 <= j < i ==> !ReadableEasyOcr(results[j])) ==> r == results[i].1
    ensures results != [] && (forall i :: 0 <= i < |results| ==> !ReadableEasyOcr(results[i])) ==> r == results[0].1
  {
    if results == [] then ""
    else
      match FirstReadableEasyOcr(results)
      case Some(i) => results[i].1
      case None => results[0].1
  }
}
