/**
 * The answer handling of the slimmed-down solver (ai_solver_clean.py): a
 * strict JSON parse when the stripped answer opens with `{`, no fallback
 * for an object that lacks a field, and an image reader that is a stub.
 */
module AiSolverClean {
  import opened Wrappers
  import opened Text
  import opened Json
  import opened ResponseParsing

  /**
   * What `_parse_ai_response` of ai_solver_clean.py returns. The unstructured
   * parser gets the response as it came, unstripped.
   */
  function CleanAiResponse(responseText: string, originalProblem: string, aiProvider: string,
                           loads: string -> Option<Dict>): Option<Dict>
  {
    var text := Strip(responseText);
    var fallback := Some(UnstructuredResult(responseText, originalProblem, aiProvider));
    if !StartsWith(text, "{") then fallback
    else
      match loads(text)
      case None => fallback
      case Some(d) =>
        if HasKey(d, "error") then None
        else if !HasKey(d, "solution") || !HasKey(d, "steps") then None
        else Some(AddMetadata(d, originalProblem, aiProvider))
  }

  /** `_parse_ai_response`: the required fields are checked one by one, in order. */
  method ParseAiResponse(responseText: string, originalProblem: string, aiProvider: string,
                         loads: string -> Option<Dict>)
    returns (result: Option<Dict>)
    ensures result == CleanAiResponse(responseText, originalProblem, aiProvider, loads)
  {
    var text := Strip(responseText);
    if !StartsWith(text, "{") {
      return Some(UnstructuredResult(responseText, originalProblem, aiProvider));
    }
    var parsed := loads(text);
    if parsed.None? {
      return Some(UnstructuredResult(responseText, originalProblem, aiProvider));
    }
    var parsedData := parsed.value;
    if HasKey(parsedData, "error") {
      return None;
    }
    var requiredFields := ["solution", "steps"];
    for k := 0 to |requiredFields|
      invariant forall j :: 0 <= j < k ==> HasKey(parsedData, requiredFields[j])
    {
      if !HasKey(parsedData, requiredFields[k]) {
        assert requiredFields[k] == "solution" || requiredFields[k] == "steps";
        return None;
      }
    }
    assert HasKey(parsedData, requiredFields[0]) && HasKey(parsedData, requiredFields[1]);
    parsedData := Set(parsedData, "original_problem", JStr(originalProblem));
    parsedData := Set(parsedData, "ai_provider", JStr(aiProvider));
    result := Some(parsedData);
  }

  /**
   * JSON is tried only for an answer that opens with `{` once stripped, and
   * the whole stripped answer is what gets decoded; anything else, or a
   * decode error, goes to the unstructured parser with the unstripped answer.
   */
  lemma JsonOnlyForBraceOpening(responseText: string, originalProblem: string, aiProvider: string,
                                loads: string -> Option<Dict>)
    requires !StartsWith(Strip(responseText), "{") || loads(Strip(responseText)).None?
    ensures CleanAiResponse(responseText, originalProblem, aiProvider, loads)
              == Some(UnstructuredResult(responseText, originalProblem, aiProvider))
  {
  }

  /**
   * A decoded object that names an error, or lacks `solution` or `steps`,
   * yields None: unlike the full solver there is no fallback for it.
   */
  lemma NoneForErrorOrMissingField(responseText: string, originalProblem: string, aiProvider: string,
                                   loads: string -> Option<Dict>)
    ensures var text := Strip(responseText);
            CleanAiResponse(responseText, originalProblem, aiProvider, loads).None?
            <==> (StartsWith(text, "{") && loads(text).Some?
                  && (HasKey(loads(text).value, "error")
                      || !HasKey(loads(text).value, "solution") || !HasKey(loads(text).value, "steps")))
  {
  }

  /** An accepted object is returned as decoded, steps untouched, with the metadata added. */
  lemma AcceptedUnchanged(responseText: string, originalProblem: string, aiProvider: string,
                          loads: string -> Option<Dict>, d: Dict)
    requires StartsWith(Strip(responseText), "{") && loads(Strip(responseText)) == Some(d)
    requires !HasKey(d, "error") && HasKey(d, "solution") && HasKey(d, "steps")
    ensures var r := CleanAiResponse(responseText, originalProblem, aiProvider, loads);
            && r.Some?
            && Get(r.value, "steps") == Get(d, "steps")
            && Get(r.value, "solution") == Get(d, "solution")
            && Get(r.value, "original_problem") == Some(JStr(originalProblem))
            && Get(r.value, "ai_provider") == Some(JStr(aiProvider))
  {
    AddMetadataFields(d, originalProblem, aiProvider);
  }

  /** `extract_text_from_image`: OCR is switched off, so no text is ever read. */
  function ExtractTextFromImage(imagePath: string): (r: Option<string>)
    ensures r.None?
  {
    None
  }
}
