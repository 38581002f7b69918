/**
 * The fallback parser both solvers use when the AI's answer is not usable
 * JSON (`_parse_unstructured_response`, identical in ai_solver.py and
 * ai_solver_clean.py): the last line that names a solution gives the
 * solution, lines that read like steps become the steps, and when there are
 * none the response is cut into sentences instead.
 */
module ResponseParsing {
  import opened Text
  import opened Wrappers
  import opened Json

  const DefaultSolution := "See explanation below"
  const SolutionMarkers: seq<string> := ["solution:", "answer:", "result:"]
  const StepMarkers: seq<string> := ["step", "first", "second", "then", "next", "finally"]
  /** The most sentences kept when the response has no step lines. */
  const MaxSentenceSteps := 10

  /** A (stripped) line that announces the solution. */
  predicate IsSolutionLine(line: string) {
    ContainsAny(Lower(line), SolutionMarkers)
  }

  /** A (stripped) line kept as a step: it reads like a step and does not announce the solution. */
  predicate IsStepLine(line: string) {
    !IsSolutionLine(line) && ContainsAny(Lower(line), StepMarkers)
  }

  /** `line.split(':', 1)[1].strip() if ':' in line else line`. */
  function SolutionOf(line: string): (r: string)
    ensures ':' in line ==> Trimmed(r) && |r| < |line|
    ensures ':' !in line ==> r == line
  {
    var k := Find(line, ':');
    if k < 0 then line
    else
      StripMeans(line[k + 1..]);
      Strip(line[k + 1..])
  }

  /** Lowering never creates or removes a colon. */
  lemma {:induction false} ColonSurvivesLower(s: string)
    ensures ':' in Lower(s) <==> ':' in s
  {
    if ':' in Lower(s) {
      var i :| 0 <= i < |s| && Lower(s)[i] == ':';
      assert s[i] == ':';
    }
    if ':' in s {
      var i :| 0 <= i < |s| && s[i] == ':';
      assert Lower(s)[i] == ':';
    }
  }

  /** Every solution marker ends in a colon, so a solution line always has one. */
  lemma SolutionLineHasColon(line: string)
    requires IsSolutionLine(line)
    ensures ':' in line
  {
    ContainsAnyMeans(Lower(line), SolutionMarkers);
    var k :| 0 <= k < |SolutionMarkers| && Contains(Lower(line), SolutionMarkers[k]);
    var m := SolutionMarkers[k];
    ContainsOccurs(Lower(line), m);
    var i :| 0 <= i <= |Lower(line)| && OccursAt(Lower(line), m, i);
    assert Lower(line)[i + |m| - 1] == m[|m| - 1] == ':';
    ColonSurvivesLower(line);
  }

  /** What one stripped line contributes to the parse. */
  datatype LineKind =
    | Announces(solution: string)
    | Step(text: string)
    | Other

  /** The `if`/`elif` of the line loop: a solution line wins over a step line. */
  function Classify(line: string): LineKind {
    if IsSolutionLine(line) then Announces(SolutionOf(line))
    else if ContainsAny(Lower(line), StepMarkers) then Step(line)
    else Other
  }

  /**
   * A line announces a solution exactly when it names a solution marker, and
   * is a step exactly when it names a step word and no solution marker; a
   * step is the line itself.
   */
  lemma ClassifyMeans(line: string)
    ensures Classify(line).Announces? <==> IsSolutionLine(line)
    ensures Classify(line).Step? <==> IsStepLine(line)
    ensures Classify(line).Step? ==> Classify(line).text == line
  {
  }

  /** An announced solution is the trimmed text after the line's first colon. */
  lemma AnnouncedSolutionAfterColon(line: string)
    requires Classify(line).Announces?
    ensures var k := Find(line, ':');
            0 <= k && Classify(line).solution == Strip(line[k + 1..]) && Trimmed(Classify(line).solution)
  {
    assert IsSolutionLine(line);
    SolutionLineHasColon(line);
    assert Classify(line).solution == SolutionOf(line);
  }

  /** The classification of every line of a response, stripped as the loop strips it. */
  function LineKinds(lines: seq<string>): (r: seq<LineKind>)
    ensures |r| == |lines| && forall i :: 0 <= i < |lines| ==> r[i] == Classify(Strip(lines[i]))
  {
    seq(|lines|, i requires 0 <= i < |lines| => Classify(Strip(lines[i])))
  }

  /**
   * The solution the line loop holds after reading lines of the given
   * kinds, having started with `current`: every announcement overwrites it.
   */
  function ScanSolution(kinds: seq<LineKind>, current: string): string {
    if kinds == [] then current
    else ScanSolution(kinds[1..], SolutionAfter(kinds[0], current))
  }

  /** The solution held after one line: an announcement replaces it, other lines keep it. */
  function SolutionAfter(kind: LineKind, current: string): string {
    if kind.Announces? then kind.solution else current
  }

  /** The steps one line contributes: itself if it is a step line, nothing otherwise. */
  function StepsOf(kind: LineKind): seq<string> {
    if kind.Step? then [kind.text] else []
  }

  /** The last announcement decides the solution; with none, the starting value stays. */
  lemma {:induction false} LastAnnouncementWins(kinds: seq<LineKind>, current: string)
    ensures (forall i :: 0 <= i < |kinds| ==> !kinds[i].Announces?) ==> ScanSolution(kinds, current) == current
    ensures forall j :: 0 <= j < |kinds| && kinds[j].Announces? && (forall k :: j < k < |kinds| ==> !kinds[k].Announces?)
                        ==> ScanSolution(kinds, current) == kinds[j].solution
  {
    if kinds != [] {
      var rest := kinds[1..];
      var next := SolutionAfter(kinds[0], current);
      LastAnnouncementWins(rest, next);
      assert forall k :: 1 <= k < |kinds| ==> kinds[k] == rest[k - 1];
    }
  }

  /** The step texts of lines of the given kinds, in order. */
  function StepTexts(kinds: seq<LineKind>): (r: seq<string>)
    ensures |r| <= |kinds|
  {
    if kinds == [] then []
    else StepsOf(kinds[0]) + StepTexts(kinds[1..])
  }

  /** The steps are exactly the step lines: each comes from one, and none is missed. */
  lemma {:induction false} StepTextsExact(kinds: seq<LineKind>)
    ensures forall k :: 0 <= k < |StepTexts(kinds)| ==> Step(StepTexts(kinds)[k]) in kinds
    ensures forall i :: 0 <= i < |kinds| && kinds[i].Step? ==> kinds[i].text in StepTexts(kinds)
  {
    if kinds != [] {
      var rest := kinds[1..];
      StepTextsExact(rest);
      assert forall x :: x in rest ==> x in kinds;
      assert forall i :: 1 <= i < |kinds| ==> kinds[i] == rest[i - 1];
    }
  }

  /** A fallback step: more than ten characters of text closed by its only full stop. */
  predicate IsSentence(x: string) {
    |x| > 11 && x[|x| - 1] == '.' && '.' !in x[..|x| - 1]
  }

  /** A piece long enough, once stripped, to become a fallback step. */
  predicate LongPiece(piece: string) {
    |Strip(piece)| > 10
  }

  /** The step a piece becomes: stripped, with its full stop put back. */
  function Sentence(piece: string): string {
    Strip(piece) + "."
  }

  lemma SentenceOfPiece(piece: string)
    requires '.' !in piece && LongPiece(piece)
    ensures IsSentence(Sentence(piece))
  {
    var s := Strip(piece);
    StripKeepsChars(piece);
    assert (s + ".")[..|s + "."| - 1] == s;
    assert '.' !in s;
  }

  /** `[s.strip() + '.' for s in pieces if len(s.strip()) > 10]`. */
  function SentenceCandidates(pieces: seq<string>): (r: seq<string>)
    requires forall i :: 0 <= i < |pieces| ==> '.' !in pieces[i]
    ensures |r| <= |pieces|
    ensures forall k :: 0 <= k < |r| ==> IsSentence(r[k])
  {
    if pieces == [] then []
    else
      var rest := SentenceCandidates(pieces[1..]);
      if LongPiece(pieces[0]) then
        SentenceOfPiece(pieces[0]);
        [Sentence(pieces[0])] + rest
      else rest
  }

  /** The candidates of two runs of pieces are those of the first, then those of the second. */
  lemma {:induction false} SentenceCandidatesAppend(a: seq<string>, b: seq<string>)
    requires forall i :: 0 <= i < |a| ==> '.' !in a[i]
    requires forall i :: 0 <= i < |b| ==> '.' !in b[i]
    ensures forall i :: 0 <= i < |a + b| ==> '.' !in (a + b)[i]
    ensures SentenceCandidates(a + b) == SentenceCandidates(a) + SentenceCandidates(b)
  {
    if a == [] {
      assert a + b == b;
    } else {
      assert (a + b)[0] == a[0] && (a + b)[1..] == a[1..] + b;
      SentenceCandidatesAppend(a[1..], b);
    }
  }

  /** `x` is the step made from some long piece. */
  predicate FromLongPiece(pieces: seq<string>, x: string) {
    exists i :: 0 <= i < |pieces| && LongPiece(pieces[i]) && x == Sentence(pieces[i])
  }

  /** Every candidate is the step made from a long piece. */
  lemma {:induction false} SentenceCandidatesFromPieces(pieces: seq<string>)
    requires forall i :: 0 <= i < |pieces| ==> '.' !in pieces[i]
    ensures forall k :: 0 <= k < |SentenceCandidates(pieces)| ==> FromLongPiece(pieces, SentenceCandidates(pieces)[k])
  {
    if pieces != [] {
      var rest := pieces[1..];
      SentenceCandidatesFromPieces(rest);
      var r := SentenceCandidates(pieces);
      var head := if LongPiece(pieces[0]) then [Sentence(pieces[0])] else [];
      assert r == head + SentenceCandidates(rest);
      forall k | 0 <= k < |r| ensures FromLongPiece(pieces, r[k]) {
        if k < |head| {
          assert LongPiece(pieces[0]) && r[k] == Sentence(pieces[0]);
        } else {
          assert FromLongPiece(rest, r[k]);
          var i :| 0 <= i < |rest| && LongPiece(rest[i]) && r[k] == Sentence(rest[i]);
          assert rest[i] == pieces[i + 1];
        }
      }
    }
  }

  /** Every long piece gives a candidate. */
  lemma {:induction false} SentenceCandidatesComplete(pieces: seq<string>)
    requires forall i :: 0 <= i < |pieces| ==> '.' !in pieces[i]
    ensures forall i :: 0 <= i < |pieces| && LongPiece(pieces[i]) ==> Sentence(pieces[i]) in SentenceCandidates(pieces)
  {
    if pieces != [] {
      var rest := pieces[1..];
      SentenceCandidatesComplete(rest);
      forall i | 0 <= i < |pieces| && LongPiece(pieces[i]) ensures Sentence(pieces[i]) in SentenceCandidates(pieces) {
        if i > 0 {
          assert pieces[i] == rest[i - 1];
        }
      }
    }
  }

  /** The fallback steps: the first ten candidates of the `.`-pieces of the response, or all when fewer. */
  function SentenceSteps(text: string): (r: seq<string>)
    ensures var c := SentenceCandidates(Split(text, '.'));
            && |r| == (if |c| < MaxSentenceSteps then |c| else MaxSentenceSteps)
            && r == c[..|r|]
    ensures forall k :: 0 <= k < |r| ==> IsSentence(r[k])
  {
    Take(SentenceCandidates(Split(text, '.')), MaxSentenceSteps)
  }

  /** A list of strings as a JSON list. */
  function StringList(xs: seq<string>): (r: seq<Json>)
    ensures |r| == |xs| && forall i :: 0 <= i < |xs| ==> r[i] == JStr(xs[i])
  {
    seq(|xs|, i requires 0 <= i < |xs| => JStr(xs[i]))
  }

  /** The dict a solver hands to the formatters, in the fallback parser's key order. */
  function ParsedDict(solution: string, steps: seq<string>, explanation: string,
                      originalProblem: string, aiProvider: string): Dict {
    [ ("solution", JStr(solution)),
      ("steps", JArr(StringList(steps))),
      ("explanation", JStr(explanation)),
      ("original_problem", JStr(originalProblem)),
      ("ai_provider", JStr(aiProvider)),
      ("problem_type", JStr("unknown")),
      ("difficulty", JStr("unknown")) ]
  }

  lemma ParsedDictDistinct(d: Dict)
    requires |d| == 7
    requires Keys(d) == ["solution", "steps", "explanation", "original_problem", "ai_provider", "problem_type", "difficulty"]
    ensures DistinctKeys(d)
  {
    forall i, j | 0 <= i < j < |d| ensures d[i].0 != d[j].0 {
      assert d[i].0 == Keys(d)[i] && d[j].0 == Keys(d)[j];
    }
  }

  /** Every field of the fallback dict reads back under its key, and no key repeats. */
  lemma ParsedDictFields(solution: string, steps: seq<string>, explanation: string,
                         originalProblem: string, aiProvider: string)
    ensures DistinctKeys(ParsedDict(solution, steps, explanation, originalProblem, aiProvider))
    ensures var d := ParsedDict(solution, steps, explanation, originalProblem, aiProvider);
            && Get(d, "solution") == Some(JStr(solution))
            && Get(d, "steps") == Some(JArr(StringList(steps)))
            && Get(d, "explanation") == Some(JStr(explanation))
            && Get(d, "original_problem") == Some(JStr(originalProblem))
            && Get(d, "ai_provider") == Some(JStr(aiProvider))
            && Get(d, "problem_type") == Some(JStr("unknown"))
            && Get(d, "difficulty") == Some(JStr("unknown"))
  {
    var d := ParsedDict(solution, steps, explanation, originalProblem, aiProvider);
    ParsedDictDistinct(d);
    DistinctGet(d, 0);
    DistinctGet(d, 1);
    DistinctGet(d, 2);
    DistinctGet(d, 3);
    DistinctGet(d, 4);
    DistinctGet(d, 5);
    DistinctGet(d, 6);
  }

  /** The metadata both solvers write into a parsed answer (`parsed_data[...] = ...`). */
  function AddMetadata(d: Dict, originalProblem: string, aiProvider: string): Dict {
    Set(Set(d, "original_problem", JStr(originalProblem)), "ai_provider", JStr(aiProvider))
  }

  /** The metadata is set and every other key keeps its value. */
  lemma AddMetadataFields(d: Dict, originalProblem: string, aiProvider: string)
    ensures var r := AddMetadata(d, originalProblem, aiProvider);
            && Get(r, "original_problem") == Some(JStr(originalProblem))
            && Get(r, "ai_provider") == Some(JStr(aiProvider))
            && (forall k :: k != "original_problem" && k != "ai_provider" ==> Get(r, k) == Get(d, k))
  {
    var d1 := Set(d, "original_problem", JStr(originalProblem));
    SetGet(d, "original_problem", JStr(originalProblem));
    SetGet(d1, "ai_provider", JStr(aiProvider));
  }

  /** The existing keys keep their order, and a dict without repeated keys stays so. */
  lemma AddMetadataKeys(d: Dict, originalProblem: string, aiProvider: string)
    ensures var r := AddMetadata(d, originalProblem, aiProvider);
            && |d| <= |r| && Keys(r)[..|d|] == Keys(d)
            && (DistinctKeys(d) ==> DistinctKeys(r))
  {
    var d1 := Set(d, "original_problem", JStr(originalProblem));
    var r := Set(d1, "ai_provider", JStr(aiProvider));
    SetKeys(d, "original_problem", JStr(originalProblem));
    SetKeys(d1, "ai_provider", JStr(aiProvider));
    assert Keys(d1)[..|d|] == Keys(d);
    assert Keys(r)[..|d1|] == Keys(d1);
    assert Keys(r)[..|d|] == Keys(r)[..|d1|][..|d|];
    if DistinctKeys(d) {
      SetDistinct(d, "original_problem", JStr(originalProblem));
      SetDistinct(d1, "ai_provider", JStr(aiProvider));
    }
  }

  /** What `_parse_unstructured_response` returns (the timestamp is not modelled). */
  function UnstructuredResult(responseText: string, originalProblem: string, aiProvider: string): Dict {
    var kinds := LineKinds(Split(Strip(responseText), '\n'));
    var stepLines := StepTexts(kinds);
    var steps := if stepLines == [] then SentenceSteps(responseText) else stepLines;
    ParsedDict(ScanSolution(kinds, DefaultSolution), steps, responseText, originalProblem, aiProvider)
  }

  /**
   * The whole response is the explanation; the steps are the step lines of
   * the response or, when it has none, at most ten of its sentences.
   */
  lemma UnstructuredResultShape(responseText: string, originalProblem: string, aiProvider: string)
    ensures var r := UnstructuredResult(responseText, originalProblem, aiProvider);
            var kinds := LineKinds(Split(Strip(responseText), '\n'));
            && DistinctKeys(r)
            && Get(r, "solution") == Some(JStr(ScanSolution(kinds, DefaultSolution)))
            && Get(r, "explanation") == Some(JStr(responseText))
            && Get(r, "original_problem") == Some(JStr(originalProblem))
            && Get(r, "ai_provider") == Some(JStr(aiProvider))
            && Get(r, "problem_type") == Some(JStr("unknown"))
            && Get(r, "difficulty") == Some(JStr("unknown"))
            && (StepTexts(kinds) != [] ==> Get(r, "steps") == Some(JArr(StringList(StepTexts(kinds)))))
            && (StepTexts(kinds) == [] ==> Get(r, "steps") == Some(JArr(StringList(SentenceSteps(responseText)))))
  {
    var kinds := LineKinds(Split(Strip(responseText), '\n'));
    var steps := if StepTexts(kinds) == [] then SentenceSteps(responseText) else StepTexts(kinds);
    ParsedDictFields(ScanSolution(kinds, DefaultSolution), steps, responseText, originalProblem, aiProvider);
  }

  /** A line kept as a step is that line stripped, so it has no line break and no outer whitespace. */
  lemma StepIsStrippedLine(piece: string)
    requires '\n' !in piece
    ensures Classify(Strip(piece)).Step? ==> '\n' !in Classify(Strip(piece)).text && Trimmed(Classify(Strip(piece)).text)
  {
    StripKeepsChars(piece);
    StripMeans(piece);
  }

  /** Every step is one whole stripped line of the response: it never spans a line break. */
  lemma StepsAreSingleLines(responseText: string)
    ensures forall step :: step in StepTexts(LineKinds(Split(Strip(responseText), '\n'))) ==> '\n' !in step && Trimmed(step)
  {
    var pieces := Split(Strip(responseText), '\n');
    var kinds := LineKinds(pieces);
    StepTextsExact(kinds);
    forall step | step in StepTexts(kinds) ensures '\n' !in step && Trimmed(step) {
      var i :| 0 <= i < |kinds| && kinds[i] == Step(step);
      StepIsStrippedLine(pieces[i]);
    }
  }

  /** `_parse_unstructured_response`: the line loop, then the sentence fallback. */
  method ParseUnstructuredResponse(responseText: string, originalProblem: string, aiProvider: string)
    returns (result: Dict)
    ensures result == UnstructuredResult(responseText, originalProblem, aiProvider)
  {
    var lines := Split(Strip(responseText), '\n');
    var solution, steps := ScanLines(lines);
    if steps == [] {
      var sentences := Split(responseText, '.');
      steps := Take(SentenceCandidates(sentences), MaxSentenceSteps);
    }
    result := ParsedDict(solution, steps, responseText, originalProblem, aiProvider);
  }

  /** Reading one more line moves both scans on by that line's kind. */
  lemma ScanOneLine(kinds: seq<LineKind>, i: nat, solution: string, steps: seq<string>)
    requires i < |kinds|
    ensures ScanSolution(kinds[i..], solution) == ScanSolution(kinds[i + 1..], SolutionAfter(kinds[i], solution))
    ensures steps + StepTexts(kinds[i..]) == (steps + StepsOf(kinds[i])) + StepTexts(kinds[i + 1..])
  {
    assert kinds[i..][1..] == kinds[i + 1..];
  }

  /**
   * One pass of the loop body: strip the line, then a solution marker
   * replaces the solution, or else a step word adds the line to the steps.
   */
  method ReadLine(raw: string, solution: string, steps: seq<string>)
    returns (solution': string, steps': seq<string>)
    ensures solution' == SolutionAfter(Classify(Strip(raw)), solution)
    ensures steps' == steps + StepsOf(Classify(Strip(raw)))
  {
    var line := Strip(raw);
    solution', steps' := solution, steps;
    if IsSolutionLine(line) {
      solution' := SolutionOf(line);
    } else if ContainsAny(Lower(line), StepMarkers) {
      steps' := steps + [line];
    }
  }

  /** The loop over the lines: the last solution announced, and the step lines in order. */
  method ScanLines(lines: seq<string>) returns (solution: string, steps: seq<string>)
    ensures solution == ScanSolution(LineKinds(lines), DefaultSolution)
    ensures steps == StepTexts(LineKinds(lines))
  {
    ghost var kinds := LineKinds(lines);
    solution := DefaultSolution;
    steps := [];
    var i := 0;
    assert kinds[i..] == kinds;
    while i < |lines|
      invariant 0 <= i <= |lines|
      invariant ScanSolution(kinds[i..], solution) == ScanSolution(kinds, DefaultSolution)
      invariant steps + StepTexts(kinds[i..]) == StepTexts(kinds)
    {
      ScanOneLine(kinds, i, solution, steps);
      solution, steps := ReadLine(lines[i], solution, steps);
      i := i + 1;
    }
  }
}
