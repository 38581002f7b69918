/**
 * The demo solver of the web front end (web_demo.py): a fixed table of
 * three worked problems, looked up first by exact text, then by a shared
 * word, and otherwise answered with a demo notice.
 */
module WebDemo {
  import opened Wrappers
  import opened Text
  import opened Json
  import opened ResponseParsing

  /** `demo_solutions`, in its insertion order. */
  const DemoSolutions: seq<(string, Dict)> := [
    ("2+2", [
      ("solution", JStr("4")),
      ("steps", JArr(StringList(["This is a simple addition problem", "Add 2 + 2", "The result is 4"]))),
      ("problem_type", JStr("arithmetic")),
      ("difficulty", JStr("elementary"))]),
    ("solve for x: 2x + 5 = 15", [
      ("solution", JStr("x = 5")),
      ("steps", JArr(StringList(["Start with the equation: 2x + 5 = 15", "Subtract 5 from both sides: 2x = 10",
                                 "Divide both sides by 2: x = 5", "Check: 2(5) + 5 = 15 \U{2713}"]))),
      ("problem_type", JStr("algebra")),
      ("difficulty", JStr("middle_school"))]),
    ("derivative of x^2", [
      ("solution", JStr("2x")),
      ("steps", JArr(StringList(["We need to find d/dx(x\U{B2})",
                                 "Using the power rule: d/dx(x\U{207F}) = n\U{B7}x\U{207F}\U{207B}\U{B9}",
                                 "For x\U{B2}: n = 2",
                                 "So d/dx(x\U{B2}) = 2\U{B7}x\U{B2}\U{207B}\U{B9} = 2x"]))),
      ("problem_type", JStr("calculus")),
      ("difficulty", JStr("high_school"))])]

  const DemoNotice: string := "This is a demo version. Try: '2+2', 'solve for x: 2x + 5 = 15', or 'derivative of x^2'"

  /** The index of the first table key equal to `p` once lowered, searching from `i`. */
  function FindExact(table: seq<(string, Dict)>, p: string, i: nat): (r: Option<nat>)
    requires i <= |table|
    ensures r.Some? ==> i <= r.value < |table| && Lower(table[r.value].0) == p
                        && forall j :: i <= j < r.value ==> Lower(table[j].0) != p
    ensures r.None? ==> forall j :: i <= j < |table| ==> Lower(table[j].0) != p
    decreases |table| - i
  {
    if i == |table| then None
    else if p == Lower(table[i].0) then Some(i)
    else FindExact(table, p, i + 1)
  }

  /** The words of a key longer than two characters, in order. */
  function LongWords(words: seq<string>): (r: seq<string>)
    ensures |r| <= |words|
  {
    if words == [] then []
    else (if |words[0]| > 2 then [words[0]] else []) + LongWords(words[1..])
  }

  /** The long words are exactly the words of more than two characters. */
  lemma {:induction false} LongWordsMeans(words: seq<string>)
    ensures var r := LongWords(words);
            && (forall k :: 0 <= k < |r| ==> |r[k]| > 2 && r[k] in words)
            && (forall k :: 0 <= k < |words| && |words[k]| > 2 ==> words[k] in r)
  {
    if words != [] {
      LongWordsMeans(words[1..]);
      assert forall k :: 1 <= k < |words| ==> words[k] == words[1..][k - 1];
    }
  }

  /** `any(word in p for word in key.lower().split() if len(word) > 2)`. */
  predicate SharesWord(p: string, key: string) {
    ContainsAny(p, LongWords(SplitWhitespace(Lower(key))))
  }

  /** A key matches partially exactly when one of its words of three or more characters occurs in `p`. */
  lemma SharesWordMeans(p: string, key: string)
    ensures SharesWord(p, key) <==>
              exists w :: w in SplitWhitespace(Lower(key)) && |w| > 2 && Contains(p, w)
  {
    var words := SplitWhitespace(Lower(key));
    var long := LongWords(words);
    LongWordsMeans(words);
    ContainsAnyMeans(p, long);
    if exists w :: w in words && |w| > 2 && Contains(p, w) {
      var w :| w in words && |w| > 2 && Contains(p, w);
      var k :| 0 <= k < |long| && long[k] == w;
    }
  }

  /** The index of the first table key sharing a word with `p`, searching from `i`. */
  function FindPartial(table: seq<(string, Dict)>, p: string, i: nat): (r: Option<nat>)
    requires i <= |table|
    ensures r.Some? ==> i <= r.value < |table| && SharesWord(p, table[r.value].0)
                        && forall j :: i <= j < r.value ==> !SharesWord(p, table[j].0)
    ensures r.None? ==> forall j :: i <= j < |table| ==> !SharesWord(p, table[j].0)
    decreases |table| - i
  {
    if i == |table| then None
    else if SharesWord(p, table[i].0) then Some(i)
    else FindPartial(table, p, i + 1)
  }

  /** The steps of the answer for a problem outside the table. */
  const DefaultSteps: Json := JArr(StringList(["This is a demonstration of the Math Tutor Bot",
                                              "The full version uses OpenAI GPT or Google Gemini",
                                              "Configure your API keys in .env to enable full functionality",
                                              "For now, try one of the demo problems above"]))

  /** The shape of the default answer, for any notice and steps. */
  function NoticeAnswer(notice: string, steps: Json, problemText: string): Dict {
    [("solution", JStr(notice)),
     ("steps", steps),
     ("problem_type", JStr("demo")),
     ("difficulty", JStr("demo")),
     ("original_problem", JStr(problemText)),
     ("ai_provider", JStr("demo"))]
  }

  /** The answer for a problem outside the table. */
  function DefaultAnswer(problemText: string): Dict {
    NoticeAnswer(DemoNotice, DefaultSteps, problemText)
  }

  /** `solve_problem` over a given table: exact match, then shared word, then the default. */
  function Solve(table: seq<(string, Dict)>, problemText: string): Dict {
    var p := Strip(Lower(problemText));
    match FindExact(table, p, 0)
    case Some(i) => AddMetadata(table[i].1, problemText, "demo")
    case None =>
      match FindPartial(table, p, 0)
      case Some(i) => AddMetadata(table[i].1, problemText, "demo")
      case None => DefaultAnswer(problemText)
  }

  /** `DemoMathSolver.solve_problem`. */
  function SolveProblem(problemText: string): Dict {
    Solve(DemoSolutions, problemText)
  }

  /**
   * Exact matches are tried first, over the whole table: when some key
   * equals the lowered, stripped problem, the answer is the first such
   * entry, whatever partial matches come before it.
   */
  lemma ExactMatchFirst(table: seq<(string, Dict)>, problemText: string, i: nat)
    requires i < |table| && Lower(table[i].0) == Strip(Lower(problemText))
    requires forall j :: 0 <= j < i ==> Lower(table[j].0) != Strip(Lower(problemText))
    ensures Solve(table, problemText) == AddMetadata(table[i].1, problemText, "demo")
  {
  }

  /** With no exact match, the first entry sharing a long word answers. */
  lemma PartialMatchNext(table: seq<(string, Dict)>, problemText: string, i: nat)
    requires forall j :: 0 <= j < |table| ==> Lower(table[j].0) != Strip(Lower(problemText))
    requires i < |table| && SharesWord(Strip(Lower(problemText)), table[i].0)
    requires forall j :: 0 <= j < i ==> !SharesWord(Strip(Lower(problemText)), table[j].0)
    ensures Solve(table, problemText) == AddMetadata(table[i].1, problemText, "demo")
  {
    var p := Strip(Lower(problemText));
    var e := FindExact(table, p, 0);
    if e.Some? {
      assert false;
    }
    var m := FindPartial(table, p, 0);
    if m.None? || m.value != i {
      assert false;
    }
  }

  /** With no match of either kind the demo notice answers, typed and graded as `demo`. */
  lemma NoMatchDefault(table: seq<(string, Dict)>, problemText: string)
    requires forall j :: 0 <= j < |table| ==> Lower(table[j].0) != Strip(Lower(problemText))
    requires forall j :: 0 <= j < |table| ==> !SharesWord(Strip(Lower(problemText)), table[j].0)
    ensures var r := Solve(table, problemText);
            && Get(r, "solution") == Some(JStr(DemoNotice))
            && Get(r, "problem_type") == Some(JStr("demo"))
            && Get(r, "difficulty") == Some(JStr("demo"))
  {
    assert Solve(table, problemText) == DefaultAnswer(problemText);
    NoticeAnswerFields(DemoNotice, DefaultSteps, problemText);
  }

  /** The fields of the default answer, read back by key. */
  lemma NoticeAnswerFields(notice: string, steps: Json, problemText: string)
    ensures Get(NoticeAnswer(notice, steps, problemText), "solution") == Some(JStr(notice))
    ensures Get(NoticeAnswer(notice, steps, problemText), "problem_type") == Some(JStr("demo"))
    ensures Get(NoticeAnswer(notice, steps, problemText), "difficulty") == Some(JStr("demo"))
  {
    NoticeAnswerAt(notice, steps, problemText, 0);
    NoticeAnswerAt(notice, steps, problemText, 2);
    NoticeAnswerAt(notice, steps, problemText, 3);
  }

  /** The tags of the default answer, read back by key. */
  lemma NoticeAnswerTags(notice: string, steps: Json, problemText: string)
    ensures Get(NoticeAnswer(notice, steps, problemText), "original_problem") == Some(JStr(problemText))
    ensures Get(NoticeAnswer(notice, steps, problemText), "ai_provider") == Some(JStr("demo"))
  {
    NoticeAnswerAt(notice, steps, problemText, 4);
    NoticeAnswerAt(notice, steps, problemText, 5);
  }

  /** Each field of the default answer is found under its key: the six keys differ in length. */
  lemma NoticeAnswerAt(notice: string, steps: Json, problemText: string, i: nat)
    requires i < 6
    ensures var d := NoticeAnswer(notice, steps, problemText);
            Get(d, d[i].0) == Some(d[i].1)
  {
    var d := NoticeAnswer(notice, steps, problemText);
    var lengths := [8, 5, 12, 10, 16, 11];
    assert forall j :: 0 <= j < 6 ==> |d[j].0| == lengths[j];
    GetAt(d, d[i].0, i);
  }

  /** Every answer names the problem exactly as it was typed and the `demo` provider. */
  lemma SolveAlwaysTagged(table: seq<(string, Dict)>, problemText: string)
    ensures var r := Solve(table, problemText);
            && Get(r, "original_problem") == Some(JStr(problemText))
            && Get(r, "ai_provider") == Some(JStr("demo"))
  {
    var p := Strip(Lower(problemText));
    var e := FindExact(table, p, 0);
    var m := FindPartial(table, p, 0);
    if e.Some? {
      AddMetadataFields(table[e.value].1, problemText, "demo");
    } else if m.Some? {
      AddMetadataFields(table[m.value].1, problemText, "demo");
    } else {
      DefaultTagged(problemText);
    }
  }

  lemma DefaultTagged(problemText: string)
    ensures Get(DefaultAnswer(problemText), "original_problem") == Some(JStr(problemText))
    ensures Get(DefaultAnswer(problemText), "ai_provider") == Some(JStr("demo"))
  {
    NoticeAnswerTags(DemoNotice, DefaultSteps, problemText);
  }
}
