/**
 * The text the Telegram bot (bot.py) sends: the solution formatter, the
 * Markdown escaper, and the questions behind the demo buttons.
 */
module TelegramBot {
  import opened Wrappers
  import opened Text
  import opened Json

  // ---------------------------------------------------------------------
  // _format_solution
  // ---------------------------------------------------------------------

  const DefaultSolution := "No solution provided"
  const SolutionHeading := "\U{1F3AF} Solution:\n"
  const StepsHeading := "\U{1F4CB} Step-by-step explanation:\n"
  const LatexHeading := "\U{1F4D0} LaTeX: "
  const FormatError := "\U{274C} Error formatting the solution. The problem was solved but couldn't be displayed properly."
  /** The leftover of a JSON list opening that the AI sometimes sends as a step. */
  const MalformedEntry := "\"steps\": ["

  /** The opening of every formatted answer: the heading and `str(solution)`, or the default. */
  function Opening(solutionData: Dict): string {
    var solution := match Get(solutionData, "solution")
                    case None => DefaultSolution
                    case Some(v) => Str(v);
    SolutionHeading + solution + "\n\n"
  }

  /** Python's `t[1:-k]` for k >= 1: empty when the string is too short. */
  function InnerSlice(t: string, k: nat): (r: string)
    requires k >= 1
    ensures |r| == if |t| >= 1 + k then |t| - 1 - k else 0
    ensures |t| >= 1 + k ==> t == [t[0]] + r + t[|t| - k..]
  {
    if |t| >= 1 + k then t[1..|t| - k] else []
  }

  /** A step quoted as a JSON list item loses its quotes and trailing comma. */
  function Unquote(t: string): (r: string)
    ensures |r| <= |t|
    ensures r != t ==> StartsWith(t, "\"") && |r| < |t|
  {
    if StartsWith(t, "\"") && EndsWith(t, "\",") then InnerSlice(t, 2)
    else if StartsWith(t, "\"") && EndsWith(t, "\"") then InnerSlice(t, 1)
    else t
  }

  /**
   * What `Unquote` removes is exactly the opening quote and the closing
   * `",` or `"`; text that does not open with a quote is left alone.
   */
  lemma UnquoteRemovesQuotes(t: string)
    ensures StartsWith(t, "\"") && EndsWith(t, "\",") && |t| >= 3 ==> t == "\"" + Unquote(t) + "\","
    ensures StartsWith(t, "\"") && !EndsWith(t, "\",") && EndsWith(t, "\"") && |t| >= 2 ==> t == "\"" + Unquote(t) + "\""
    ensures !StartsWith(t, "\"") ==> Unquote(t) == t
  {
    if StartsWith(t, "\"") && |t| >= 2 {
      assert [t[0]] == t[..1] == "\"";
      if EndsWith(t, "\",") {
        if |t| >= 3 {
          assert t[|t| - 2..] == "\",";
        }
      } else if EndsWith(t, "\"") {
        assert t[|t| - 1..] == "\"";
      }
    }
  }

  /** The unquoted text of one step entry. */
  function Unquoted(step: Json): string {
    Unquote(Strip(Str(step)))
  }

  /** An entry the formatter skips: the malformed list opening, empty, or under ten characters. */
  predicate Skipped(t: string) {
    t == MalformedEntry || t == "" || |t| < 10
  }

  /** What a kept step shows: its unquoted text with the bold markers removed. */
  function Shown(t: string): string {
    Replace(t, "**", "")
  }

  /** The shown text of one entry: none when skipped. */
  function StepShown(step: Json): seq<string> {
    if Skipped(Unquoted(step)) then [] else [Shown(Unquoted(step))]
  }

  /** The texts of the steps that are shown, in order. */
  function ShownSteps(items: seq<Json>): (r: seq<string>)
    ensures |r| <= |items|
  {
    if items == [] then []
    else StepShown(items[0]) + ShownSteps(items[1..])
  }

  /** The numbered step lines, counting from `n`. */
  function Numbered(texts: seq<string>, n: int): string {
    if texts == [] then "" else NumberedLine(n, texts[0]) + Numbered(texts[1..], n + 1)
  }

  /** `f"{step_count}. {step_text}\n\n"`. */
  function NumberedLine(n: int, text: string): string {
    IntToString(n) + ". " + text + "\n\n"
  }

  /** The LaTeX line, present only when `latex` is truthy. */
  function LatexLine(solutionData: Dict): string {
    match Get(solutionData, "latex")
    case Some(v) => if Truthy(v) then LatexHeading + Str(v) else ""
    case None => ""
  }

  /**
   * What `_format_solution` returns. A `steps` value that is truthy but not
   * iterable raises TypeError, which the handler turns into the error text.
   */
  function FormattedSolution(solutionData: Dict): string {
    var steps := Get(solutionData, "steps");
    if steps.Some? && Truthy(steps.value) then
      match Iterate(steps.value)
      case None => FormatError
      case Some(items) => Opening(solutionData) + StepsHeading + Numbered(ShownSteps(items), 1) + LatexLine(solutionData)
    else Opening(solutionData) + LatexLine(solutionData)
  }

  /** `_format_solution`, accumulating `formatted` and counting the shown steps. */
  method FormatSolution(solutionData: Dict) returns (formatted: string)
    ensures formatted == FormattedSolution(solutionData)
  {
    formatted := Opening(solutionData);
    var steps := Get(solutionData, "steps");
    if steps.Some? && Truthy(steps.value) {
      var iterated := Iterate(steps.value);
      if iterated.None? {
        return FormatError;
      }
      formatted := formatted + StepsHeading;
      var items := iterated.value;
      var lines := NumberSteps(items);
      formatted := formatted + lines;
    }
    formatted := formatted + LatexLine(solutionData);
  }

  /**
   * The body of the step loop for one entry: strip it, unquote it, skip it
   * if malformed or short, and otherwise drop its bold markers.
   */
  method ShowStep(step: Json) returns (shown: bool, text: string)
    ensures shown == !Skipped(Unquoted(step))
    ensures shown ==> text == Shown(Unquoted(step))
  {
    var stepText := Strip(Str(step));
    if StartsWith(stepText, "\"") && EndsWith(stepText, "\",") {
      stepText := InnerSlice(stepText, 2);
    } else if StartsWith(stepText, "\"") && EndsWith(stepText, "\"") {
      stepText := InnerSlice(stepText, 1);
    }
    if stepText == MalformedEntry || stepText == "" || |stepText| < 10 {
      return false, stepText;
    }
    shown, text := true, Replace(stepText, "**", "");
  }

  /** The step loop of `_format_solution`: only shown steps take a number. */
  method NumberSteps(items: seq<Json>) returns (lines: string)
    ensures lines == Numbered(ShownSteps(items), 1)
  {
    lines := "";
    var stepCount := 1;
    for i := 0 to |items|
      invariant stepCount == |ShownSteps(items[..i])| + 1
      invariant lines == Numbered(ShownSteps(items[..i]), 1)
    {
      ShownStepsStep(items, i);
      var shown, stepText := ShowStep(items[i]);
      if shown {
        NumberedStep(ShownSteps(items[..i]), stepText, 1);
        lines := lines + (IntToString(stepCount) + ". " + stepText + "\n\n");
        stepCount := stepCount + 1;
      } else {
        assert ShownSteps(items[..i]) + [] == ShownSteps(items[..i]);
      }
    }
    assert items[..|items|] == items;
  }

  /** The shown steps of one more entry: those so far, then the entry's own, if shown. */
  lemma ShownStepsStep(items: seq<Json>, i: nat)
    requires i < |items|
    ensures ShownSteps(items[..i + 1]) == ShownSteps(items[..i]) + StepShown(items[i])
  {
    assert items[..i + 1] == items[..i] + [items[i]];
    ShownStepsAppend(items[..i], [items[i]]);
    assert [items[i]][1..] == [];
    assert ShownSteps([items[i]]) == StepShown(items[i]) + [];
  }

  /** Numbering one more shown step appends its line, numbered after the others. */
  lemma NumberedStep(texts: seq<string>, text: string, n: int)
    ensures Numbered(texts + [text], n) == Numbered(texts, n) + NumberedLine(n + |texts|, text)
  {
    NumberedAppend(texts, [text], n);
    assert [text][1..] == [];
  }

  /** Shown steps follow the entries: the steps of two runs of entries are the two lists joined. */
  lemma {:induction false} ShownStepsAppend(a: seq<Json>, b: seq<Json>)
    ensures ShownSteps(a + b) == ShownSteps(a) + ShownSteps(b)
  {
    if a == [] {
      assert a + b == b;
    } else {
      assert (a + b)[0] == a[0] && (a + b)[1..] == a[1..] + b;
      ShownStepsAppend(a[1..], b);
      JoinAssoc(StepShown(a[0]), ShownSteps(a[1..]), ShownSteps(b));
    }
  }

  /** Numbering carries on across a join: the second part starts where the first stopped. */
  lemma {:induction false} NumberedAppend(a: seq<string>, b: seq<string>, n: int)
    ensures Numbered(a + b, n) == Numbered(a, n) + Numbered(b, n + |a|)
  {
    if a == [] {
      assert a + b == b;
    } else {
      assert (a + b)[0] == a[0] && (a + b)[1..] == a[1..] + b;
      NumberedAppend(a[1..], b, n + 1);
    }
  }

  /** Every shown step comes from an entry that is not skipped, with its bold markers removed. */
  lemma ShownStepSource(items: seq<Json>, k: nat)
    requires k < |ShownSteps(items)|
    ensures exists i :: 0 <= i < |items| && !Skipped(Unquoted(items[i]))
                        && ShownSteps(items)[k] == Shown(Unquoted(items[i]))
  {
    ShownStepIn(items, k);
    var i :| 0 <= i < |items| && ShownSteps(items)[k] in StepShown(items[i]);
    assert !Skipped(Unquoted(items[i])) && ShownSteps(items)[k] == Shown(Unquoted(items[i]));
  }

  /** Every shown step is the shown text of some entry. */
  lemma {:induction false} ShownStepIn(items: seq<Json>, k: nat)
    requires k < |ShownSteps(items)|
    ensures exists i :: 0 <= i < |items| && ShownSteps(items)[k] in StepShown(items[i])
  {
    var rest := items[1..];
    var head := StepShown(items[0]);
    assert ShownSteps(items) == head + ShownSteps(rest);
    if k >= |head| {
      ShownStepIn(rest, k - |head|);
      var i :| 0 <= i < |rest| && ShownSteps(rest)[k - |head|] in StepShown(rest[i]);
      assert ShownSteps(items)[k] == ShownSteps(rest)[k - |head|];
      assert items[i + 1] == rest[i];
      assert ShownSteps(items)[k] in StepShown(items[i + 1]);
    } else {
      assert ShownSteps(items)[k] == head[k];
      assert ShownSteps(items)[k] in StepShown(items[0]);
    }
  }

  /** No shown step holds `**`. */
  lemma ShownStepsClean(items: seq<Json>)
    ensures forall k :: 0 <= k < |ShownSteps(items)| ==> NoPair(ShownSteps(items)[k], '*')
  {
    forall k | 0 <= k < |ShownSteps(items)|
      ensures NoPair(ShownSteps(items)[k], '*')
    {
      ShownStepSource(items, k);
      var i :| 0 <= i < |items| && !Skipped(Unquoted(items[i])) && ShownSteps(items)[k] == Shown(Unquoted(items[i]));
      ReplacePairGone(Unquoted(items[i]), '*');
      assert "**" == ['*', '*'];
    }
  }

  /** The test data's leftover list opening is skipped, bare or quoted as a list item. */
  lemma MalformedEntrySkipped()
    ensures ShownSteps([JStr(MalformedEntry)]) == []
    ensures ShownSteps([JStr("\"" + MalformedEntry + "\",")]) == []
    ensures ShownSteps([JStr("\"" + MalformedEntry + "\"")]) == []
  {
    MalformedEntryBare();
    MalformedEntryQuotedComma();
    MalformedEntryQuoted();
  }

  lemma MalformedEntryBare()
    ensures Unquoted(JStr(MalformedEntry)) == MalformedEntry
  {
    StripTrimmedText(MalformedEntry);
    assert !EndsWith(MalformedEntry, "\"");
  }

  lemma MalformedEntryQuotedComma()
    ensures Unquoted(JStr("\"" + MalformedEntry + "\",")) == MalformedEntry
  {
    var t := "\"" + MalformedEntry + "\",";
    StripTrimmedText(t);
    assert StartsWith(t, "\"") && EndsWith(t, "\",");
    assert t[1..|t| - 2] == MalformedEntry;
  }

  lemma MalformedEntryQuoted()
    ensures Unquoted(JStr("\"" + MalformedEntry + "\"")) == MalformedEntry
  {
    var t := "\"" + MalformedEntry + "\"";
    StripTrimmedText(t);
    assert StartsWith(t, "\"") && EndsWith(t, "\"");
    assert t[|t| - 2..] == "[\"";
    assert !EndsWith(t, "\",");
    assert t[1..|t| - 1] == MalformedEntry;
  }

  /**
   * The answer opens with the solution heading and the solution; the step
   * heading follows exactly when `steps` is truthy; the LaTeX line closes it.
   */
  lemma FormattedSolutionLayout(solutionData: Dict)
    ensures var r := FormattedSolution(solutionData);
            var steps := Get(solutionData, "steps");
            && (steps.Some? && Truthy(steps.value) && Iterate(steps.value).Some? ==>
                  r == Opening(solutionData) + StepsHeading + Numbered(ShownSteps(Iterate(steps.value).value), 1)
                       + LatexLine(solutionData))
            && (!(steps.Some? && Truthy(steps.value)) ==> r == Opening(solutionData) + LatexLine(solutionData))
            && (steps.Some? && Truthy(steps.value) && Iterate(steps.value).None? ==> r == FormatError)
  {
  }

  // ---------------------------------------------------------------------
  // _escape_markdown
  // ---------------------------------------------------------------------

  /** The characters `_escape_markdown` puts a backslash in front of, in its order. */
  const Specials: seq<char> := ['*', '_', '[', ']', '(', ')', '`']

  /** `_escape_markdown`: drop bold and underline markers, then escape each special character. */
  function EscapeMarkdown(text: string): string {
    var t := Replace(Replace(text, "**", ""), "__", "");
    var t := Replace(t, "*", "\\*");
    var t := Replace(t, "_", "\\_");
    var t := Replace(t, "[", "\\[");
    var t := Replace(t, "]", "\\]");
    var t := Replace(t, "(", "\\(");
    var t := Replace(t, ")", "\\)");
    Replace(t, "`", "\\`")
  }

  /** One character as the escaper writes it. */
  function EscapeChar(c: char): string {
    if c in Specials then ['\\', c] else [c]
  }

  /** Every special character escaped, in a single left-to-right pass. */
  function EscapeAll(s: string): string {
    if s == [] then [] else EscapeChar(s[0]) + EscapeAll(s[1..])
  }

  /** Every special character of `s` has a backslash right before it. */
  predicate Escaped(s: string) {
    forall i :: 0 <= i < |s| && s[i] in Specials ==> i > 0 && s[i - 1] == '\\'
  }

  /** The seven substitutions applied one after another. */
  function EscapeChain(t: string): string {
    var t := SubstChar(t, '*', "\\*");
    var t := SubstChar(t, '_', "\\_");
    var t := SubstChar(t, '[', "\\[");
    var t := SubstChar(t, ']', "\\]");
    var t := SubstChar(t, '(', "\\(");
    var t := SubstChar(t, ')', "\\)");
    SubstChar(t, '`', "\\`")
  }

  lemma EscapeChainAppend(a: string, b: string)
    ensures EscapeChain(a + b) == EscapeChain(a) + EscapeChain(b)
  {
    var a1, b1 := SubstChar(a, '*', "\\*"), SubstChar(b, '*', "\\*");
    SubstCharAppend(a, b, '*', "\\*");
    var a2, b2 := SubstChar(a1, '_', "\\_"), SubstChar(b1, '_', "\\_");
    SubstCharAppend(a1, b1, '_', "\\_");
    var a3, b3 := SubstChar(a2, '[', "\\["), SubstChar(b2, '[', "\\[");
    SubstCharAppend(a2, b2, '[', "\\[");
    var a4, b4 := SubstChar(a3, ']', "\\]"), SubstChar(b3, ']', "\\]");
    SubstCharAppend(a3, b3, ']', "\\]");
    var a5, b5 := SubstChar(a4, '(', "\\("), SubstChar(b4, '(', "\\(");
    SubstCharAppend(a4, b4, '(', "\\(");
    var a6, b6 := SubstChar(a5, ')', "\\)"), SubstChar(b5, ')', "\\)");
    SubstCharAppend(a5, b5, ')', "\\)");
    SubstCharAppend(a6, b6, '`', "\\`");
  }

  /** On a string none of whose characters is `c`, the substitution changes nothing. */
  lemma {:induction false} SubstCharAbsent(s: string, c: char, rep: string)
    requires c !in s
    ensures SubstChar(s, c, rep) == s
  {
    if s != [] {
      SubstCharAbsent(s[1..], c, rep);
    }
  }

  /** A single character, with its backslash once it has been escaped. */
  function Cell(c: char, escaped: bool): string {
    if escaped then ['\\', c] else [c]
  }

  /**
   * The substitution for `Specials[k]` on a single character that the
   * earlier substitutions may have escaped: the character gets its backslash
   * if it is the one being escaped, and an escaped character is left alone.
   */
  lemma SubstCellStep(c: char, k: nat)
    requires k < |Specials|
    ensures SubstChar(Cell(c, c in Specials[..k]), Specials[k], ['\\', Specials[k]]) == Cell(c, c in Specials[..k + 1])
  {
    var d := Specials[k];
    assert Specials[..k + 1] == Specials[..k] + [d];
    SpecialsDistinct();
    var rep := ['\\', d];
    if c in Specials[..k] {
      var i :| 0 <= i < k && Specials[i] == c;
      assert SubstChar([c], d, rep) == [c] + SubstChar([], d, rep);
      assert SubstChar(['\\', c], d, rep) == ['\\'] + SubstChar(['\\', c][1..], d, rep);
      assert ['\\', c][1..] == [c];
    } else {
      assert SubstChar([c], d, rep) == (if c == d then rep else [c]) + SubstChar([], d, rep);
    }
  }

  /** The special characters are seven different characters, none of them a backslash. */
  lemma SpecialsDistinct()
    ensures forall i, j :: 0 <= i < j < |Specials| ==> Specials[i] != Specials[j]
    ensures forall j :: 0 <= j < |Specials| ==> Specials[j] != '\\'
  {
  }

  /** On one character, the seven substitutions write what EscapeChar writes. */
  lemma EscapeChainChar(c: char)
    ensures EscapeChain([c]) == EscapeChar(c)
  {
    assert Specials[..0] == [];
    SubstCellStep(c, 0);
    SubstCellStep(c, 1);
    SubstCellStep(c, 2);
    SubstCellStep(c, 3);
    SubstCellStep(c, 4);
    SubstCellStep(c, 5);
    SubstCellStep(c, 6);
    assert Specials[..7] == Specials;
  }

  lemma {:induction false} EscapeChainIsEscapeAll(s: string)
    ensures EscapeChain(s) == EscapeAll(s)
  {
    if s != [] {
      assert s == [s[0]] + s[1..];
      EscapeChainAppend([s[0]], s[1..]);
      EscapeChainChar(s[0]);
      EscapeChainIsEscapeAll(s[1..]);
    }
  }

  /** `replace` with a one-character pattern is the character substitution, seven times. */
  lemma EscapeMarkdownByChain(text: string)
    ensures EscapeMarkdown(text) == EscapeAll(Replace(Replace(text, "**", ""), "__", ""))
  {
    var t0 := Replace(Replace(text, "**", ""), "__", "");
    ReplaceSingleChar(t0, '*', "\\*");
    var t1 := SubstChar(t0, '*', "\\*");
    ReplaceSingleChar(t1, '_', "\\_");
    var t2 := SubstChar(t1, '_', "\\_");
    ReplaceSingleChar(t2, '[', "\\[");
    var t3 := SubstChar(t2, '[', "\\[");
    ReplaceSingleChar(t3, ']', "\\]");
    var t4 := SubstChar(t3, ']', "\\]");
    ReplaceSingleChar(t4, '(', "\\(");
    var t5 := SubstChar(t4, '(', "\\(");
    ReplaceSingleChar(t5, ')', "\\)");
    var t6 := SubstChar(t5, ')', "\\)");
    ReplaceSingleChar(t6, '`', "\\`");
    EscapeChainIsEscapeAll(t0);
  }

  lemma {:induction false} EscapeAllEscapes(s: string)
    ensures Escaped(EscapeAll(s))
  {
    if s != [] {
      EscapeAllEscapes(s[1..]);
      var h := EscapeChar(s[0]);
      var rest := EscapeAll(s[1..]);
      var r := h + rest;
      forall i | 0 <= i < |r| && r[i] in Specials ensures i > 0 && r[i - 1] == '\\' {
        if i >= |h| {
          assert r[i] == rest[i - |h|];
          if i > |h| { assert r[i - 1] == rest[i - |h| - 1]; }
        }
      }
    }
  }

  /**
   * After `_escape_markdown` every special character has a backslash
   * right before it, so no `**` and no `__` is left.
   */
  lemma EscapeMarkdownEscapes(text: string)
    ensures Escaped(EscapeMarkdown(text))
    ensures NoPair(EscapeMarkdown(text), '*') && NoPair(EscapeMarkdown(text), '_')
  {
    var t0 := Replace(Replace(text, "**", ""), "__", "");
    EscapeMarkdownByChain(text);
    EscapeAllEscapes(t0);
    var r := EscapeMarkdown(text);
    forall i | 0 <= i < |r| - 1 ensures !(r[i] == '*' && r[i + 1] == '*') && !(r[i] == '_' && r[i + 1] == '_') {
      if r[i + 1] in Specials {
        assert r[i] == '\\';
      }
    }
  }

  /** Reading an escaped text back: a backslash before a special character is dropped. */
  function Unescape(s: string): string {
    if s == [] then []
    else if |s| >= 2 && s[0] == '\\' && s[1] in Specials then [s[1]] + Unescape(s[2..])
    else [s[0]] + Unescape(s[1..])
  }

  /** Escaping loses nothing: reading the escaped text back gives the text that was escaped. */
  lemma {:induction false} UnescapeEscapeAll(s: string)
    ensures Unescape(EscapeAll(s)) == s
  {
    if s != [] {
      var rest := EscapeAll(s[1..]);
      UnescapeEscapeAll(s[1..]);
      EscapeAllEscapes(s[1..]);
      if s[0] in Specials {
        assert EscapeAll(s) == ['\\', s[0]] + rest;
        assert (['\\', s[0]] + rest)[2..] == rest;
      } else {
        assert EscapeAll(s) == [s[0]] + rest;
        assert ([s[0]] + rest)[1..] == rest;
        if s[0] == '\\' && rest != [] {
          assert rest[0] !in Specials;
        }
      }
    }
  }

  // ---------------------------------------------------------------------
  // handle_demo_question
  // ---------------------------------------------------------------------

  /** The demo buttons' callback data and the question each one asks. */
  const DemoQuestions: seq<(string, string)> := [
    ("demo_basic_addition", "What is 2 + 2?"),
    ("demo_quadratic", "Solve: x\U{B2} - 5x + 6 = 0"),
    ("demo_derivative", "Find the derivative of x\U{B3} + 2x"),
    ("demo_pythagoras", "In a right triangle, if one leg is 3 and the other is 4, what is the hypotenuse?"),
    ("demo_fact", "What is the mathematical constant \U{3C0} (pi)?")
  ]

  /** The question a demo button asks; None for callback data that names no demo. */
  function DemoQuestion(data: string): (r: Option<string>)
    ensures r.Some? <==> exists i :: 0 <= i < |DemoQuestions| && DemoQuestions[i].0 == data
    ensures forall i :: 0 <= i < |DemoQuestions| && DemoQuestions[i].0 == data ==> r == Some(DemoQuestions[i].1)
  {
    DemoKeysDistinct();
    Lookup(DemoQuestions, data)
  }

  /** No two demo buttons share their callback data. */
  lemma DemoKeysDistinct()
    ensures forall i, j :: 0 <= i < j < |DemoQuestions| ==> DemoQuestions[i].0 != DemoQuestions[j].0
  {
    var keys := seq(|DemoQuestions|, i requires 0 <= i < |DemoQuestions| => DemoQuestions[i].0);
    assert |keys[0]| == 19 && |keys[1]| == 14 && |keys[2]| == 15 && |keys[3]| == 15 && |keys[4]| == 9;
    assert keys[2][5] != keys[3][5];
  }

  /** A dict lookup over (key, value) pairs with distinct keys. */
  function Lookup(table: seq<(string, string)>, key: string): (r: Option<string>)
    ensures r.Some? <==> exists i :: 0 <= i < |table| && table[i].0 == key
    ensures r.Some? ==> exists i :: 0 <= i < |table| && table[i] == (key, r.value)
    ensures forall i :: (0 <= i < |table| && table[i].0 == key
                         && forall j :: 0 <= j < i ==> table[j].0 != key) ==> r == Some(table[i].1)
  {
    if table == [] then None
    else if table[0].0 == key then Some(table[0].1)
    else
      var r := Lookup(table[1..], key);
      assert forall i :: 1 <= i < |table| ==> table[i] == table[1..][i - 1];
      r
  }
}
