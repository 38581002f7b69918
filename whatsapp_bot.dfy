/**
 * The WhatsApp front end (whatsapp_bot.py): how an incoming webhook form is
 * routed, how the caller id is derived from the phone number, and the
 * WhatsApp layout of a solution.
 */
module WhatsAppBot {
  import opened Wrappers
  import opened Text
  import opened Json

  // ---------------------------------------------------------------------
  // _format_solution
  // ---------------------------------------------------------------------

  const SolutionHeading := "*\U{1F3AF} Solution:*\n"
  const StepsHeading := "*\U{1F4CB} Step-by-step:*\n"

  /** `f"{i}. {step}\n"`. */
  function StepLine(i: int, step: Json): string {
    IntToString(i) + ". " + Str(step) + "\n"
  }

  /** The step lines of `enumerate(steps, n)`: every entry, as it is, numbered from `n`. */
  function StepLines(items: seq<Json>, n: int): string {
    if items == [] then "" else StepLine(n, items[0]) + StepLines(items[1..], n + 1)
  }

  /**
   * What `_format_solution` returns; None where it raises: `solution`
   * missing (KeyError) or a truthy `steps` that cannot be iterated
   * (TypeError).
   */
  function FormattedSolution(solutionData: Dict): Option<string> {
    match Get(solutionData, "solution")
    case None => None
    case Some(solution) =>
      var head := SolutionHeading + Str(solution) + "\n\n";
      var steps := Get(solutionData, "steps");
      if steps.Some? && Truthy(steps.value) then
        match Iterate(steps.value)
        case None => None
        case Some(items) => Some(head + StepsHeading + StepLines(items, 1))
      else Some(head)
  }

  /** `_format_solution`, accumulating `formatted` over `enumerate(steps, 1)`. */
  method FormatSolution(solutionData: Dict) returns (formatted: Option<string>)
    ensures formatted == FormattedSolution(solutionData)
  {
    var solution := Get(solutionData, "solution");
    if solution.None? {
      return None;
    }
    var text := SolutionHeading + Str(solution.value) + "\n\n";
    var steps := Get(solutionData, "steps");
    if steps.Some? && Truthy(steps.value) {
      var iterated := Iterate(steps.value);
      if iterated.None? {
        return None;
      }
      text := AppendStepLines(text + StepsHeading, iterated.value);
    }
    formatted := Some(text);
  }

  /** The `for i, step in enumerate(steps, 1)` loop: one numbered line per entry, appended in order. */
  method AppendStepLines(start: string, items: seq<Json>) returns (text: string)
    ensures text == start + StepLines(items, 1)
  {
    text := start;
    for i := 0 to |items|
      invariant text == start + StepLines(items[..i], 1)
    {
      StepLinesStep(items, i);
      JoinAssoc(start, StepLines(items[..i], 1), StepLine(i + 1, items[i]));
      text := text + (IntToString(i + 1) + ". " + Str(items[i]) + "\n");
    }
    assert items[..|items|] == items;
  }

  /** Numbering carries on across a join, with no entry dropped. */
  lemma {:induction false} StepLinesAppend(a: seq<Json>, b: seq<Json>, n: int)
    ensures StepLines(a + b, n) == StepLines(a, n) + StepLines(b, n + |a|)
  {
    if a == [] {
      assert a + b == b;
    } else {
      assert (a + b)[0] == a[0] && (a + b)[1..] == a[1..] + b;
      StepLinesAppend(a[1..], b, n + 1);
    }
  }

  /** The step lines of one more entry: the lines so far, then the entry's own line. */
  lemma StepLinesStep(items: seq<Json>, i: nat)
    requires i < |items|
    ensures StepLines(items[..i + 1], 1) == StepLines(items[..i], 1) + StepLine(i + 1, items[i])
  {
    assert items[..i + 1] == items[..i] + [items[i]];
    StepLinesAppend(items[..i], [items[i]], 1);
    assert [items[i]][1..] == [];
  }

  /**
   * The answer opens with the heading and `str(solution)`; the step heading
   * and the step lines follow exactly when `steps` is truthy. A missing
   * `solution` raises instead of falling back to a default, and so does a
   * truthy `steps` that cannot be iterated.
   */
  lemma FormattedSolutionLayout(solutionData: Dict)
    ensures !HasKey(solutionData, "solution") ==> FormattedSolution(solutionData).None?
    ensures var s := Get(solutionData, "solution");
            var steps := Get(solutionData, "steps");
            s.Some? ==>
              var head := SolutionHeading + Str(s.value) + "\n\n";
              && (!(steps.Some? && Truthy(steps.value)) ==> FormattedSolution(solutionData) == Some(head))
              && (steps.Some? && Truthy(steps.value) && Iterate(steps.value).Some? ==>
                    FormattedSolution(solutionData) == Some(head + StepsHeading + StepLines(Iterate(steps.value).value, 1)))
    ensures var steps := Get(solutionData, "steps");
            steps.Some? && Truthy(steps.value) && Iterate(steps.value).None? ==> FormattedSolution(solutionData).None?
  {
  }

  /** Every entry gets its own line, numbered by its position from `n`: nothing is filtered. */
  lemma StepLinesEach(items: seq<Json>, n: int, k: int)
    requires 0 <= k < |items|
    ensures StepLines(items, n) == StepLines(items[..k], n) + StepLine(n + k, items[k]) + StepLines(items[k + 1..], n + k + 1)
  {
    var before, rest := items[..k], items[k + 1..];
    assert items == before + ([items[k]] + rest);
    StepLinesAppend(before, [items[k]] + rest, n);
    assert StepLines([items[k]] + rest, n + k) == StepLine(n + k, items[k]) + StepLines(rest, n + k + 1) by {
      assert ([items[k]] + rest)[1..] == rest;
    }
    JoinAssoc(StepLines(before, n), StepLine(n + k, items[k]), StepLines(rest, n + k + 1));
  }

  /** Unlike the Telegram layout, the leftover list opening is kept as a numbered step. */
  lemma MalformedEntryKept(e: string)
    ensures StepLines([JStr(e)], 1) == "1. " + e + "\n"
  {
    assert IntToString(1) == "1";
  }

  // ---------------------------------------------------------------------
  // _handle_incoming_message
  // ---------------------------------------------------------------------

  /** The webhook form fields the handler reads; None is a field that was not sent. */
  datatype Form = Form(from: Option<string>, body: Option<string>, mediaUrl: Option<string>)

  /** What the handler does with a message. */
  datatype Route =
    | NoSender                                              // answered `('No sender information', 400)`
    | SolveImage(userId: int, phone: string, mediaUrl: string)
    | Welcome
    | Help
    | SolveText(userId: int, phone: string, message: string)
    | AskForProblem

  const UserIdRange: int := 1000000

  /**
   * `hash(from_number) % 1000000`. Python's `%` with a positive divisor
   * takes the sign of the divisor, as Dafny's does; the string hash is a
   * parameter.
   */
  function UserId(phone: string, hash: string -> int): (id: int)
    ensures 0 <= id < UserIdRange
    ensures (hash(phone) - id) % UserIdRange == 0
  {
    hash(phone) % UserIdRange
  }

  const Greetings: seq<string> := ["/start", "start", "hello", "hi"]
  const HelpWords: seq<string> := ["/help", "help"]

  /**
   * The decision of `_handle_incoming_message`. The rate limiter's
   * `check_rate_limit` is a coroutine called without `await`: the object
   * is truthy, so the check never turns a message away and does not
   * appear here.
   */
  function RouteMessage(form: Form, hash: string -> int): Route {
    var fromNumber := Replace(if form.from.Some? then form.from.value else "", "whatsapp:", "");
    var body := Strip(if form.body.Some? then form.body.value else "");
    if fromNumber == "" then NoSender
    else
      var userId := UserId(fromNumber, hash);
      if form.mediaUrl.Some? && form.mediaUrl.value != "" then SolveImage(userId, fromNumber, form.mediaUrl.value)
      else if body != "" then
        if Lower(body) in Greetings then Welcome
        else if Lower(body) in HelpWords then Help
        else SolveText(userId, fromNumber, body)
      else AskForProblem
  }

  /** A sender whose number is empty once the `whatsapp:` prefix is dropped gets the 400 answer, and only they do. */
  lemma NoSenderExactly(form: Form, hash: string -> int)
    ensures (RouteMessage(form, hash) == NoSender) <==> Replace(if form.from.Some? then form.from.value else "", "whatsapp:", "") == ""
  {
  }

  /** An image wins over any text sent with it, and the caller id is in range. */
  lemma MediaTakesPriority(form: Form, hash: string -> int)
    requires Replace(if form.from.Some? then form.from.value else "", "whatsapp:", "") != ""
    requires form.mediaUrl.Some? && form.mediaUrl.value != ""
    ensures var r := RouteMessage(form, hash);
            r.SolveImage? && r.mediaUrl == form.mediaUrl.value && 0 <= r.userId < UserIdRange
  {
  }

  /**
   * Without an image: a greeting gets the welcome text, a help word the
   * help text, any other non-blank text is solved with the caller id in
   * range, and a blank message gets the prompt.
   */
  lemma TextRouting(form: Form, hash: string -> int)
    requires Replace(if form.from.Some? then form.from.value else "", "whatsapp:", "") != ""
    requires !(form.mediaUrl.Some? && form.mediaUrl.value != "")
    ensures var body := Strip(if form.body.Some? then form.body.value else "");
            var r := RouteMessage(form, hash);
            && (r == Welcome <==> body != "" && Lower(body) in Greetings)
            && (r == Help <==> body != "" && Lower(body) in HelpWords)
            && (r == AskForProblem <==> body == "")
            && (r.SolveText? <==> body != "" && Lower(body) !in Greetings && Lower(body) !in HelpWords)
            && (r.SolveText? ==> r.message == body && 0 <= r.userId < UserIdRange)
  {
  }
}
