/** The validated prompt `get_user_input` (bikeshare.py:18-48): read lines until
    one, lower-cased and stripped, is an accepted choice, honouring the reserved
    words "end" (leave the program) and "help" (show the options, ask again).

    The console is a sequence of input lines and a cursor into it. The
    specification functions read the answers, that is the lines once lower-cased
    and stripped; the method reads the raw lines and normalizes each itself. */
module UserInput {
  import opened Text

  /** What a prompt that reads from the console ends with. `next` is the cursor
      just past the line that decided the outcome. `Exit` stands for
      `SystemExit`; `OutOfInput` for the input running dry first. */
  datatype Outcome<T> = Accepted(value: T, next: nat) | Exit(next: nat) | OutOfInput

  /** The default choices of the prompt (bikeshare.py:18). */
  const YesNo: seq<string> := ["yes", "no"]

  /** How one answer is treated. */
  datatype Verdict = Chosen(choice: string) | EndRequested | HelpRequested | Unrecognised {
    /** The prompt asks again after this answer. */
    predicate Retry() {
      HelpRequested? || Unrecognised?
    }
  }

  /** The message printed for an answer after which the prompt asks again. */
  datatype Notice = Options(hint: seq<string>) | NotValid

  /** The answers the console gives: every line lower-cased and stripped. */
  function Answers(lines: seq<string>): (answers: seq<string>)
    ensures |answers| == |lines|
  {
    if lines == [] then [] else [Normalize(lines[0])] + Answers(lines[1..])
  }

  lemma {:induction false} AnswerAt(lines: seq<string>, k: nat)
    requires k < |lines|
    ensures Answers(lines)[k] == Normalize(lines[k])
  {
    if k > 0 {
      AnswerAt(lines[1..], k - 1);
    }
  }

  /** The classification of one answer (bikeshare.py:33-46): membership in
      `choices` is tested before the reserved words, so a choice list holding
      "end" or "help" takes those words as answers. */
  function Classify(answer: string, choices: seq<string>): Verdict {
    if answer in choices then Chosen(answer)
    else if answer == "end" then EndRequested
    else if answer == "help" then HelpRequested
    else Unrecognised
  }

  function NoticeFor(v: Verdict, hint: seq<string>): Notice {
    if v.HelpRequested? then Options(hint) else NotValid
  }

  /** The outcome of `get_user_input` given the answers from cursor `at` on. */
  function Prompt(answers: seq<string>, at: nat, choices: seq<string>): (r: Outcome<string>)
    decreases |answers| - at
    ensures r.Accepted? ==> at < r.next <= |answers| && r.value in choices
                            && r.value == answers[r.next - 1]
    ensures r.Exit? ==> at < r.next <= |answers| && answers[r.next - 1] == "end"
                        && "end" !in choices
  {
    if at >= |answers| then OutOfInput
    else match Classify(answers[at], choices)
      case Chosen(choice) => Accepted(choice, at + 1)
      case EndRequested => Exit(at + 1)
      case _ => Prompt(answers, at + 1, choices)
  }

  /** Every answer from `from` up to, not including, `to` makes the prompt ask again. */
  ghost predicate AllRetry(answers: seq<string>, from: nat, to: nat, choices: seq<string>)
    requires to <= |answers|
  {
    forall k :: from <= k < to ==> Classify(answers[k], choices).Retry()
  }

  /** The prompt only ever passes over answers it must re-prompt after: help
      and invalid answers never end it. */
  lemma {:induction false} PromptSkipsOnlyRetries(answers: seq<string>, at: nat, choices: seq<string>)
    requires at <= |answers|
    ensures var r := Prompt(answers, at, choices);
            r.OutOfInput? ==> AllRetry(answers, at, |answers|, choices)
    ensures var r := Prompt(answers, at, choices);
            !r.OutOfInput? ==> AllRetry(answers, at, r.next - 1, choices)
    decreases |answers| - at
  {
    if at < |answers| && Classify(answers[at], choices).Retry() {
      PromptSkipsOnlyRetries(answers, at + 1, choices);
    }
  }

  /** Conversely, the first answer that is not a retry decides the prompt:
      a choice is returned, "end" exits, whatever came before. */
  lemma {:induction false} PromptDecidedAt(answers: seq<string>, at: nat, choices: seq<string>, n: nat)
    requires at < n <= |answers|
    requires AllRetry(answers, at, n - 1, choices)
    requires !Classify(answers[n - 1], choices).Retry()
    ensures Prompt(answers, at, choices) ==
              if answers[n - 1] in choices then Accepted(answers[n - 1], n) else Exit(n)
    decreases n - at
  {
    if at < n - 1 {
      PromptDecidedAt(answers, at + 1, choices, n);
    }
  }

  /** The prompt runs out of input exactly when every remaining answer is a retry. */
  lemma {:induction false} PromptOutOfInputIff(answers: seq<string>, at: nat, choices: seq<string>)
    requires at <= |answers|
    ensures Prompt(answers, at, choices).OutOfInput? <==> AllRetry(answers, at, |answers|, choices)
    decreases |answers| - at
  {
    if at < |answers| {
      PromptOutOfInputIff(answers, at + 1, choices);
    }
  }

  /** On the console: what the prompt returns is the deciding line lower-cased
      and stripped, and it exits on a line that reads "end" once normalized. */
  lemma PromptReturnsNormalizedLine(lines: seq<string>, at: nat, choices: seq<string>)
    ensures var r := Prompt(Answers(lines), at, choices);
            r.Accepted? ==> r.value == Normalize(lines[r.next - 1])
    ensures var r := Prompt(Answers(lines), at, choices);
            r.Exit? ==> Normalize(lines[r.next - 1]) == "end" && "end" !in choices
  {
    var r := Prompt(Answers(lines), at, choices);
    if !r.OutOfInput? {
      AnswerAt(lines, r.next - 1);
    }
  }

  /** A line is classified by its normal form only: the same line with other
      capitals, or already normalized, is treated alike. */
  lemma ClassifyIgnoresCase(line: string, choices: seq<string>)
    ensures Classify(Normalize(Lower(line)), choices) == Classify(Normalize(line), choices)
    ensures Classify(Normalize(Normalize(line)), choices) == Classify(Normalize(line), choices)
  {
    NormalizeIgnoresCase(line);
    NormalizeIdempotent(line);
  }

  /** `input(prompt).lower().strip()`: the answer on line `i`. */
  method ReadAnswer(lines: seq<string>, i: nat) returns (answer: string)
    requires i < |lines|
    ensures answer == Answers(lines)[i]
  {
    answer := Normalize(lines[i]);
    AnswerAt(lines, i);
  }

  /** The messages printed, in order, for the answers from `lo` up to, not
      including, `hi`. */
  function NoticesFor(answers: seq<string>, lo: nat, hi: nat, choices: seq<string>, hint: seq<string>)
    : (notices: seq<Notice>)
    requires lo <= hi <= |answers|
    ensures |notices| == hi - lo
    decreases hi - lo
  {
    if hi == lo then []
    else NoticesFor(answers, lo, hi - 1, choices, hint) + [NoticeFor(Classify(answers[hi - 1], choices), hint)]
  }

  lemma {:induction false} NoticeAt(answers: seq<string>, lo: nat, hi: nat, choices: seq<string>, hint: seq<string>, k: nat)
    requires lo <= hi <= |answers| && k < hi - lo
    ensures NoticesFor(answers, lo, hi, choices, hint)[k] == NoticeFor(Classify(answers[lo + k], choices), hint)
    decreases hi
  {
    if k < hi - 1 - lo {
      NoticeAt(answers, lo, hi - 1, choices, hint, k);
    }
  }

  /** The prompt prints the options exactly after the answers "help" and the
      error message after every other answer it passed over. */
  lemma NoticesExplainRetries(answers: seq<string>, at: nat, choices: seq<string>, hint: seq<string>)
    requires at <= |answers|
    ensures var r := Prompt(answers, at, choices);
            var stop := if r.OutOfInput? then |answers| else r.next - 1;
            at <= stop <= |answers|
            && forall k :: 0 <= k < stop - at ==>
                 NoticesFor(answers, at, stop, choices, hint)[k]
                 == if answers[at + k] == "help" then Options(hint) else NotValid
  {
    var r := Prompt(answers, at, choices);
    var stop := if r.OutOfInput? then |answers| else r.next - 1;
    PromptSkipsOnlyRetries(answers, at, choices);
    forall k | 0 <= k < stop - at
      ensures NoticesFor(answers, at, stop, choices, hint)[k]
              == if answers[at + k] == "help" then Options(hint) else NotValid
    {
      NoticeAt(answers, at, stop, choices, hint, k);
      assert Classify(answers[at + k], choices).Retry();
    }
  }

  /** `get_user_input(prompt, choices, hint)`: the loop of bikeshare.py:30-46. It
      returns the outcome and the messages printed for the lines it passed over
      (each of which made it ask again, by `PromptSkipsOnlyRetries`). */
  method ReadChoice(lines: seq<string>, at: nat, choices: seq<string>, hint: seq<string>)
      returns (r: Outcome<string>, notices: seq<Notice>)
    requires at <= |lines|
    ensures r == Prompt(Answers(lines), at, choices)
    ensures var stop := if r.OutOfInput? then |lines| else r.next - 1;
            at <= stop <= |lines| && notices == NoticesFor(Answers(lines), at, stop, choices, hint)
  {
    ghost var answers := Answers(lines);
    var i := at;
    notices := [];
    while i < |lines|
      invariant at <= i <= |lines|
      invariant Prompt(answers, at, choices) == Prompt(answers, i, choices)
      invariant notices == NoticesFor(answers, at, i, choices, hint)
    {
      var choice := ReadAnswer(lines, i);
      if choice in choices {
        return Accepted(choice, i + 1), notices;
      } else if choice == "end" {
        return Exit(i + 1), notices;
      } else if choice == "help" {
        notices := notices + [Options(hint)];
      } else {
        notices := notices + [NotValid];
      }
      i := i + 1;
    }
    r := OutOfInput;
  }
}
