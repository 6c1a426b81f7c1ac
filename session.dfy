/** The closing question of `main` (bikeshare.py:288-290): the session starts
    over only when the answer is "yes". */
module Session {
  import opened Text
  import opened UserInput

  /** Whether `main` goes round again (`restart.lower() == 'yes'`), given the
      answers from `at` on. */
  function AskRestart(answers: seq<string>, at: nat): (r: Outcome<bool>)
    ensures r.Accepted? ==> at < r.next <= |answers|
  {
    match Prompt(answers, at, YesNo)
    case Exit(n) => Exit(n)
    case OutOfInput => OutOfInput
    case Accepted(answer, n) => Accepted(Lower(answer) == "yes", n)
  }

  /** `main` starts over exactly when the deciding line reads "yes" once
      lower-cased and stripped, and stops exactly when it reads "no"; any other
      line was asked again. */
  lemma RestartOnlyOnYes(lines: seq<string>, at: nat)
    ensures var r := AskRestart(Answers(lines), at);
            r.Accepted? ==> && (r.value <==> Normalize(lines[r.next - 1]) == "yes")
                            && (!r.value <==> Normalize(lines[r.next - 1]) == "no")
  {
    var p := Prompt(Answers(lines), at, YesNo);
    PromptReturnsNormalizedLine(lines, at, YesNo);
    if p.Accepted? {
      assert Lower("yes") == "yes";
      assert Lower("no") == "no";
    }
  }
}
