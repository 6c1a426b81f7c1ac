/** The filter collector `get_filters` (bikeshare.py:51-101) and the fixed
    lists it draws its answers from (bikeshare.py:7-15). The specification
    functions read the console's answers (lines lower-cased and stripped); the
    methods read the raw lines through `ReadChoice`. */
module Filters {
  import opened Text
  import opened UserInput

  /** `city_data`: each city's data file. */
  const CityData: map<string, string> :=
    map["chicago" := "chicago.csv",
        "new york city" := "new_york_city.csv",
        "washington" := "washington.csv"]

  /** The keys of `city_data`, in the order the dictionary lists them. */
  const CityNames: seq<string> := ["chicago", "new york city", "washington"]

  /** `month_list`: "all" and the six months the data covers. */
  const MonthList: seq<string> := ["all", "january", "february", "march", "april", "may", "june"]

  /** `day_list`: "all" and the seven weekdays. */
  const DayList: seq<string> :=
    ["all", "sunday", "monday", "tuesday", "wednesday", "thursday", "friday", "saturday"]

  /** The (city, month, day) triple `get_filters` returns. */
  datatype Selection = Selection(city: string, month: string, day: string)

  /** A selection drawn from the fixed lists. */
  predicate ValidSelection(s: Selection) {
    s.city in CityNames && s.month in MonthList && s.day in DayList
  }

  /** The city choices are exactly the keys of `city_data`. */
  lemma CityNamesAreTheCatalog()
    ensures forall c :: c in CityNames <==> c in CityData
  {
  }

  /** The month and day part of one pass (bikeshare.py:73-87): ask whether to
      filter at all; if "yes" ask for a month, then for a day; otherwise both
      are "all". */
  function AskMonthDay(answers: seq<string>, at: nat): (r: Outcome<(string, string)>)
    ensures r.Accepted? ==> at < r.next <= |answers|
  {
    match Prompt(answers, at, YesNo)
    case Exit(n) => Exit(n)
    case OutOfInput => OutOfInput
    case Accepted(wantsFilters, n) =>
      if wantsFilters == "yes" then
        match Prompt(answers, n, MonthList)
        case Exit(n') => Exit(n')
        case OutOfInput => OutOfInput
        case Accepted(month, n') =>
          match Prompt(answers, n', DayList)
          case Exit(n'') => Exit(n'')
          case OutOfInput => OutOfInput
          case Accepted(day, n'') => Accepted((month, day), n'')
      else
        Accepted(("all", "all"), n)
  }

  /** The month is drawn from `month_list` and the day from `day_list`; an
      answer other than "yes" to the filter question (which can only be "no")
      leaves both at "all". */
  lemma AskMonthDaySound(answers: seq<string>, at: nat)
    requires AskMonthDay(answers, at).Accepted?
    ensures var md := AskMonthDay(answers, at).value;
            md.0 in MonthList && md.1 in DayList
    ensures var md, ask := AskMonthDay(answers, at).value, Prompt(answers, at, YesNo);
            && ask.Accepted? && (ask.value == "yes" || ask.value == "no")
            && (ask.value == "no" ==> md == ("all", "all"))
  {
    var ask := Prompt(answers, at, YesNo);
    if ask.value == "yes" {
      var month := Prompt(answers, ask.next, MonthList);
      var day := Prompt(answers, month.next, DayList);
      assert AskMonthDay(answers, at).value == (month.value, day.value);
    }
  }

  /** One pass of the loop at bikeshare.py:66-98: the selection it gathers and
      whether the confirmation was "yes". */
  function Pass(answers: seq<string>, at: nat): (r: Outcome<(Selection, bool)>)
    ensures r.Accepted? ==> at < r.next <= |answers|
  {
    match Prompt(answers, at, CityNames)
    case Exit(n) => Exit(n)
    case OutOfInput => OutOfInput
    case Accepted(city, n) =>
      match AskMonthDay(answers, n)
      case Exit(n') => Exit(n')
      case OutOfInput => OutOfInput
      case Accepted(monthDay, n') =>
        match Prompt(answers, n', YesNo)
        case Exit(n'') => Exit(n'')
        case OutOfInput => OutOfInput
        case Accepted(confirmation, n'') =>
          Accepted((Selection(city, monthDay.0, monthDay.1), confirmation == "yes"), n'')
  }

  /** A pass yields a selection from the fixed lists, and it is confirmed exactly
      when its last answer is "yes" (otherwise that answer is "no"). */
  lemma PassSound(answers: seq<string>, at: nat)
    requires Pass(answers, at).Accepted?
    ensures ValidSelection(Pass(answers, at).value.0)
    ensures var last := answers[Pass(answers, at).next - 1];
            && (Pass(answers, at).value.1 <==> last == "yes")
            && (!Pass(answers, at).value.1 ==> last == "no")
  {
    var city := Prompt(answers, at, CityNames);
    AskMonthDaySound(answers, city.next);
  }

  /** What `get_filters` returns given the answers from `at` on: passes are
      repeated, each from scratch, until one is confirmed. */
  function Collect(answers: seq<string>, at: nat): (r: Outcome<Selection>)
    decreases |answers| - at
    ensures r.Accepted? ==> at < r.next <= |answers|
  {
    match Pass(answers, at)
    case Exit(n) => Exit(n)
    case OutOfInput => OutOfInput
    case Accepted(pass, n) =>
      if pass.1 then Accepted(pass.0, n) else Collect(answers, n)
  }

  /** `get_filters` returns only a selection drawn from the fixed lists, and only
      right after a confirmation answer "yes". */
  lemma {:induction false} CollectSound(answers: seq<string>, at: nat)
    requires Collect(answers, at).Accepted?
    ensures ValidSelection(Collect(answers, at).value)
    ensures answers[Collect(answers, at).next - 1] == "yes"
    decreases |answers| - at
  {
    PassSound(answers, at);
    var pass := Pass(answers, at);
    if pass.value.1 {
      assert Collect(answers, at) == Accepted(pass.value.0, pass.next);
    } else {
      assert Collect(answers, at) == Collect(answers, pass.next);
      CollectSound(answers, pass.next);
    }
  }

  /** On the console: the confirmation line that ends `get_filters` reads "yes"
      once lower-cased and stripped. */
  lemma CollectEndsOnYes(lines: seq<string>, at: nat)
    requires Collect(Answers(lines), at).Accepted?
    ensures Normalize(lines[Collect(Answers(lines), at).next - 1]) == "yes"
  {
    CollectSound(Answers(lines), at);
    AnswerAt(lines, Collect(Answers(lines), at).next - 1);
  }

  /** A pass that was not confirmed leaves nothing behind: the result is what a
      fresh `get_filters` call on the remaining input would return. */
  lemma RejectedPassForgotten(answers: seq<string>, at: nat)
    requires Pass(answers, at).Accepted? && !Pass(answers, at).value.1
    ensures answers[Pass(answers, at).next - 1] == "no"
    ensures Collect(answers, at) == Collect(answers, Pass(answers, at).next)
  {
    PassSound(answers, at);
  }

  /** The month and day questions of one pass (bikeshare.py:73-87). */
  method ReadMonthDay(lines: seq<string>, at: nat) returns (r: Outcome<(string, string)>)
    requires at <= |lines|
    ensures r == AskMonthDay(Answers(lines), at)
  {
    var wantsFilters, _ := ReadChoice(lines, at, YesNo, YesNo);
    if !wantsFilters.Accepted? {
      return if wantsFilters.Exit? then Exit(wantsFilters.next) else OutOfInput;
    }
    if wantsFilters.value == "yes" {
      var month, _ := ReadChoice(lines, wantsFilters.next, MonthList, MonthList);
      if !month.Accepted? {
        return if month.Exit? then Exit(month.next) else OutOfInput;
      }
      var day, _ := ReadChoice(lines, month.next, DayList, DayList);
      if !day.Accepted? {
        return if day.Exit? then Exit(day.next) else OutOfInput;
      }
      r := Accepted((month.value, day.value), day.next);
    } else {
      r := Accepted(("all", "all"), wantsFilters.next);
    }
  }

  /** One pass of the loop body (bikeshare.py:68-98): the selection and whether
      it was confirmed. */
  method ReadPass(lines: seq<string>, at: nat) returns (r: Outcome<(Selection, bool)>)
    requires at <= |lines|
    ensures r == Pass(Answers(lines), at)
  {
    var city, _ := ReadChoice(lines, at, CityNames, CityNames);
    if !city.Accepted? {
      return if city.Exit? then Exit(city.next) else OutOfInput;
    }
    var monthDay := ReadMonthDay(lines, city.next);
    if !monthDay.Accepted? {
      return if monthDay.Exit? then Exit(monthDay.next) else OutOfInput;
    }
    var confirmation, _ := ReadChoice(lines, monthDay.next, YesNo, YesNo);
    if !confirmation.Accepted? {
      return if confirmation.Exit? then Exit(confirmation.next) else OutOfInput;
    }
    var selection := Selection(city.value, monthDay.value.0, monthDay.value.1);
    if confirmation.value == "yes" {
      r := Accepted((selection, true), confirmation.next);
    } else if confirmation.value == "no" {
      r := Accepted((selection, false), confirmation.next);
    } else {
      // The yes/no prompt never returns "help": bikeshare.py:97-98 is dead code.
      assert false;
    }
  }

  /** `get_filters()`: the loop of bikeshare.py:66-98, reading from `lines` at `at`. */
  method GetFilters(lines: seq<string>, at: nat) returns (r: Outcome<Selection>)
    requires at <= |lines|
    ensures r == Collect(Answers(lines), at)
  {
    var cursor := at;
    while true
      invariant at <= cursor <= |lines|
      invariant Collect(Answers(lines), at) == Collect(Answers(lines), cursor)
      decreases |lines| - cursor
    {
      var pass := ReadPass(lines, cursor);
      if !pass.Accepted? {
        return if pass.Exit? then Exit(pass.next) else OutOfInput;
      }
      if pass.value.1 {
        return Accepted(pass.value.0, pass.next);
      }
      cursor := pass.next;
    }
  }

  /** Answering "new york city", "no" to filtering, "no" to the confirmation and
      then the same with "yes" selects exactly ("new york city", "all", "all"). */
  lemma RetryScenario()
    ensures Collect(["new york city", "no", "no", "new york city", "no", "yes"], 0)
            == Accepted(Selection("new york city", "all", "all"), 6)
  {
  }
}
