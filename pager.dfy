/** The raw-data pager `raw_data` (bikeshare.py:246-274): after a first "yes" it
    shows the table five rows at a time from `bookmark`, asking after every
    slice whether to go on. The `range(bookmark, len(df))` of its `for` loop is
    evaluated once, so the loop runs at most `len(df) - bookmark` times however
    far `bookmark` has moved. */
module Pager {
  import opened UserInput

  /** The number of rows in one slice. */
  const PageSize: nat := 5

  function Min(a: int, b: int): int {
    if a <= b then a else b
  }

  /** `df.iloc[b:b+5]`: the rows from `b`, at most five, none past the end. */
  function Page<T>(rows: seq<T>, b: nat): (page: seq<T>)
    ensures |page| == if b >= |rows| then 0 else Min(PageSize, |rows| - b)
    ensures forall k :: 0 <= k < |page| ==> page[k] == rows[b + k]
  {
    if b >= |rows| then [] else rows[b..Min(b + PageSize, |rows|)]
  }

  /** The `n` consecutive slices from `b` on: rows `[b, b+5)`, `[b+5, b+10)`, ... */
  function Slices<T>(rows: seq<T>, b: nat, n: nat): (slices: seq<seq<T>>)
    ensures |slices| == n
    decreases n
  {
    if n == 0 then [] else [Page(rows, b)] + Slices(rows, b + PageSize, n - 1)
  }

  /** Slice `k` starts at row `b + 5k`. */
  lemma {:induction false} SliceAt<T>(rows: seq<T>, b: nat, n: nat, k: nat)
    requires k < n
    ensures Slices(rows, b, n)[k] == Page(rows, b + 5 * k)
    decreases k
  {
    if k > 0 {
      SliceAt(rows, b + PageSize, n - 1, k - 1);
    }
  }

  /** All slices, one after another. */
  function Concat<T>(pages: seq<seq<T>>): seq<T> {
    if pages == [] then [] else pages[0] + Concat(pages[1..])
  }

  lemma ConcatCons<T>(page: seq<T>, rest: seq<seq<T>>)
    ensures Concat([page] + rest) == page + Concat(rest)
  {
    assert ([page] + rest)[1..] == rest;
  }

  /** Consecutive slices that all start inside the table are, one after
      another, the rows they cover. */
  lemma {:induction false} ConcatSlices<T>(rows: seq<T>, b: nat, n: nat)
    requires b <= |rows|
    requires n == 0 || b + 5 * (n - 1) < |rows|
    ensures Concat(Slices(rows, b, n)) == rows[b..Min(b + 5 * n, |rows|)]
    decreases n
  {
    if n > 0 {
      var page := Page(rows, b);
      var nb := Min(b + PageSize, |rows|);
      assert page == rows[b..nb];
      var rest := Slices(rows, b + PageSize, n - 1);
      ConcatCons(page, rest);
      if n > 1 {
        ConcatSlices(rows, b + PageSize, n - 1);
        var e := Min(b + 5 * n, |rows|);
        assert rows[b..e] == rows[b..nb] + rows[nb..e];
      } else {
        assert rest == [];
      }
    }
  }

  /** What the pager printed, in order, and how it ended: `Accepted(bookmark,
      next)` when it returned, with the final bookmark and the cursor just past
      the last answer read. */
  datatype Paging<T> = Paging(pages: seq<seq<T>>, end: Outcome<nat>)

  /** `shown` printed before the rest of the session `p`. */
  function Prepend<T>(shown: seq<seq<T>>, p: Paging<T>): (r: Paging<T>)
    ensures r.end == p.end && |r.pages| == |shown| + |p.pages|
  {
    Paging(shown + p.pages, p.end)
  }

  /** The `for` loop of bikeshare.py:262-270 with `left` iterations to go: print
      the slice at the bookmark, advance it by five, then go on only on "yes". */
  function Pages<T>(rows: seq<T>, answers: seq<string>, at: nat, b: nat, left: nat): (r: Paging<T>)
    decreases left
  {
    if left == 0 then Paging([], Accepted(b, at))
    else
      var page := Page(rows, b);
      match Prompt(answers, at, YesNo)
      case Exit(n) => Paging([page], Exit(n))
      case OutOfInput => Paging([page], OutOfInput)
      case Accepted(answer, n) =>
        if answer == "yes" then Prepend([page], Pages(rows, answers, n, b + PageSize, left - 1))
        else Paging([page], Accepted(b + PageSize, n))
  }

  /** One iteration answered "yes": its slice, then the rest of the loop. */
  lemma PagesGoOn<T>(rows: seq<T>, answers: seq<string>, at: nat, b: nat, left: nat, shown: seq<seq<T>>)
    requires left > 0
    requires Prompt(answers, at, YesNo).Accepted? && Prompt(answers, at, YesNo).value == "yes"
    ensures Prepend(shown, Pages(rows, answers, at, b, left))
            == Prepend(shown + [Page(rows, b)],
                       Pages(rows, answers, Prompt(answers, at, YesNo).next, b + PageSize, left - 1))
  {
    var rest := Pages(rows, answers, Prompt(answers, at, YesNo).next, b + PageSize, left - 1);
    assert shown + ([Page(rows, b)] + rest.pages) == (shown + [Page(rows, b)]) + rest.pages;
  }

  /** One iteration not answered "yes": its slice, and the loop is over. */
  lemma PagesStop<T>(rows: seq<T>, answers: seq<string>, at: nat, b: nat, left: nat, shown: seq<seq<T>>)
    requires left > 0
    requires !(Prompt(answers, at, YesNo).Accepted? && Prompt(answers, at, YesNo).value == "yes")
    ensures var p := Prompt(answers, at, YesNo);
            Prepend(shown, Pages(rows, answers, at, b, left))
            == Paging(shown + [Page(rows, b)],
                      if p.Exit? then Exit(p.next)
                      else if p.OutOfInput? then OutOfInput
                      else Accepted(b + PageSize, p.next))
  {
  }

  /** The iterations `range(bookmark, len(df))` allows. */
  function Iterations(count: nat, bookmark: nat): nat {
    if bookmark < count then count - bookmark else 0
  }

  /** `raw_data(df, bookmark)` given the answers from `at` on. */
  function RawDataSpec<T>(rows: seq<T>, answers: seq<string>, at: nat, bookmark: nat): (r: Paging<T>) {
    match Prompt(answers, at, YesNo)
    case Exit(n) => Paging([], Exit(n))
    case OutOfInput => Paging([], OutOfInput)
    case Accepted(answer, n) =>
      if answer == "yes" then Pages(rows, answers, n, bookmark, Iterations(|rows|, bookmark))
      else Paging([], Accepted(bookmark, n))
  }

  /** The slices are consecutive, from the bookmark on, and there are at most
      `left` of them. */
  lemma {:induction false} PagesAreSlices<T>(rows: seq<T>, answers: seq<string>, at: nat, b: nat, left: nat)
    ensures var r := Pages(rows, answers, at, b, left);
            |r.pages| <= left && r.pages == Slices(rows, b, |r.pages|)
    decreases left
  {
    if left > 0 {
      var p := Prompt(answers, at, YesNo);
      if p.Accepted? && p.value == "yes" {
        PagesAreSlices(rows, answers, p.next, b + PageSize, left - 1);
      }
    }
  }

  /** When the loop returns, the bookmark has moved by exactly five per slice,
      and it stopped before running out of iterations only on a "no" right
      after a slice. */
  lemma {:induction false} PagesEnd<T>(rows: seq<T>, answers: seq<string>, at: nat, b: nat, left: nat)
    requires at <= |answers|
    ensures var r := Pages(rows, answers, at, b, left);
            r.end.Accepted? ==> && r.end.value == b + 5 * |r.pages|
                                && at <= r.end.next <= |answers|
                                && (|r.pages| < left ==> 0 < |r.pages| && 0 < r.end.next
                                                         && answers[r.end.next - 1] == "no")
    decreases left
  {
    if left > 0 {
      var p := Prompt(answers, at, YesNo);
      if p.Accepted? && p.value == "yes" {
        PagesEnd(rows, answers, p.next, b + PageSize, left - 1);
      }
    }
  }

  /** Nothing is shown unless the first answer is "yes" and the bookmark is
      still inside the table; and then at least one slice is. */
  lemma RawDataShowsOnlyAfterYes<T>(rows: seq<T>, answers: seq<string>, at: nat, bookmark: nat)
    ensures var first := Prompt(answers, at, YesNo);
            RawDataSpec(rows, answers, at, bookmark).pages != []
            <==> first.Accepted? && first.value == "yes" && bookmark < |rows|
  {
  }

  /** The number of slices is bounded by `len(df) - bookmark`: an empty table
      never shows one. The slices start at the bookmark and follow each other. */
  lemma RawDataBounded<T>(rows: seq<T>, answers: seq<string>, at: nat, bookmark: nat)
    ensures var r := RawDataSpec(rows, answers, at, bookmark);
            |r.pages| <= Iterations(|rows|, bookmark) && r.pages == Slices(rows, bookmark, |r.pages|)
    ensures rows == [] ==> RawDataSpec(rows, answers, at, bookmark).pages == []
  {
    var first := Prompt(answers, at, YesNo);
    if first.Accepted? && first.value == "yes" {
      PagesAreSlices(rows, answers, first.next, bookmark, Iterations(|rows|, bookmark));
    }
  }

  /** Two rows and three "yes" answers: the loop may run twice, so the second
      slice starts at row 5, past the end, and is printed empty. */
  lemma EmptyPagePastTheEnd()
    ensures RawDataSpec([10, 20], ["yes", "yes", "yes"], 0, 0)
            == Paging([[10, 20], []], Accepted(10, 3))
  {
    var rows, answers := [10, 20], ["yes", "yes", "yes"];
    assert Page(rows, 0) == [10, 20];
    assert Page(rows, 5) == [];
    assert Pages(rows, answers, 3, 10, 0) == Paging([], Accepted(10, 3));
    assert Pages(rows, answers, 2, 5, 1) == Paging([[]], Accepted(10, 3));
  }

  /** Two rows, "yes" and then "no": the only slice already holds both rows,
      yet the loop asks once more and reads the "no". */
  lemma AsksAfterLastRows()
    ensures RawDataSpec([10, 20], ["yes", "no"], 0, 0) == Paging([[10, 20]], Accepted(5, 2))
  {
    assert Page([10, 20], 0) == [10, 20];
  }

  /** The pager as evidently intended: it stops once the bookmark reaches the
      end of the table, and asks nothing after the slice that shows the last
      rows. */
  function PagesBounded<T>(rows: seq<T>, answers: seq<string>, at: nat, b: nat): (r: Paging<T>)
    decreases |rows| - b
  {
    if b >= |rows| then Paging([], Accepted(b, at))
    else
      var page := Page(rows, b);
      if b + PageSize >= |rows| then Paging([page], Accepted(b + PageSize, at))
      else
        match Prompt(answers, at, YesNo)
        case Exit(n) => Paging([page], Exit(n))
        case OutOfInput => Paging([page], OutOfInput)
        case Accepted(answer, n) =>
          if answer == "yes" then Prepend([page], PagesBounded(rows, answers, n, b + PageSize))
          else Paging([page], Accepted(b + PageSize, n))
  }

  /** One step of the corrected pager inside the table: its slice, then, when
      rows remain and the answer is "yes", the slices from the next bookmark. */
  lemma BoundedStep<T>(rows: seq<T>, answers: seq<string>, at: nat, b: nat)
    requires b < |rows|
    ensures var p := Prompt(answers, at, YesNo);
            PagesBounded(rows, answers, at, b).pages
            == [Page(rows, b)] + if b + PageSize < |rows| && p.Accepted? && p.value == "yes"
                                 then PagesBounded(rows, answers, p.next, b + PageSize).pages
                                 else []
  {
  }

  /** The corrected pager prints consecutive slices from the bookmark on, and
      each of them starts inside the table. */
  lemma {:induction false} BoundedPagesAreSlices<T>(rows: seq<T>, answers: seq<string>, at: nat, b: nat)
    ensures var pages := PagesBounded(rows, answers, at, b).pages;
            && pages == Slices(rows, b, |pages|)
            && (pages == [] || b + 5 * (|pages| - 1) < |rows|)
    decreases |rows| - b
  {
    if b < |rows| {
      BoundedStep(rows, answers, at, b);
      var p := Prompt(answers, at, YesNo);
      if b + PageSize < |rows| && p.Accepted? && p.value == "yes" {
        BoundedPagesAreSlices(rows, answers, p.next, b + PageSize);
      }
    }
  }

  /** The corrected pager never prints an empty slice. */
  lemma BoundedPagesNonEmpty<T>(rows: seq<T>, answers: seq<string>, at: nat, b: nat)
    ensures var r := PagesBounded(rows, answers, at, b);
            forall k :: 0 <= k < |r.pages| ==> r.pages[k] != []
  {
    var pages := PagesBounded(rows, answers, at, b).pages;
    BoundedPagesAreSlices(rows, answers, at, b);
    forall k | 0 <= k < |pages|
      ensures pages[k] != []
    {
      SliceAt(rows, b, |pages|, k);
    }
  }

  /** The slices of the corrected pager together are the rows from the
      bookmark on, in order, as far as it got. */
  lemma BoundedPagesCoverRows<T>(rows: seq<T>, answers: seq<string>, at: nat, b: nat)
    requires b <= |rows|
    ensures var r := PagesBounded(rows, answers, at, b);
            Concat(r.pages) == rows[b..Min(b + 5 * |r.pages|, |rows|)]
  {
    var pages := PagesBounded(rows, answers, at, b).pages;
    BoundedPagesAreSlices(rows, answers, at, b);
    ConcatSlices(rows, b, |pages|);
  }

  /** When the corrected pager returns, the bookmark has moved by five per
      slice; short of the end of the table it only stops on a "no". */
  lemma {:induction false} BoundedPagesEnd<T>(rows: seq<T>, answers: seq<string>, at: nat, b: nat)
    requires at <= |answers|
    ensures var r := PagesBounded(rows, answers, at, b);
            r.end.Accepted? ==> && r.end.value == b + 5 * |r.pages|
                                && at <= r.end.next <= |answers|
                                && (r.end.value < |rows| ==> 0 < r.end.next
                                                             && answers[r.end.next - 1] == "no")
    decreases |rows| - b
  {
    if b < |rows| {
      var p := Prompt(answers, at, YesNo);
      if b + PageSize < |rows| && p.Accepted? && p.value == "yes" {
        BoundedPagesEnd(rows, answers, p.next, b + PageSize);
      }
    }
  }

  /** Answered "yes" throughout, the corrected pager shows every row from the
      bookmark on exactly once. */
  lemma BoundedPagesShowAll<T>(rows: seq<T>, answers: seq<string>, at: nat, b: nat)
    requires b <= |rows| && at <= |answers|
    requires PagesBounded(rows, answers, at, b).end.Accepted?
    requires PagesBounded(rows, answers, at, b).end.value >= |rows|
    ensures Concat(PagesBounded(rows, answers, at, b).pages) == rows[b..]
  {
    BoundedPagesCoverRows(rows, answers, at, b);
    BoundedPagesEnd(rows, answers, at, b);
  }

  /** Once the last rows are shown the corrected pager asks nothing more: when
      it returns past the end of the table, the last answer it read, if any,
      was the "yes" that asked for the last slice. */
  lemma {:induction false} BoundedPagesNoQuestionAfterEnd<T>(rows: seq<T>, answers: seq<string>, at: nat, b: nat)
    requires at <= |answers|
    ensures var r := PagesBounded(rows, answers, at, b);
            r.end.Accepted? && r.end.value >= |rows| ==>
              && at <= r.end.next <= |answers|
              && (at < r.end.next ==> answers[r.end.next - 1] == "yes")
    decreases |rows| - b
  {
    if b + PageSize < |rows| {
      var p := Prompt(answers, at, YesNo);
      if p.Accepted? && p.value == "yes" {
        BoundedPagesNoQuestionAfterEnd(rows, answers, p.next, b + PageSize);
      }
    }
  }

  /** With two rows the corrected pager shows them and reads no answer after. */
  lemma BoundedLastSliceAsksNothing()
    ensures PagesBounded([10, 20], ["no"], 0, 0) == Paging([[10, 20]], Accepted(5, 0))
  {
    assert Page([10, 20], 0) == [10, 20];
  }

  /** The `for` loop of bikeshare.py:262-270, reading the console from `at`. */
  method ShowSlices<T>(rows: seq<T>, lines: seq<string>, at: nat, bookmark: nat) returns (r: Paging<T>)
    requires at <= |lines|
    ensures r == Pages(rows, Answers(lines), at, bookmark, Iterations(|rows|, bookmark))
  {
    ghost var answers := Answers(lines);
    var b: nat, cursor: nat, shown: seq<seq<T>> := bookmark, at, [];
    ghost var all := Pages(rows, answers, cursor, b, Iterations(|rows|, bookmark));
    assert shown + all.pages == all.pages;
    var i: nat := bookmark;
    while i < |rows|
      invariant cursor <= |lines|
      invariant all == Prepend(shown, Pages(rows, answers, cursor, b, Iterations(|rows|, i)))
    {
      var page := Page(rows, b);
      b := b + PageSize;
      var more, _ := ReadChoice(lines, cursor, YesNo, YesNo);
      if !(more.Accepted? && more.value == "yes") {
        PagesStop(rows, answers, cursor, b - PageSize, Iterations(|rows|, i), shown);
        if more.Exit? {
          return Paging(shown + [page], Exit(more.next));
        } else if more.OutOfInput? {
          return Paging(shown + [page], OutOfInput);
        } else {
          return Paging(shown + [page], Accepted(b, more.next));
        }
      }
      assert Iterations(|rows|, i) - 1 == Iterations(|rows|, i + 1);
      PagesGoOn(rows, answers, cursor, b - PageSize, Iterations(|rows|, i), shown);
      cursor := more.next;
      shown := shown + [page];
      i := i + 1;
    }
    r := Paging(shown, Accepted(b, cursor));
  }

  /** `raw_data(df, bookmark)` reading the console from `at` (bikeshare.py:258-271). */
  method RawData<T>(rows: seq<T>, lines: seq<string>, at: nat, bookmark: nat) returns (r: Paging<T>)
    requires at <= |lines|
    ensures r == RawDataSpec(rows, Answers(lines), at, bookmark)
  {
    var first, _ := ReadChoice(lines, at, YesNo, YesNo);
    if first.Exit? {
      r := Paging([], Exit(first.next));
    } else if first.OutOfInput? {
      r := Paging([], OutOfInput);
    } else if first.value == "yes" {
      r := ShowSlices(rows, lines, first.next, bookmark);
    } else {
      r := Paging([], Accepted(bookmark, first.next));
    }
  }
}
