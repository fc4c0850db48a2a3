/** main's pagination loop and last_date: fetch page 1, then keep fetching the next page
    and appending it while the last accumulated issue was created strictly after the
    cutoff. */
module FetchLoop {
  import opened Outcomes
  import opened JsonValue
  import opened ItemParser
  import opened PageFetcher

  /** Everything a run depends on: the arguments, the cutoff (now minus the months, as a
      point in time), the answers of the issues API, and dateutil's parser. */
  datatype Env = Env(
    args: Args,
    cutoff: int,
    server: Request -> Response,
    parseDate: string -> Option<int>)

  /** The loop seen on its own: pages(p) is the list that fetching page p appends. */
  datatype Machine = Machine(
    pages: nat -> seq<Issue>,
    cutoff: int,
    parseDate: string -> Option<int>)

  /** How a run ends: the list main prints, a fatal stop, or the bound on extra pages
      reached while the loop still asked for more. */
  datatype Outcome =
    | Finished(issues: seq<Issue>)
    | Failed(error: Fatal)
    | OutOfFuel(issues: seq<Issue>, page: nat)

  /** dateutil's parse applied to a created_at value; anything but a string raises. */
  function Timestamp(v: Json, parseDate: string -> Option<int>): Option<int>
  {
    if v.JStr? then parseDate(v.s) else None
  }

  /** last_date: the creation time of the last accumulated issue; NoData when there is none. */
  function LastDate(acc: seq<Issue>, parseDate: string -> Option<int>): (r: Result<int, Fatal>)
    ensures r == Err(NoData) <==> acc == []
    ensures r == Err(BadTimestamp) <==> acc != [] && Timestamp(acc[|acc| - 1].createdAt, parseDate).None?
    ensures r.Ok? ==> Timestamp(acc[|acc| - 1].createdAt, parseDate) == Some(r.value)
  {
    if acc == [] then Err(NoData)
    else match Timestamp(acc[|acc| - 1].createdAt, parseDate)
      case None => Err(BadTimestamp)
      case Some(t) => Ok(t)
  }

  /** Pages 1..n concatenated in fetch order. */
  function Accumulated(m: Machine, n: nat): seq<Issue>
  {
    if n == 0 then [] else Accumulated(m, n - 1) + m.pages(n)
  }

  /** The loop condition holds: the last issue is strictly newer than the cutoff. */
  predicate Continues(m: Machine, acc: seq<Issue>)
  {
    LastDate(acc, m.parseDate).Ok? && LastDate(acc, m.parseDate).value > m.cutoff
  }

  /** The loop condition is false: the last issue was created at or before the cutoff. */
  predicate Stops(m: Machine, acc: seq<Issue>)
  {
    LastDate(acc, m.parseDate).Ok? && LastDate(acc, m.parseDate).value <= m.cutoff
  }

  /** The loop condition holds after pages 1..k have been appended. */
  predicate ContinuesAfter(m: Machine, k: nat)
  {
    Continues(m, Accumulated(m, k))
  }

  /** Page n is the first from `page` on after which the loop condition is false. */
  predicate FirstStop(m: Machine, page: nat, n: nat)
  {
    page <= n && Stops(m, Accumulated(m, n))
    && forall k :: page <= k < n ==> ContinuesAfter(m, k)
  }

  /** The loop from the check after page `page` has been appended, the list then holding
      pages 1..page, with at most `fuel` further pages. */
  function Loop(m: Machine, page: nat, fuel: nat): Outcome
    decreases fuel
  {
    var acc := Accumulated(m, page);
    match LastDate(acc, m.parseDate)
    case Err(e) => Failed(e)
    case Ok(t) =>
      if t <= m.cutoff then Finished(acc)
      else if fuel == 0 then OutOfFuel(acc, page)
      else Loop(m, page + 1, fuel - 1)
  }

  /** The issues page p yields when fetch_page's guard has passed. */
  function PageAt(env: Env, p: nat): seq<Issue>
  {
    PageItems(env.server(PageRequest(env.args, p)))
  }

  /** The loop of a run: its pages are the ones fetch_page returns. */
  function MachineOf(env: Env): Machine
  {
    Machine((p: nat) => PageAt(env, p), env.cutoff, env.parseDate)
  }

  /** pages gives, for every page p, what fetch_page returns for page p of env's run. */
  ghost predicate PagesOf(env: Env, pages: nat -> seq<Issue>)
  {
    forall p: nat {:trigger PageAt(env, p)} :: pages(p) == PageAt(env, p)
  }

  /** While every check from page `from` up to, not including, page `page` holds, the loop
      started at `from` is the loop started at `page` with the pages in between spent. */
  lemma {:induction false} LoopReaches(m: Machine, from: nat, page: nat, fuel: nat)
    requires from <= page && page - from <= fuel
    requires forall k :: from <= k < page ==> ContinuesAfter(m, k)
    ensures Loop(m, from, fuel) == Loop(m, page, fuel - (page - from))
    decreases page - from
  {
    if from < page {
      assert ContinuesAfter(m, from);
      LoopReaches(m, from + 1, page, fuel - 1);
    }
  }

  /** A whole run: page 1, whose guard may stop everything, then the loop. */
  function Run(env: Env, fuel: nat): Outcome
  {
    if !ArgsPresent(env.args) then Failed(MissingArguments)
    else Loop(MachineOf(env), 1, fuel)
  }

  /** main from page 1 to the printed list, with at most `fuel` pages after the first. */
  method FetchIssues(env: Env, fuel: nat) returns (r: Outcome)
    ensures r == Run(env, fuel)
  {
    var first := FetchPage(env.args, 1, env.server);
    if first.Err? {
      return Failed(first.error);
    }
    ghost var m := MachineOf(env);
    assert PagesOf(env, m.pages);
    assert first.value == PageAt(env, 1) == Accumulated(m, 1);
    r := Paginate(env, m, first.value, 1, fuel);
  }

  /** fetch_page for a later page, once the guard has passed on page 1. */
  method FetchNextPage(env: Env, ghost pages: nat -> seq<Issue>, p: nat) returns (items: seq<Issue>)
    requires ArgsPresent(env.args) && PagesOf(env, pages)
    ensures items == pages(p)
  {
    var next := FetchPage(env.args, p, env.server);
    assert next.value == PageAt(env, p);
    items := next.value;
  }

  /** The while loop of main: check the last issue, and while it is newer than the cutoff
      fetch the next page and append it, spending at most `fuel` pages. */
  method Paginate(env: Env, ghost m: Machine, issues: seq<Issue>, start: nat, fuel: nat) returns (r: Outcome)
    requires ArgsPresent(env.args) && PagesOf(env, m.pages)
    requires m.cutoff == env.cutoff && m.parseDate == env.parseDate
    requires issues == Accumulated(m, start)
    ensures r == Loop(m, start, fuel)
  {
    var bugIssues := issues;
    var page := start;
    var budget := fuel;
    while true
      invariant start <= page && page - start + budget == fuel
      invariant bugIssues == Accumulated(m, page)
      invariant forall k :: start <= k < page ==> ContinuesAfter(m, k)
      decreases budget
    {
      LoopReaches(m, start, page, fuel);
      var last := LastDate(bugIssues, env.parseDate);
      if last.Err? {
        return Failed(last.error);
      }
      if last.value <= env.cutoff {
        return Finished(bugIssues);
      }
      if budget == 0 {
        return OutOfFuel(bugIssues, page);
      }
      budget := budget - 1;
      page := page + 1;
      var next := FetchNextPage(env, m.pages, page);
      bugIssues := bugIssues + next;
    }
  }

  /** The accumulator only grows: what is held after k pages is a prefix of what is held
      after any later page, so no issue is dropped or moved. */
  lemma {:induction false} AccumulatedGrows(m: Machine, k: nat, n: nat)
    requires k <= n
    ensures Accumulated(m, k) <= Accumulated(m, n)
    decreases n - k
  {
    if k < n {
      AccumulatedGrows(m, k, n - 1);
    }
  }

  /** A page whose request or decoding fails leaves the accumulator as it was. */
  lemma FailedPageKeepsAccumulator(env: Env, p: nat)
    requires p >= 1
    requires !env.server(PageRequest(env.args, p)).Decoded?
    ensures Accumulated(MachineOf(env), p) == Accumulated(MachineOf(env), p - 1)
  {
  }

  /** If the loop finishes, it stopped at the first page n whose check fails: every earlier
      check held, and the list is pages 1..n in order, its last issue at or before the cutoff. */
  lemma {:induction false} LoopFinishedAtFirstStop(m: Machine, page: nat, fuel: nat, out: seq<Issue>)
    requires Loop(m, page, fuel) == Finished(out)
    ensures exists n: nat :: n <= page + fuel && FirstStop(m, page, n) && out == Accumulated(m, n)
    decreases fuel
  {
    if Stops(m, Accumulated(m, page)) {
      assert FirstStop(m, page, page);
    } else {
      assert ContinuesAfter(m, page) && fuel > 0;
      LoopFinishedAtFirstStop(m, page + 1, fuel - 1, out);
      var n: nat :| n <= page + fuel && FirstStop(m, page + 1, n) && out == Accumulated(m, n);
      assert FirstStop(m, page, n);
    }
  }

  /** Conversely, if page n is the first whose check fails and the bound allows reaching it,
      the loop finishes with pages 1..n. */
  lemma {:induction false} LoopStopsAtFirstStop(m: Machine, page: nat, n: nat, fuel: nat)
    requires n - page <= fuel
    requires FirstStop(m, page, n)
    ensures Loop(m, page, fuel) == Finished(Accumulated(m, n))
    decreases n - page
  {
    if page < n {
      assert ContinuesAfter(m, page);
      assert FirstStop(m, page + 1, n);
      LoopStopsAtFirstStop(m, page + 1, n, fuel - 1);
    }
  }

  /** A run that finishes has passed the guard and printed pages 1..n, where n is the first
      page after which the last issue is at or before the cutoff. */
  lemma RunFinished(env: Env, fuel: nat, out: seq<Issue>)
    requires Run(env, fuel) == Finished(out)
    ensures ArgsPresent(env.args)
    ensures exists n: nat :: 1 <= n <= 1 + fuel && FirstStop(MachineOf(env), 1, n) && out == Accumulated(MachineOf(env), n)
  {
    LoopFinishedAtFirstStop(MachineOf(env), 1, fuel, out);
  }

  /** A run whose page n is the first with a failing check, within the bound, finishes with
      pages 1..n. */
  lemma RunStops(env: Env, fuel: nat, n: nat)
    requires ArgsPresent(env.args) && 1 <= n <= 1 + fuel
    requires FirstStop(MachineOf(env), 1, n)
    ensures Run(env, fuel) == Finished(Accumulated(MachineOf(env), n))
  {
    LoopStopsAtFirstStop(MachineOf(env), 1, n, fuel);
  }

  /** Once the accumulator is not empty the loop never reports NoData, and the guard's
      MissingArguments cannot arise inside the loop. */
  lemma {:induction false} LoopFailure(m: Machine, page: nat, fuel: nat)
    ensures Loop(m, page, fuel) != Failed(MissingArguments)
    ensures Accumulated(m, page) != [] ==> Loop(m, page, fuel) != Failed(NoData)
    decreases fuel
  {
    if ContinuesAfter(m, page) && fuel > 0 {
      AccumulatedGrows(m, page, page + 1);
      LoopFailure(m, page + 1, fuel - 1);
    }
  }

  /** The run stops with NoData exactly when the guard passes and page 1 yields nothing. */
  lemma RunNoData(env: Env, fuel: nat)
    ensures Run(env, fuel) == Failed(NoData) <==> ArgsPresent(env.args) && PageAt(env, 1) == []
  {
    var m := MachineOf(env);
    assert Accumulated(m, 1) == PageAt(env, 1);
    LoopFailure(m, 1, fuel);
  }

  /** The run stops with MissingArguments exactly when the guard fails. */
  lemma RunMissingArguments(env: Env, fuel: nat)
    ensures Run(env, fuel) == Failed(MissingArguments) <==> !ArgsPresent(env.args)
  {
    LoopFailure(MachineOf(env), 1, fuel);
  }

  /** The loop never stops by itself when every page after the current one yields nothing:
      the check keeps looking at the same last issue until the bound is used up. */
  lemma {:induction false} LoopStallsOnEmptyPages(m: Machine, page: nat, fuel: nat)
    requires ContinuesAfter(m, page)
    requires forall k :: page < k <= page + fuel ==> m.pages(k) == []
    ensures Loop(m, page, fuel) == OutOfFuel(Accumulated(m, page), page + fuel)
    decreases fuel
  {
    if fuel > 0 {
      assert Accumulated(m, page + 1) == Accumulated(m, page) + [];
      LoopStallsOnEmptyPages(m, page + 1, fuel - 1);
    }
  }

  /** For a whole run: page 1 newer than the cutoff and nothing after it means no bound on
      the number of pages is ever enough. */
  lemma RunStalls(env: Env, fuel: nat)
    requires ArgsPresent(env.args)
    requires ContinuesAfter(MachineOf(env), 1)
    requires forall k :: 1 < k <= 1 + fuel ==> PageAt(env, k) == []
    ensures Run(env, fuel) == OutOfFuel(PageAt(env, 1), 1 + fuel)
  {
    var m := MachineOf(env);
    assert Accumulated(m, 1) == PageAt(env, 1);
    LoopStallsOnEmptyPages(m, 1, fuel);
  }
}
