/** What test.py makes of the collected reports: the tallies, the list of failed jobs and the exit code. */
module ResultCollector {
  import opened Collections
  import opened TestRunner

  /** What is known of a job beforehand (whether it is skipped, and whether it is an example rather than a
      test suite) and what running it gives: a return code and, for a suite, the result in its XML file. */
  datatype Job = Job(isSkip: bool, isExample: bool, returncode: int, xmlResult: string)

  datatype Status = Pass | Fail | Valgrind | Crash | Skip | Break

  datatype Tally = Tally(passed: nat, failed: nat, valgrind: nat, crashed: nat, skipped: nat)

  function StatusOf(job: Job, interrupted: bool): Status {
    if interrupted then Break
    else if job.isSkip then Skip
    else if job.returncode == 0 then Pass
    else if job.returncode == 1 then Fail
    else if job.returncode == 2 then Valgrind
    else Crash
  }

  ghost predicate Known(jobs: seq<Job>, reports: seq<Report>) {
    forall r | r in reports :: r.id < |jobs|
  }

  /** How many reports have a status. */
  ghost function Count(jobs: seq<Job>, reports: seq<Report>, status: Status): nat
    requires Known(jobs, reports)
  {
    if reports == [] then 0
    else
      var last := reports[|reports| - 1];
      Count(jobs, reports[..|reports| - 1], status) +
      if StatusOf(jobs[last.id], last.interrupted) == status then 1 else 0
  }

  /** The five counts of a list of reports. */
  ghost predicate Tallies(tally: Tally, jobs: seq<Job>, reports: seq<Report>) {
    && Known(jobs, reports)
    && tally == Tally(Count(jobs, reports, Pass), Count(jobs, reports, Fail), Count(jobs, reports, Valgrind),
                      Count(jobs, reports, Crash), Count(jobs, reports, Skip))
  }

  /** How many jobs have a status when each of them is run to its end. */
  ghost function CountJobs(jobs: seq<Job>, status: Status): nat {
    if jobs == [] then 0
    else CountJobs(jobs[..|jobs| - 1], status) + if StatusOf(jobs[|jobs| - 1], false) == status then 1 else 0
  }

  /** Whether the XML file of a suite, which is complete for these return codes only, says that it passed or
      was skipped. */
  predicate XmlPassed(job: Job) {
    0 <= job.returncode <= 2 && (job.xmlResult == "PASS" || job.xmlResult == "SKIP")
  }

  /** How often a collected job ends up in the list of failed jobs: once for its return code and, for a
      suite, once more for its XML result. */
  function Listings(job: Job, interrupted: bool): nat {
    if interrupted || job.isSkip then 0
    else (if job.returncode != 0 then 1 else 0) + if !job.isExample && !XmlPassed(job) then 1 else 0
  }

  /** The report of a job that was neither interrupted nor skipped. */
  predicate Ran(jobs: seq<Job>, r: Report) {
    r.id < |jobs| && !r.interrupted && !jobs[r.id].isSkip
  }

  /** The main thread collects one report for each job. A tally is the number of reports with its return code,
      among those that were neither interrupted nor skipped. */
  method CollectReports(jobs: seq<Job>, queue: seq<Report>) returns (tally: Tally, failedJobs: seq<nat>)
    requires |queue| == |jobs| && Known(jobs, queue)
    ensures Tallies(tally, jobs, queue)
    ensures failedJobs == FailedList(jobs, queue)
    ensures tally.passed == |set i | 0 <= i < |queue| && Ran(jobs, queue[i]) && jobs[queue[i].id].returncode == 0|
    ensures tally.failed == |set i | 0 <= i < |queue| && Ran(jobs, queue[i]) && jobs[queue[i].id].returncode == 1|
    ensures tally.valgrind == |set i | 0 <= i < |queue| && Ran(jobs, queue[i]) && jobs[queue[i].id].returncode == 2|
    ensures tally.crashed ==
            |set i | 0 <= i < |queue| && Ran(jobs, queue[i]) && jobs[queue[i].id].returncode !in {0, 1, 2}|
    ensures tally.skipped == |set i | 0 <= i < |queue| && !queue[i].interrupted && jobs[queue[i].id].isSkip|
  {
    var passed, failed, valgrind, crashed, skipped := 0, 0, 0, 0, 0;
    failedJobs := [];
    for i := 0 to |jobs|
      invariant Known(jobs, queue[..i])
      invariant passed == Count(jobs, queue[..i], Pass) && failed == Count(jobs, queue[..i], Fail)
      invariant valgrind == Count(jobs, queue[..i], Valgrind) && crashed == Count(jobs, queue[..i], Crash)
      invariant skipped == Count(jobs, queue[..i], Skip)
      invariant failedJobs == FailedList(jobs, queue[..i])
    {
      assert queue[..i + 1][..i] == queue[..i];
      var report := queue[i];
      assert report in queue;
      var job := jobs[report.id];
      ghost var before := failedJobs;
      if report.interrupted {
        assert before + [] == before;
        continue;
      }
      if job.isSkip {
        skipped := skipped + 1;
      } else {
        failedJobs := failedJobs + [report.id];
        if job.returncode == 0 {
          passed := passed + 1;
          failedJobs := Pop(failedJobs, before, report.id);
        } else if job.returncode == 1 {
          failed := failed + 1;
        } else if job.returncode == 2 {
          valgrind := valgrind + 1;
        } else {
          crashed := crashed + 1;
        }
      }
      if !job.isExample {
        if !job.isSkip {
          ghost var soFar := failedJobs;
          failedJobs := failedJobs + [report.id];
          if job.returncode == 0 || job.returncode == 1 || job.returncode == 2 {
            if job.xmlResult == "PASS" || job.xmlResult == "SKIP" {
              failedJobs := Pop(failedJobs, soFar, report.id);
            }
          }
        }
      }
    }
    assert queue[..|jobs|] == queue;
    tally := Tally(passed, failed, valgrind, crashed, skipped);
    TalliesAre(jobs, queue, tally);
  }

  /** Removes the job just pushed: what is left is the list before that push. */
  method Pop(list: seq<nat>, ghost before: seq<nat>, id: nat) returns (rest: seq<nat>)
    requires list == before + [id]
    ensures rest == before
  {
    rest := list[..|list| - 1];
  }

  ghost function FailedList(jobs: seq<Job>, reports: seq<Report>): seq<nat>
    requires Known(jobs, reports)
  {
    if reports == [] then []
    else
      var last := reports[|reports| - 1];
      FailedList(jobs, reports[..|reports| - 1]) + seq(Listings(jobs[last.id], last.interrupted), _ => last.id)
  }

  function ExitCode(tally: Tally, totalTests: nat): int {
    if tally.passed + tally.skipped == totalTests then 0 else 1
  }

  // ---- What is counted ----

  /** The positions of the reports with a status. */
  ghost function Positions(jobs: seq<Job>, reports: seq<Report>, status: Status): set<nat>
    requires Known(jobs, reports)
  {
    set i: nat | i < |reports| && StatusOf(jobs[reports[i].id], reports[i].interrupted) == status
  }

  lemma {:induction false} CountIsPositions(jobs: seq<Job>, reports: seq<Report>, status: Status)
    requires Known(jobs, reports)
    ensures Count(jobs, reports, status) == |Positions(jobs, reports, status)|
  {
    if reports != [] {
      hide StatusOf, Positions;
      CountIsPositions(jobs, reports[..|reports| - 1], status);
      PositionsAppend(jobs, reports, status);
    }
  }

  lemma PositionsAppend(jobs: seq<Job>, reports: seq<Report>, status: Status)
    requires Known(jobs, reports) && reports != []
    ensures var k := |reports| - 1;
            |Positions(jobs, reports, status)| ==
            |Positions(jobs, reports[..k], status)| +
            if StatusOf(jobs[reports[k].id], reports[k].interrupted) == status then 1 else 0
  {
    hide StatusOf;
    var k := |reports| - 1;
    var last := if StatusOf(jobs[reports[k].id], reports[k].interrupted) == status then {k} else {};
    var before, all := Positions(jobs, reports[..k], status), Positions(jobs, reports, status);
    assert k !in before;
    forall i ensures i in all <==> i in before + last {
      if 0 <= i < k {
        assert reports[..k][i] == reports[i];
      }
    }
    assert all == before + last;
  }

  /** The tallies by return code. */
  lemma TalliesAre(jobs: seq<Job>, reports: seq<Report>, tally: Tally)
    requires Tallies(tally, jobs, reports)
    ensures tally.passed == |set i | 0 <= i < |reports| && Ran(jobs, reports[i]) && jobs[reports[i].id].returncode == 0|
    ensures tally.failed == |set i | 0 <= i < |reports| && Ran(jobs, reports[i]) && jobs[reports[i].id].returncode == 1|
    ensures tally.valgrind ==
            |set i | 0 <= i < |reports| && Ran(jobs, reports[i]) && jobs[reports[i].id].returncode == 2|
    ensures tally.crashed ==
            |set i | 0 <= i < |reports| && Ran(jobs, reports[i]) && jobs[reports[i].id].returncode !in {0, 1, 2}|
    ensures tally.skipped == |set i | 0 <= i < |reports| && !reports[i].interrupted && jobs[reports[i].id].isSkip|
  {
    hide Count;
    CountIsPositions(jobs, reports, Pass);
    CountIsPositions(jobs, reports, Fail);
    CountIsPositions(jobs, reports, Valgrind);
    CountIsPositions(jobs, reports, Crash);
    CountIsPositions(jobs, reports, Skip);
    assert Positions(jobs, reports, Pass) ==
        set i | 0 <= i < |reports| && Ran(jobs, reports[i]) && jobs[reports[i].id].returncode == 0;
    assert Positions(jobs, reports, Fail) ==
        set i | 0 <= i < |reports| && Ran(jobs, reports[i]) && jobs[reports[i].id].returncode == 1;
    assert Positions(jobs, reports, Valgrind) ==
        set i | 0 <= i < |reports| && Ran(jobs, reports[i]) && jobs[reports[i].id].returncode == 2;
    assert Positions(jobs, reports, Crash) ==
        set i | 0 <= i < |reports| && Ran(jobs, reports[i]) && jobs[reports[i].id].returncode !in {0, 1, 2};
    assert Positions(jobs, reports, Skip) ==
        set i | 0 <= i < |reports| && !reports[i].interrupted && jobs[reports[i].id].isSkip;
  }

  /** The jobs that came back with a result. */
  ghost function WithResult(reports: seq<Report>): set<nat> {
    set r | r in reports && !r.interrupted :: r.id
  }

  ghost function JobsWith(jobs: seq<Job>, reports: seq<Report>, status: Status): set<nat> {
    set id | id in WithResult(reports) && id < |jobs| && StatusOf(jobs[id], false) == status
  }

  /** When no job is reported twice, the reports with a status are as many as the jobs with it. */
  lemma {:induction false} CountIsJobs(jobs: seq<Job>, reports: seq<Report>, status: Status)
    requires Known(jobs, reports) && status != Break && forall id: nat :: Occurrences(reports, id) <= 1
    ensures Count(jobs, reports, status) == |JobsWith(jobs, reports, status)|
  {
    if reports != [] {
      hide JobsWith, Occurrences, StatusOf;
      var k := |reports| - 1;
      var before, last := reports[..k], reports[k];
      assert reports == before + [last];
      forall id: nat ensures Occurrences(before, id) == Occurrences(reports, id) - if last.id == id then 1 else 0 {
        OccurrencesAppend(before, last, id);
      }
      CountIsJobs(jobs, before, status);
      JobsWithAppend(jobs, before, last, status);
    }
  }

  lemma JobsWithAppend(jobs: seq<Job>, before: seq<Report>, last: Report, status: Status)
    requires last.id < |jobs| && status != Break && Occurrences(before, last.id) == 0
    ensures |JobsWith(jobs, before + [last], status)| ==
            |JobsWith(jobs, before, status)| + if StatusOf(jobs[last.id], last.interrupted) == status then 1 else 0
  {
    hide WithResult, Occurrences;
    NoResult(before, last.id);
    WithResultAppend(before, last);
    hide StatusOf;
    var matches := StatusOf(jobs[last.id], last.interrupted) == status;
    InterruptedIsBreak(jobs[last.id]);
    var was, all := JobsWith(jobs, before, status), JobsWith(jobs, before + [last], status);
    assert last.id !in was;
    assert all == was + if matches then {last.id} else {};
  }

  lemma InterruptedIsBreak(job: Job)
    ensures StatusOf(job, true) == Break
  {
  }

  lemma NoResult(reports: seq<Report>, id: nat)
    requires Occurrences(reports, id) == 0
    ensures id !in WithResult(reports)
  {
    if Report(id, false) in reports {
      OccursIfIn(reports, Report(id, false));
    }
  }

  lemma WithResultAppend(before: seq<Report>, last: Report)
    ensures WithResult(before + [last]) == WithResult(before) + if last.interrupted then {} else {last.id}
  {
    var all := before + [last];
    forall id ensures id in WithResult(all) <==> id in WithResult(before) + if last.interrupted then {} else {last.id} {
      if id in WithResult(all) {
        var r :| r in all && !r.interrupted && r.id == id;
        assert r in before || r == last;
      }
      if id in WithResult(before) {
        var r :| r in before && !r.interrupted && r.id == id;
        assert r in all;
      }
      assert last in all;
    }
  }

  /** After every run, each tally is the number of jobs with its return code, among those that came back with a
      result and were not skipped. */
  lemma RunTalliesAre(c: Config, s: State, jobs: seq<Job>, tally: Tally)
    requires Reachable(c, s) && Done(c, s) && |jobs| == c.N && Tallies(tally, jobs, s.collected)
    ensures var ran := set id | 0 <= id < c.N && Report(id, false) in s.collected && !jobs[id].isSkip;
            && tally.passed == |set id | id in ran && jobs[id].returncode == 0|
            && tally.failed == |set id | id in ran && jobs[id].returncode == 1|
            && tally.valgrind == |set id | id in ran && jobs[id].returncode == 2|
            && tally.crashed == |set id | id in ran && jobs[id].returncode !in {0, 1, 2}|
    ensures tally.skipped == |set id | 0 <= id < c.N && Report(id, false) in s.collected && jobs[id].isSkip|
  {
    hide Reachable, Done, Count, Occurrences, Known, JobsWith, StatusOf;
    EndOfRun(c, s);
    JobsByReturncode(jobs, s.collected);
    CountIsJobs(jobs, s.collected, Pass);
    CountIsJobs(jobs, s.collected, Fail);
    CountIsJobs(jobs, s.collected, Valgrind);
    CountIsJobs(jobs, s.collected, Crash);
    CountIsJobs(jobs, s.collected, Skip);
  }

  lemma JobsByReturncode(jobs: seq<Job>, reports: seq<Report>)
    ensures var ran := set id | 0 <= id < |jobs| && Report(id, false) in reports && !jobs[id].isSkip;
            && JobsWith(jobs, reports, Pass) == (set id | id in ran && jobs[id].returncode == 0)
            && JobsWith(jobs, reports, Fail) == (set id | id in ran && jobs[id].returncode == 1)
            && JobsWith(jobs, reports, Valgrind) == (set id | id in ran && jobs[id].returncode == 2)
            && JobsWith(jobs, reports, Crash) == (set id | id in ran && jobs[id].returncode !in {0, 1, 2})
    ensures JobsWith(jobs, reports, Skip) ==
            set id | 0 <= id < |jobs| && Report(id, false) in reports && jobs[id].isSkip
  {
    hide WithResult;
    forall id | 0 <= id < |jobs| ensures id in WithResult(reports) <==> Report(id, false) in reports {
      ResultIff(reports, id);
    }
  }

  lemma ResultIff(reports: seq<Report>, id: nat)
    ensures id in WithResult(reports) <==> Report(id, false) in reports
  {
    if Report(id, false) in reports {
      assert Report(id, false).id == id;
    }
  }

  // ---- Conservation ----

  /** Every report is counted under exactly one status. */
  lemma {:induction false} ReportsConserved(jobs: seq<Job>, reports: seq<Report>)
    requires Known(jobs, reports)
    ensures Count(jobs, reports, Pass) + Count(jobs, reports, Fail) + Count(jobs, reports, Valgrind) +
            Count(jobs, reports, Crash) + Count(jobs, reports, Skip) + Count(jobs, reports, Break) == |reports|
  {
    if reports != [] {
      ReportsConserved(jobs, reports[..|reports| - 1]);
    }
  }

  lemma {:induction false} CountRemove(jobs: seq<Job>, reports: seq<Report>, i: nat, status: Status)
    requires Known(jobs, reports) && i < |reports|
    ensures Known(jobs, reports[..i] + reports[i + 1..])
    ensures Count(jobs, reports, status) ==
            Count(jobs, reports[..i] + reports[i + 1..], status) +
            if StatusOf(jobs[reports[i].id], reports[i].interrupted) == status then 1 else 0
    decreases |reports|
  {
    var k := |reports| - 1;
    var rest := reports[..i] + reports[i + 1..];
    forall r | r in rest ensures r in reports {
    }
    if i == k {
      assert rest == reports[..k];
    } else {
      CountRemove(jobs, reports[..k], i, status);
      assert rest[..k - 1] == reports[..k][..i] + reports[..k][i + 1..];
    }
  }

  /** When every job is reported once and none as a break, the counts are those of the job list: they do not
      depend on the order in which reports arrive. */
  lemma {:induction false} CountsIgnoreOrder(jobs: seq<Job>, reports: seq<Report>, status: Status)
    requires forall id: nat :: Occurrences(reports, id) == if id < |jobs| then 1 else 0
    requires forall r | r in reports :: !r.interrupted
    ensures Known(jobs, reports) && Count(jobs, reports, status) == CountJobs(jobs, status)
    decreases |jobs|
  {
    ReportsAreKnown(jobs, reports);
    if jobs == [] {
      CountBelow(reports, 0);
    } else {
      var n := |jobs| - 1;
      var i := OccurrencePosition(reports, n);
      assert reports[i] in reports;
      var rest := reports[..i] + reports[i + 1..];
      CountRemove(jobs, reports, i, status);
      forall id: nat ensures Occurrences(rest, id) == if id < n then 1 else 0 {
        OccurrencesRemove(reports, i, id);
      }
      forall r | r in rest ensures !r.interrupted {
        assert r in reports;
      }
      CountsIgnoreOrder(jobs[..n], rest, status);
      CountOfPrefix(jobs, n, rest, status);
    }
  }

  lemma ReportsAreKnown(jobs: seq<Job>, reports: seq<Report>)
    requires forall id: nat :: Occurrences(reports, id) == if id < |jobs| then 1 else 0
    ensures Known(jobs, reports)
  {
    forall r | r in reports ensures r.id < |jobs| {
      OccursIfIn(reports, r);
    }
  }

  lemma {:induction false} OccursIfIn(reports: seq<Report>, r: Report)
    requires r in reports
    ensures Occurrences(reports, r.id) >= 1
  {
    if reports[0] != r {
      OccursIfIn(reports[1..], r);
    }
  }

  lemma {:induction false} CountOfPrefix(jobs: seq<Job>, n: nat, reports: seq<Report>, status: Status)
    requires n <= |jobs| && Known(jobs[..n], reports)
    ensures Known(jobs, reports) && Count(jobs, reports, status) == Count(jobs[..n], reports, status)
  {
    if reports != [] {
      var k := |reports| - 1;
      assert reports[k] in reports;
      CountOfPrefix(jobs, n, reports[..k], status);
    }
  }

  lemma {:induction false} CountAll(jobs: seq<Job>, reports: seq<Report>, i: nat)
    requires Known(jobs, reports) && i < |reports|
    ensures Count(jobs, reports, StatusOf(jobs[reports[i].id], reports[i].interrupted)) > 0
  {
    var k := |reports| - 1;
    if i < k {
      CountAll(jobs, reports[..k], i);
    }
  }

  lemma {:induction false} CountNone(jobs: seq<Job>, reports: seq<Report>, status: Status)
    requires Known(jobs, reports)
    requires forall r | r in reports :: StatusOf(jobs[r.id], r.interrupted) != status
    ensures Count(jobs, reports, status) == 0
  {
    if reports != [] {
      CountNone(jobs, reports[..|reports| - 1], status);
    }
  }

  // ---- What a whole run reports ----

  /** After any run of the pool, with any schedule and any interrupts, the tallies and the interrupted jobs
      add up to the number of tests, and the exit code is 0 exactly when no job was interrupted and every
      job that was not skipped returned 0. */
  lemma RunsConserveJobsAndExitCode(c: Config, s: State, jobs: seq<Job>, tally: Tally)
    requires Reachable(c, s) && Done(c, s) && |jobs| == c.N
    requires Tallies(tally, jobs, s.collected)
    ensures tally.passed + tally.failed + tally.valgrind + tally.crashed + tally.skipped +
            Count(jobs, s.collected, Break) == c.N
    ensures ExitCode(tally, c.N) == 0 <==>
            && (forall r | r in s.collected :: !r.interrupted)
            && (forall job | job in jobs && !job.isSkip :: job.returncode == 0)
  {
    hide Reachable, Done, Count;
    EndOfRun(c, s);
    ReportsAreKnown(jobs, s.collected);
    ReportsConserved(jobs, s.collected);
    PassesMeanSuccess(jobs, s.collected);
  }

  /** Only passes and skips: no job came back as a break and every job that was not skipped returned 0. */
  lemma PassesMeanSuccess(jobs: seq<Job>, reports: seq<Report>)
    requires Known(jobs, reports)
    requires forall id: nat :: Occurrences(reports, id) == if id < |jobs| then 1 else 0
    ensures Count(jobs, reports, Fail) + Count(jobs, reports, Valgrind) + Count(jobs, reports, Crash) +
            Count(jobs, reports, Break) == 0 <==>
            && (forall r | r in reports :: !r.interrupted)
            && (forall job | job in jobs && !job.isSkip :: job.returncode == 0)
  {
    hide Count;
    var others := Count(jobs, reports, Fail) + Count(jobs, reports, Valgrind) + Count(jobs, reports, Crash) +
                  Count(jobs, reports, Break);
    if others == 0 {
      forall r | r in reports ensures !r.interrupted && (jobs[r.id].isSkip || jobs[r.id].returncode == 0) {
        var i :| 0 <= i < |reports| && reports[i] == r;
        CountAll(jobs, reports, i);
      }
      forall job | job in jobs && !job.isSkip ensures job.returncode == 0 {
        var id :| 0 <= id < |jobs| && jobs[id] == job;
        var i := OccurrencePosition(reports, id);
        assert reports[i] in reports;
      }
    } else if (forall r | r in reports :: !r.interrupted) &&
              forall job | job in jobs && !job.isSkip :: job.returncode == 0 {
      forall r | r in reports ensures jobs[r.id] in jobs {
      }
      CountNone(jobs, reports, Fail);
      CountNone(jobs, reports, Valgrind);
      CountNone(jobs, reports, Crash);
      CountNone(jobs, reports, Break);
      assert false;
    }
  }

  /** Without an interrupt the tallies do not depend on the schedule. */
  lemma TalliesIgnoreSchedule(c: Config, s: State, jobs: seq<Job>, status: Status)
    requires Reachable(c, s) && Done(c, s) && !s.exitFlag && |jobs| == c.N
    ensures Known(jobs, s.collected) && Count(jobs, s.collected, status) == CountJobs(jobs, status)
  {
    EndOfRun(c, s);
    CountsIgnoreOrder(jobs, s.collected, status);
  }

  /** The failed jobs are the collected jobs, neither interrupted nor skipped, that returned non-zero or are
      suites whose XML result is neither a pass nor a skip. */
  lemma {:induction false} FailedJobsAre(jobs: seq<Job>, reports: seq<Report>, id: nat)
    requires Known(jobs, reports)
    ensures id in FailedList(jobs, reports) <==>
            exists r :: && r in reports && r.id == id && !r.interrupted && !jobs[id].isSkip
                        && (jobs[id].returncode != 0 ||
                            (!jobs[id].isExample && jobs[id].xmlResult != "PASS" && jobs[id].xmlResult != "SKIP"))
  {
    if reports != [] {
      var k := |reports| - 1;
      var last := reports[k];
      FailedJobsAre(jobs, reports[..k], id);
      assert reports == reports[..k] + [last] && last in reports;
      var added := seq(Listings(jobs[last.id], last.interrupted), _ => last.id);
      assert id in added <==> last.id == id && Listings(jobs[last.id], last.interrupted) > 0 by {
        if last.id == id && Listings(jobs[last.id], last.interrupted) > 0 {
          assert added[0] == id;
        }
      }
    }
  }

  /** How often the reports of a job list it. */
  ghost function TotalListings(jobs: seq<Job>, reports: seq<Report>, id: nat): nat
    requires Known(jobs, reports)
  {
    if reports == [] then 0
    else
      var last := reports[|reports| - 1];
      TotalListings(jobs, reports[..|reports| - 1], id) +
      if last.id == id then Listings(jobs[id], last.interrupted) else 0
  }

  lemma {:induction false} RepeatedCount(id: nat, n: nat, x: nat)
    ensures multiset(seq(n, _ => id))[x] == if x == id then n else 0
  {
    var s := seq(n, _ => id);
    if n > 0 {
      RepeatedCount(id, n - 1, x);
      assert s == seq(n - 1, _ => id) + [id];
    }
  }

  /** A job is in the list as often as its reports list it. */
  lemma {:induction false} ListedAsOften(jobs: seq<Job>, reports: seq<Report>, id: nat)
    requires Known(jobs, reports)
    ensures multiset(FailedList(jobs, reports))[id] == TotalListings(jobs, reports, id)
  {
    if reports != [] {
      var k := |reports| - 1;
      var last := reports[k];
      ListedAsOften(jobs, reports[..k], id);
      RepeatedCount(last.id, Listings(jobs[last.id], last.interrupted), id);
    }
  }

  lemma {:induction false} TotalOfOneReport(jobs: seq<Job>, reports: seq<Report>, i: nat)
    requires Known(jobs, reports) && i < |reports| && Occurrences(reports, reports[i].id) == 1
    ensures TotalListings(jobs, reports, reports[i].id) == Listings(jobs[reports[i].id], reports[i].interrupted)
    decreases |reports|
  {
    var k, id := |reports| - 1, reports[i].id;
    assert reports == reports[..k] + [reports[k]];
    OccurrencesAppend(reports[..k], reports[k], id);
    if i < k {
      OccursIfIn(reports[..k], reports[..k][i]);
      TotalOfOneReport(jobs, reports[..k], i);
    } else {
      NoListings(jobs, reports[..k], id);
    }
  }

  lemma {:induction false} NoListings(jobs: seq<Job>, reports: seq<Report>, id: nat)
    requires Known(jobs, reports) && Occurrences(reports, id) == 0
    ensures TotalListings(jobs, reports, id) == 0
  {
    if reports != [] {
      var k := |reports| - 1;
      assert reports == reports[..k] + [reports[k]];
      OccurrencesAppend(reports[..k], reports[k], id);
      NoListings(jobs, reports[..k], id);
    }
  }

  /** A suite that came back with a result and failed both by its return code and by its XML file. */
  predicate FailsTwice(job: Job, interrupted: bool) {
    && !interrupted && !job.isSkip && !job.isExample
    && job.returncode != 0 && (job.returncode !in {1, 2} || job.xmlResult !in {"PASS", "SKIP"})
  }

  /** After every run the list of failed jobs has no repetition if and only if no collected suite failed both
      ways; a suite that did is in the list twice. */
  lemma FailedListDistinctIff(c: Config, s: State, jobs: seq<Job>)
    requires Reachable(c, s) && Done(c, s) && |jobs| == c.N
    ensures Known(jobs, s.collected)
    ensures Distinct(FailedList(jobs, s.collected)) <==>
            forall r | r in s.collected :: !FailsTwice(jobs[r.id], r.interrupted)
    ensures forall r | r in s.collected ::
              multiset(FailedList(jobs, s.collected))[r.id] == Listings(jobs[r.id], r.interrupted)
  {
    hide Reachable, Done, FailedList, TotalListings;
    EndOfRun(c, s);
    ReportsAreKnown(jobs, s.collected);
    DistinctByCount<nat>(FailedList(jobs, s.collected));
    forall r | r in s.collected
      ensures multiset(FailedList(jobs, s.collected))[r.id] == Listings(jobs[r.id], r.interrupted)
    {
      var i :| 0 <= i < |s.collected| && s.collected[i] == r;
      TotalOfOneReport(jobs, s.collected, i);
      ListedAsOften(jobs, s.collected, r.id);
    }
    forall id: nat | multiset(FailedList(jobs, s.collected))[id] > 1
      ensures exists r :: r in s.collected && FailsTwice(jobs[r.id], r.interrupted)
    {
      assert id in FailedList(jobs, s.collected);
      FailedJobsAre(jobs, s.collected, id);
    }
  }

  /** The list follows the order of the reports: what more reports add stands at its end. */
  lemma {:induction false} FailedListConcat(jobs: seq<Job>, a: seq<Report>, b: seq<Report>)
    requires Known(jobs, a + b)
    ensures Known(jobs, a) && Known(jobs, b)
    ensures FailedList(jobs, a + b) == FailedList(jobs, a) + FailedList(jobs, b)
  {
    hide Known, Listings;
    KnownConcat(jobs, a, b);
    if b == [] {
      assert a + b == a;
    } else {
      var k := |b| - 1;
      assert (a + b)[..|a| + k] == a + b[..k];
      assert b == b[..k] + [b[k]];
      KnownConcat(jobs, a, b[..k]);
      KnownConcat(jobs, b[..k], [b[k]]);
      FailedListConcat(jobs, a, b[..k]);
    }
  }

  lemma KnownConcat(jobs: seq<Job>, a: seq<Report>, b: seq<Report>)
    ensures Known(jobs, a + b) <==> Known(jobs, a) && Known(jobs, b)
  {
    forall r ensures r in a + b <==> r in a || r in b {
    }
  }

  /** An interrupt before a job was started makes the run fail; otherwise the return codes decide. */
  lemma InterruptedRunFailsIff(c: Config, s: State, actions: seq<Action>, jobs: seq<Job>, tally: Tally)
    requires Reachable(c, s) && Runs(c, Apply(c, s, Interrupt), actions) && |jobs| == c.N
    requires Done(c, After(c, Apply(c, s, Interrupt), actions))
    requires Tallies(tally, jobs, After(c, Apply(c, s, Interrupt), actions).collected)
    ensures ExitCode(tally, c.N) == 0 <==>
            && (forall id: nat | id < c.N :: Started(s, id))
            && (forall job | job in jobs && !job.isSkip :: job.returncode == 0)
  {
    hide Reachable, Done, Count, Started;
    var end := After(c, Apply(c, s, Interrupt), actions);
    ReachableStep(c, s, Interrupt);
    ReachableRun(c, Apply(c, s, Interrupt), actions);
    RunsConserveJobsAndExitCode(c, end, jobs, tally);
    forall id: nat | id < c.N ensures Report(id, true) in end.collected <==> !Started(s, id) {
      InterruptBreaksTheRest(c, s, actions, id);
    }
    forall r | r in end.collected && r.interrupted ensures r == Report(r.id, true) && r.id < c.N {
    }
  }

  /** The smallest case: every run without an interrupt of one suite that failed both ways lists it twice. */
  lemma SuitesCanBeListedTwice(c: Config, s: State, job: Job)
    requires c.N == 1 && Reachable(c, s) && Done(c, s) && !s.exitFlag && FailsTwice(job, false)
    ensures Known([job], s.collected) && FailedList([job], s.collected) == [0, 0]
  {
    hide Reachable, Done;
    EndOfRun(c, s);
    ReportsAreKnown([job], s.collected);
    assert s.collected[0] in s.collected;
    assert s.collected == [Report(0, false)] && s.collected[..0] == [];
  }
}
