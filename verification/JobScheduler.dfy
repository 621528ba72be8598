/**
 The job scheduler: a polling loop per target over queued, running and finished
 jobs, with dependencies on jobs of earlier targets.
 */
module JobScheduler {
  import opened Common

  /** Queued, dispatched, passed, failed, killed. */
  datatype Status = Q | D | P | F | K

  predicate Terminal(s: Status) {
    s.P? || s.F? || s.K?
  }

  /** A job object: whether dispatching it works, how it ends, and what it depends on. */
  class Job {
    const target: string
    const dependencies: seq<Job>
    const needsAllDependenciesPassing: bool
    const deploys: bool
    const passes: bool

    constructor (target: string, dependencies: seq<Job>, needsAllDependenciesPassing: bool, deploys: bool, passes: bool)
      ensures this.target == target && this.dependencies == dependencies
      ensures this.needsAllDependenciesPassing == needsAllDependenciesPassing
      ensures this.deploys == deploys && this.passes == passes
    {
      this.target, this.dependencies := target, dependencies;
      this.needsAllDependenciesPassing, this.deploys, this.passes := needsAllDependenciesPassing, deploys, passes;
    }
  }

  type Results = map<Job, Status>

  /** For every job the number of polls that find it still running: any timing whatever. */
  type Timing = Job -> nat

  /** Whether an interrupt is pending at a target's n-th turn of the polling loop. */
  type Interrupts = (string, nat) -> bool

  function Outcome(job: Job): Status {
    if job.passes then P else F
  }

  /** What the poll after `k` earlier ones reports. */
  function PollStatus(timing: Timing, job: Job, k: nat): Status {
    if k < timing(job) then D else Outcome(job)
  }

  predicate Passing(job: Job, results: Results) {
    job in results && results[job] == P
  }

  /** Whether the results of its dependencies keep a job from running. */
  predicate Blocked(job: Job, results: Results) {
    if job.needsAllDependenciesPassing then exists d <- job.dependencies :: !Passing(d, results)
    else |job.dependencies| > 0 && forall d <- job.dependencies :: !Passing(d, results)
  }

  /** The final status of a job, given the final statuses of its dependencies. */
  function Verdict(job: Job, results: Results): Status {
    if Blocked(job, results) || !job.deploys then K else Outcome(job)
  }

  /** The set holds exactly the jobs with the given status. */
  ghost predicate Agree(jobs: set<Job>, statuses: Results, status: Status) {
    jobs <= statuses.Keys && forall j <- statuses.Keys :: j in jobs <==> statuses[j] == status
  }

  /** Each set holds exactly the jobs of its status, and the queue holds no job twice. */
  ghost predicate Consistent(queued: seq<Job>, running: set<Job>, passed: set<Job>, failed: set<Job>, killed: set<Job>,
          statuses: Results)
  {
    && Distinct(queued)
    && Agree(Elems(queued), statuses, Q)
    && Agree(running, statuses, D)
    && Agree(passed, statuses, P)
    && Agree(failed, statuses, F)
    && Agree(killed, statuses, K)
  }

  /** So the sets are disjoint and their union is the set of all jobs. */
  lemma SetsPartitionJobs(queued: seq<Job>, running: set<Job>, passed: set<Job>, failed: set<Job>, killed: set<Job>,
          statuses: Results)
    requires Consistent(queued, running, passed, failed, killed, statuses)
    ensures Elems(queued) !! running !! passed !! failed !! killed
    ensures statuses.Keys == Elems(queued) + running + passed + failed + killed
  {
    forall j <- statuses.Keys
      ensures j in Elems(queued) + running + passed + failed + killed
    {
      match statuses[j] {
        case Q => assert j in Elems(queued);
        case D => assert j in running;
        case P => assert j in passed;
        case F => assert j in failed;
        case K => assert j in killed;
      }
    }
  }

  /** A waiting job was never polled, a running one not more often than it runs. */
  ghost predicate Timely(statuses: Results, polls: map<Job, nat>, timing: Timing) {
    && polls.Keys == statuses.Keys
    && (forall j <- statuses.Keys :: statuses[j] == Q ==> polls[j] == 0)
    && (forall j <- statuses.Keys :: statuses[j] == D ==> polls[j] <= timing(j))
  }

  ghost predicate Sound(queued: seq<Job>, running: set<Job>, passed: set<Job>, failed: set<Job>, killed: set<Job>,
          statuses: Results, polls: map<Job, nat>, timing: Timing)
  {
    && Consistent(queued, running, passed, failed, killed, statuses)
    && Timely(statuses, polls, timing)
  }

  /** All jobs keep their status but the given ones, which get the given status. */
  ghost predicate Moved(before: Results, after: Results, jobs: set<Job>, status: Status) {
    && after.Keys == before.Keys
    && (forall j <- before.Keys :: j in jobs ==> after[j] == status)
    && (forall j <- before.Keys :: j !in jobs ==> after[j] == before[j])
  }

  lemma MovedMore(before: Results, middle: Results, jobs: set<Job>, item: Job, status: Status)
    requires Moved(before, middle, jobs, status) && item in before
    ensures Moved(before, middle[item := status], jobs + {item}, status)
  {}

  /** What one poll makes of the status of a job. */
  function PolledStatus(timing: Timing, statuses: Results, polls: map<Job, nat>, job: Job): Status
    requires job in statuses && job in polls
  {
    if statuses[job] == D then PollStatus(timing, job, polls[job]) else statuses[job]
  }

  ghost predicate AfterPoll(timing: Timing, before: Results, polls: map<Job, nat>, after: Results)
    requires polls.Keys == before.Keys
  {
    after.Keys == before.Keys && forall j <- before.Keys :: after[j] == PolledStatus(timing, before, polls, j)
  }

  /** The poll counters when the given jobs have been polled once more. */
  ghost predicate PolledOnce(before: map<Job, nat>, after: map<Job, nat>, jobs: set<Job>) {
    && after.Keys == before.Keys
    && (forall j <- before.Keys :: j in jobs ==> after[j] == before[j] + 1)
    && (forall j <- before.Keys :: j !in jobs ==> after[j] == before[j])
  }

  ghost predicate ResultsFor(results: Results, job: Job) {
    forall d <- job.dependencies :: d in results && Terminal(results[d])
  }

  ghost predicate AllResultsFor(results: Results, jobs: seq<Job>) {
    forall j <- jobs :: ResultsFor(results, j)
  }

  /** The status of a job once it has been taken off the queue. */
  function DispatchedStatus(job: Job, results: Results): Status {
    if Blocked(job, results) || !job.deploys then K else D
  }

  /** The jobs taken off the queue have been dispatched or killed, the others are as they were. */
  ghost predicate AfterDispatch(before: Results, taken: seq<Job>, results: Results, after: Results) {
    && after.Keys == before.Keys
    && (forall j <- before.Keys :: j in taken ==> after[j] == DispatchedStatus(j, results))
    && (forall j <- before.Keys :: j !in taken ==> after[j] == before[j])
  }

  /** What is known of every job's status at any time: it is on its way to the verdict. */
  ghost predicate OnCourse(statuses: Results, results: Results) {
    forall j <- statuses.Keys :: MayLead(j, statuses[j], results)
  }

  ghost predicate MayLead(job: Job, status: Status, results: Results) {
    match status
    case Q => true
    case D => Verdict(job, results) == Outcome(job)
    case _ => Verdict(job, results) == status
  }

  /** The jobs that are not blocked, in the same order. */
  ghost function Runnable(jobs: seq<Job>, results: Results): (runnable: seq<Job>)
    ensures |runnable| <= |jobs|
  {
    if jobs == [] then []
    else
      var last := jobs[|jobs| - 1];
      Runnable(jobs[..|jobs| - 1], results) + if Blocked(last, results) then [] else [last]
  }

  /** Of the jobs taken off the queue the blocked ones have been killed. */
  ghost predicate AfterTaking(before: Results, taken: seq<Job>, results: Results, after: Results) {
    && after.Keys == before.Keys
    && forall j <- before.Keys :: after[j] == if j in taken && Blocked(j, results) then K else before[j]
  }

  /** The jobs in hand have been dispatched, as far as this was possible. */
  ghost predicate Deployed(before: Results, jobs: seq<Job>, after: Results) {
    && after.Keys == before.Keys
    && forall j <- before.Keys :: after[j] == if j in jobs then (if j.deploys then D else K) else before[j]
  }

  /** The jobs taken off the queue are in hand, or killed. */
  ghost predicate Taken(before: Results, taken: seq<Job>, results: Results, after: Results, inHand: seq<Job>) {
    AfterTaking(before, taken, results, after) && inHand == Runnable(taken, results)
  }

  lemma NothingTaken(statuses: Results, queued: seq<Job>, results: Results)
    ensures queued[..0] == [] && queued[0..] == queued && Runnable([], results) == []
    ensures AfterDispatch(statuses, [], results, statuses) && Taken(statuses, [], results, statuses, [])
  {}

  lemma TakenMore(before: Results, taken: seq<Job>, results: Results, middle: Results, item: Job, inHand: seq<Job>)
    requires Taken(before, taken, results, middle, inHand) && item in before
    ensures Taken(before, taken + [item], results, if Blocked(item, results) then middle[item := K] else middle,
                  inHand + if Blocked(item, results) then [] else [item])
  {
    assert (taken + [item])[..|taken|] == taken;
  }

  lemma DeployedMore(before: Results, jobs: seq<Job>, middle: Results, item: Job)
    requires Deployed(before, jobs, middle) && item in before
    ensures Deployed(before, jobs + [item], middle[item := if item.deploys then D else K])
  {}

  lemma {:induction false} RunnableElems(jobs: seq<Job>, results: Results)
    ensures forall j <- jobs :: j in Runnable(jobs, results) <==> !Blocked(j, results)
    ensures forall j <- Runnable(jobs, results) :: j in jobs
  {
    if jobs != [] {
      RunnableElems(jobs[..|jobs| - 1], results);
      assert jobs == jobs[..|jobs| - 1] + [jobs[|jobs| - 1]];
    }
  }

  lemma TakenThenDispatched(before: Results, taken: seq<Job>, results: Results, middle: Results, after: Results)
    requires AfterTaking(before, taken, results, middle) && Deployed(middle, Runnable(taken, results), after)
    ensures AfterDispatch(before, taken, results, after)
  {
    RunnableElems(taken, results);
  }

  lemma HeadOfRest<T>(s: seq<T>, n: nat)
    requires n < |s|
    ensures s[n..] != [] && s[n..][0] == s[n] && s[n..][1..] == s[n + 1..]
    ensures s[n..] == [s[n]] + s[n + 1..] && s[..n + 1] == s[..n] + [s[n]]
  {}

  lemma KilledAt(all: seq<Job>, k: nat, running: set<Job>, passed: set<Job>, failed: set<Job>, killed: set<Job>,
          statuses: Results, polls: map<Job, nat>, timing: Timing)
    requires k < |all| && Sound(all, running, passed, failed, killed, statuses, polls, timing)
    ensures all[k] in statuses
    ensures Sound(all[..k] + all[k + 1..], running, passed, failed, killed + {all[k]}, statuses[all[k] := K], polls,
      timing)
  {
    assert all[k] in Elems(all);
    RemovedOne(all, k);
  }

  /** The head of the queue can be killed, or put in hand. */
  lemma TakeOne(pending: seq<Job>, queued: seq<Job>, running: set<Job>, passed: set<Job>, failed: set<Job>,
          killed: set<Job>, statuses: Results, polls: map<Job, nat>, timing: Timing)
    requires queued != [] && Sound(pending + queued, running, passed, failed, killed, statuses, polls, timing)
    ensures queued[0] in statuses
    ensures Sound(pending + queued[1..], running, passed, failed, killed + {queued[0]}, statuses[queued[0] := K],
      polls, timing)
    ensures pending + [queued[0]] + queued[1..] == pending + queued
  {
    KilledAt(pending + queued, |pending|, running, passed, failed, killed, statuses, polls, timing);
    SplitAtHead(pending, queued);
  }

  lemma SplitAtHead<T>(s: seq<T>, t: seq<T>)
    requires t != []
    ensures (s + t)[|s|] == t[0] && (s + t)[..|s|] + (s + t)[|s| + 1..] == s + t[1..]
    ensures s + [t[0]] + t[1..] == s + t
  {}

  /** A job in hand can be dispatched. */
  lemma DispatchOne(item: Job, pending: seq<Job>, queued: seq<Job>, running: set<Job>, passed: set<Job>,
          failed: set<Job>, killed: set<Job>, statuses: Results, polls: map<Job, nat>, timing: Timing)
    requires Sound([item] + pending + queued, running, passed, failed, killed, statuses, polls, timing)
    ensures item in statuses
    ensures Sound(pending + queued, running + {item}, passed, failed, killed, statuses[item := D], polls, timing)
  {
    var all := [item] + pending + queued;
    assert all[0] == item && all[0] in Elems(all);
    RemovedOne(all, 0);
    assert all[..0] + all[1..] == pending + queued;
  }

  /** The moves a job can make: from the queue to dispatched or killed, from dispatched to an end, and no further. */
  predicate LegalMove(a: Status, b: Status) {
    a == b || (a == Q && (b == D || b == K)) || (a == D && Terminal(b))
  }

  ghost predicate LegalStep(before: Results, after: Results) {
    after.Keys == before.Keys && forall j <- before.Keys :: LegalMove(before[j], after[j])
  }

  ghost function RunningIn(statuses: Results): set<Job> {
    set j <- statuses.Keys | statuses[j] == D
  }

  /** A history of statuses with only legal moves, and never too many jobs running. */
  ghost predicate Legal(trace: seq<Results>, maxParallel: nat) {
    && trace != []
    && (forall i | 0 <= i < |trace| :: |RunningIn(trace[i])| <= maxParallel)
    && (forall i | 0 < i < |trace| :: LegalStep(trace[i - 1], trace[i]))
  }

  ghost predicate AllQueued(statuses: Results) {
    forall j <- statuses.Keys :: statuses[j] == Q
  }

  ghost predicate AtVerdict(statuses: Results, results: Results) {
    forall j <- statuses.Keys :: statuses[j] == Verdict(j, results)
  }

  ghost predicate AtVerdictOrKilled(statuses: Results, results: Results) {
    forall j <- statuses.Keys :: statuses[j] == Verdict(j, results) || statuses[j] == K
  }

  ghost function Pick(jobs: set<Job>): (job: Job)
    requires jobs != {}
    ensures job in jobs
  {
    var j :| j in jobs; j
  }

  /** What tells a later turn of the polling loop from an earlier one when neither queue nor running jobs change. */
  ghost function Fuel(timing: Timing, running: set<Job>, polls: map<Job, nat>): int {
    if running != {} && Pick(running) in polls then timing(Pick(running)) - polls[Pick(running)] else 0
  }

  lemma PollCounts(timing: Timing, before: set<Job>, running: set<Job>, polls: map<Job, nat>, polled: map<Job, nat>)
    requires running <= before <= polls.Keys && PolledOnce(polls, polled, before)
    ensures |running| <= |before|
    ensures |running| == |before| && running != {} ==> Fuel(timing, running, polled) < Fuel(timing, before, polls)
  {
    assert before == running + (before - running);
    if |running| == |before| {
      assert before == running;
    }
  }

  /** A legal history from the first to the last statuses, with every job on its way to its verdict. */
  ghost predicate History(trace: seq<Results>, first: Results, last: Results, results: Results, maxParallel: nat) {
    && Legal(trace, maxParallel) && trace[0] == first && trace[|trace| - 1] == last
    && last.Keys == first.Keys && OnCourse(last, results)
  }

  lemma Extend(trace: seq<Results>, after: Results, maxParallel: nat, running: set<Job>)
    requires Legal(trace, maxParallel) && LegalStep(trace[|trace| - 1], after)
    requires Agree(running, after, D) && |running| <= maxParallel
    ensures Legal(trace + [after], maxParallel)
  {
    assert RunningIn(after) == running;
  }

  lemma Start(statuses: Results, results: Results, maxParallel: nat)
    requires AllQueued(statuses)
    ensures History([statuses], statuses, statuses, results, maxParallel)
  {
    assert RunningIn(statuses) == {};
  }

  lemma KillEnds(trace: seq<Results>, first: Results, before: Results, after: Results, results: Results,
          maxParallel: nat)
    requires History(trace, first, before, results, maxParallel) && AfterKill(before, after)
    ensures Ended(false, trace + [after], first, after, results, maxParallel)
  {
    assert RunningIn(after) == {} by {
      assert forall j <- after.Keys :: after[j] != D;
    }
    Extend(trace, after, maxParallel, {});
  }

  lemma PollKeepsCourse(timing: Timing, before: Results, polls: map<Job, nat>, after: Results, results: Results)
    requires OnCourse(before, results) && polls.Keys == before.Keys && AfterPoll(timing, before, polls, after)
    ensures OnCourse(after, results) && LegalStep(before, after)
  {
    forall j <- before.Keys
      ensures LegalMove(before[j], after[j])
      ensures MayLead(j, after[j], results)
    {
      assert after[j] == PolledStatus(timing, before, polls, j);
    }
  }

  lemma PollExtends(trace: seq<Results>, first: Results, before: Results, after: Results, results: Results,
          maxParallel: nat, timing: Timing, polls: map<Job, nat>, running: set<Job>)
    requires History(trace, first, before, results, maxParallel)
    requires polls.Keys == before.Keys && AfterPoll(timing, before, polls, after)
    requires Agree(running, after, D) && |running| <= maxParallel
    ensures History(trace + [after], first, after, results, maxParallel)
  {
    PollKeepsCourse(timing, before, polls, after, results);
    Extend(trace, after, maxParallel, running);
  }

  lemma DispatchKeepsCourse(before: Results, queued: seq<Job>, n: nat, after: Results, results: Results)
    requires OnCourse(before, results) && Agree(Elems(queued), before, Q) && n <= |queued|
    requires AfterDispatch(before, queued[..n], results, after)
    ensures OnCourse(after, results) && LegalStep(before, after)
  {
    forall j <- before.Keys
      ensures LegalMove(before[j], after[j])
      ensures MayLead(j, after[j], results)
    {
      if j in queued[..n] {
        assert j in Elems(queued);
      }
    }
  }

  lemma DispatchExtends(trace: seq<Results>, first: Results, before: Results, after: Results, results: Results,
          maxParallel: nat, queued: seq<Job>, n: nat, running: set<Job>)
    requires History(trace, first, before, results, maxParallel)
    requires Agree(Elems(queued), before, Q) && n <= |queued| && AfterDispatch(before, queued[..n], results, after)
    requires Agree(running, after, D) && |running| <= maxParallel
    ensures History(trace + [after], first, after, results, maxParallel)
  {
    DispatchKeepsCourse(before, queued, n, after, results);
    Extend(trace, after, maxParallel, running);
  }

  lemma NoneRunning(running: set<Job>, statuses: Results)
    requires AllQueued(statuses) && Agree(running, statuses, D)
    ensures running == {}
  {}

  /** How a run may end: finished with every job at its verdict, or interrupted; with a legal history. */
  ghost predicate Ended(finished: bool, trace: seq<Results>, first: Results, last: Results, results: Results,
          maxParallel: nat)
  {
    && Legal(trace, maxParallel) && trace[0] == first && trace[|trace| - 1] == last && last.Keys == first.Keys
    && (if finished then AtVerdict(last, results) else AtVerdictOrKilled(last, results))
  }

  lemma NothingLeft(trace: seq<Results>, first: Results, queued: seq<Job>, running: set<Job>, statuses: Results,
          results: Results, maxParallel: nat)
    requires History(trace, first, statuses, results, maxParallel) && queued == [] && running == {}
    requires Agree(Elems(queued), statuses, Q) && Agree(running, statuses, D)
    ensures Ended(true, trace, first, statuses, results, maxParallel)
  {}

  /** Some unfinished jobs have been killed, no other job has changed. */
  ghost predicate SomeKilled(before: Results, after: Results) {
    after.Keys == before.Keys &&
    forall j <- before.Keys :: after[j] == before[j] || (!Terminal(before[j]) && after[j] == K)
  }

  /** All unfinished jobs have been killed, no other job has changed. */
  ghost predicate AfterKill(before: Results, after: Results) {
    after.Keys == before.Keys && forall j <- before.Keys :: after[j] == if Terminal(before[j]) then before[j] else K
  }

  lemma KilledMore(before: Results, middle: Results, item: Job)
    requires SomeKilled(before, middle) && item in middle && !Terminal(middle[item])
    ensures SomeKilled(before, middle[item := K])
  {}

  lemma AllKilled(before: Results, after: Results)
    requires SomeKilled(before, after) && forall j <- after.Keys :: Terminal(after[j])
    ensures AfterKill(before, after)
  {}

  /** The jobs among `seen` that a poll finds finished with the given status. */
  ghost predicate Reported(timing: Timing, polls: map<Job, nat>, seen: set<Job>, jobs: set<Job>, status: Status)
  {
    && jobs <= seen <= polls.Keys
    && forall j <- seen :: j in jobs <==> PollStatus(timing, j, polls[j]) == status
  }

  lemma ReportedMore(timing: Timing, polls: map<Job, nat>, seen: set<Job>, item: Job, jobs: set<Job>, status: Status)
    requires Reported(timing, polls, seen, jobs, status) && item in polls && item !in seen
    ensures Reported(timing, polls, seen + {item},
      if PollStatus(timing, item, polls[item]) == status then jobs + {item} else jobs, status)
  {}

  /** Moving the passed and then the failed jobs is what a poll does to the statuses. */
  lemma PollSettles(timing: Timing, before: Results, polls: map<Job, nat>, polled: map<Job, nat>, after: Results,
          running: set<Job>, toPass: set<Job>, toFail: set<Job>)
    requires Agree(running, before, D) && Timely(before, polls, timing)
    requires PolledOnce(polls, polled, running)
    requires Reported(timing, polls, running, toPass, P) && Reported(timing, polls, running, toFail, F)
    requires exists middle :: Moved(before, middle, toPass, P) && Moved(middle, after, toFail, F)
    ensures AfterPoll(timing, before, polls, after) && Timely(after, polled, timing)
  {
    forall j <- before.Keys
      ensures after[j] == PolledStatus(timing, before, polls, j)
      ensures after[j] == D ==> polled[j] <= timing(j)
      ensures after[j] == Q ==> polled[j] == 0
    {
      assert j in running <==> before[j] == D;
    }
  }

  lemma RemovedOne<T>(s: seq<T>, i: nat)
    requires i < |s| && Distinct(s)
    ensures Distinct(s[..i] + s[i + 1..]) && Elems(s[..i] + s[i + 1..]) == Elems(s) - {s[i]}
  {
    assert s == s[..i] + [s[i]] + s[i + 1..];
  }

  lemma AddedOne<T>(s: seq<T>, x: T)
    requires Distinct(s) && x !in s
    ensures Distinct(s + [x]) && Elems(s + [x]) == Elems(s) + {x}
  {}

  class TargetScheduler {
    const name: string
    const timing: Timing
    var queued: seq<Job>
    var running: set<Job>
    var passed: set<Job>
    var failed: set<Job>
    var killed: set<Job>
    var itemToStatus: Results
    /** How often each job has been polled: the state of the job objects. */
    var polls: map<Job, nat>

    ghost predicate Valid()
      reads this
    {
      Sound(queued, running, passed, failed, killed, itemToStatus, polls, timing)
    }

    constructor (name: string, timing: Timing)
      ensures Holds(this, []) && this.name == name && this.timing == timing
    {
      this.name, this.timing := name, timing;
      queued, running, passed, failed, killed := [], {}, {}, {}, {};
      itemToStatus, polls := map[], map[];
    }

    method AddItem(item: Job)
      requires Valid() && item !in itemToStatus
      modifies this
      ensures Valid()
      ensures queued == old(queued) + [item] && itemToStatus == old(itemToStatus)[item := Q]
      ensures old(AllQueued(itemToStatus)) ==> AllQueued(itemToStatus)
    {
      AddedOne(queued, item);
      itemToStatus := itemToStatus[item := Q];
      queued := queued + [item];
      polls := polls[item := 0];
    }

    /** Kill a running job; `pending` are the jobs in hand between queue and dispatch. */
    method KillItem(item: Job, ghost pending: seq<Job>)
      requires Sound(pending + queued, running, passed, failed, killed, itemToStatus, polls, timing) && item in running
      modifies this`running, this`killed, this`itemToStatus
      ensures Sound(pending + queued, running, passed, failed, killed, itemToStatus, polls, timing)
      ensures running == old(running) - {item} && itemToStatus == old(itemToStatus)[item := K]
    {
      running := running - {item};
      killed := killed + {item};
      itemToStatus := itemToStatus[item := K];
    }

    /** Take a job out of the queue. */
    method Cancel(item: Job)
      requires Valid() && item in queued
      modifies this`queued, this`killed, this`itemToStatus
      ensures Valid() && |queued| == |old(queued)| - 1
      ensures itemToStatus == old(itemToStatus)[item := K]
    {
      var i :| 0 <= i < |queued| && queued[i] == item;
      RemovedOne(queued, i);
      queued := queued[..i] + queued[i + 1..];
      killed := killed + {item};
      itemToStatus := itemToStatus[item := K];
    }

    /** Cancel everything that waits and kill everything that runs. */
    method Kill()
      requires Valid()
      modifies this`queued, this`running, this`killed, this`itemToStatus
      ensures Valid() && queued == [] && running == {}
      ensures AfterKill(old(itemToStatus), itemToStatus)
    {
      CancelWaiting();
      while running != {}
        invariant Valid() && queued == [] && SomeKilled(old(itemToStatus), itemToStatus)
        decreases running
      {
        var item :| item in running;
        KilledMore(old(itemToStatus), itemToStatus, item);
        assert [] + queued == queued;
        KillItem(item, []);
      }
      AllKilled(old(itemToStatus), itemToStatus);
    }

    /** The loop over the waiting jobs. */
    method CancelWaiting()
      requires Valid()
      modifies this`queued, this`killed, this`itemToStatus
      ensures Valid() && queued == [] && SomeKilled(old(itemToStatus), itemToStatus)
    {
      while |queued| > 0
        invariant Valid() && SomeKilled(old(itemToStatus), itemToStatus)
        decreases |queued|
      {
        assert itemToStatus[queued[0]] == Q by { assert queued[0] in Elems(queued); }
        KilledMore(old(itemToStatus), itemToStatus, queued[0]);
        Cancel(queued[0]);
      }
    }

    /** Poll every running job once and move those that have finished. */
    method Poll() returns (changed: bool)
      requires Valid()
      modifies this`running, this`passed, this`failed, this`itemToStatus, this`polls
      ensures Valid() && running <= old(running) && changed == (running != old(running))
      ensures AfterPoll(timing, old(itemToStatus), old(polls), itemToStatus)
      ensures PolledOnce(old(polls), polls, old(running))
    {
      var toPass, toFail: set<Job> := {}, {};
      var rest := running;
      while rest != {}
        modifies this`polls
        invariant rest <= running && PolledOnce(old(polls), polls, running - rest)
        invariant Reported(timing, old(polls), running - rest, toPass, P)
        invariant Reported(timing, old(polls), running - rest, toFail, F)
        decreases rest
      {
        var item :| item in rest;
        var status := PollStatus(timing, item, polls[item]);
        ReportedMore(timing, old(polls), running - rest, item, toPass, P);
        ReportedMore(timing, old(polls), running - rest, item, toFail, F);
        assert running - (rest - {item}) == running - rest + {item};
        rest := rest - {item};
        polls := polls[item := polls[item] + 1];
        if status == P {
          toPass := toPass + {item};
        } else if status == F {
          toFail := toFail + {item};
        }
      }
      assert running - rest == running;
      changed := toPass != {} || toFail != {};
      MovePassed(toPass);
      MoveFailed(toFail);
      PollSettles(timing, old(itemToStatus), old(polls), polls, itemToStatus, old(running), toPass, toFail);
    }

    /** The loop over the jobs that have passed. */
    method MovePassed(toPass: set<Job>)
      requires Consistent(queued, running, passed, failed, killed, itemToStatus) && toPass <= running
      modifies this`running, this`passed, this`itemToStatus
      ensures Consistent(queued, running, passed, failed, killed, itemToStatus) && running == old(running) - toPass
      ensures Moved(old(itemToStatus), itemToStatus, toPass, P)
    {
      var rest := toPass;
      while rest != {}
        invariant Consistent(queued, running, passed, failed, killed, itemToStatus)
        invariant rest <= toPass && running == old(running) - (toPass - rest)
        invariant Moved(old(itemToStatus), itemToStatus, toPass - rest, P)
        decreases rest
      {
        var item :| item in rest;
        MovedMore(old(itemToStatus), itemToStatus, toPass - rest, item, P);
        assert toPass - (rest - {item}) == toPass - rest + {item};
        rest := rest - {item};
        running := running - {item};
        passed := passed + {item};
        itemToStatus := itemToStatus[item := P];
      }
      assert toPass - rest == toPass;
    }

    /** The loop over the jobs that have failed. */
    method MoveFailed(toFail: set<Job>)
      requires Consistent(queued, running, passed, failed, killed, itemToStatus) && toFail <= running
      modifies this`running, this`failed, this`itemToStatus
      ensures Consistent(queued, running, passed, failed, killed, itemToStatus) && running == old(running) - toFail
      ensures Moved(old(itemToStatus), itemToStatus, toFail, F)
    {
      var rest := toFail;
      while rest != {}
        invariant Consistent(queued, running, passed, failed, killed, itemToStatus)
        invariant rest <= toFail && running == old(running) - (toFail - rest)
        invariant Moved(old(itemToStatus), itemToStatus, toFail - rest, F)
        decreases rest
      {
        var item :| item in rest;
        MovedMore(old(itemToStatus), itemToStatus, toFail - rest, item, F);
        assert toFail - (rest - {item}) == toFail - rest + {item};
        rest := rest - {item};
        running := running - {item};
        failed := failed + {item};
        itemToStatus := itemToStatus[item := F];
      }
      assert toFail - rest == toFail;
    }

    /** Whether a failed dependency rules the job out. */
    method HasFailedDep(nextItem: Job, oldResults: Results) returns (hasFailedDep: bool)
      requires ResultsFor(oldResults, nextItem)
      ensures hasFailedDep == Blocked(nextItem, oldResults)
    {
      hasFailedDep := false;
      for i := 0 to |nextItem.dependencies|
        invariant nextItem.needsAllDependenciesPassing ==>
          !hasFailedDep && forall k | 0 <= k < i :: Passing(nextItem.dependencies[k], oldResults)
        invariant !nextItem.needsAllDependenciesPassing ==>
          hasFailedDep == (i > 0) && forall k | 0 <= k < i :: !Passing(nextItem.dependencies[k], oldResults)
      {
        var dep := nextItem.dependencies[i];
        assert dep in nextItem.dependencies;
        var depStatus := oldResults[dep];
        if nextItem.needsAllDependenciesPassing {
          if depStatus == F || depStatus == K {
            hasFailedDep := true;
            break;
          }
        } else {
          hasFailedDep := true;
          if depStatus == P {
            hasFailedDep := false;
            break;
          }
        }
      }
    }

    /** Dispatch as many queued jobs as the slots allow, taking `n` off the queue; kill those that are blocked. */
    method Dispatch(oldResults: Results, maxParallel: nat, slotLimit: nat) returns (ghost n: nat)
      requires Valid() && |running| <= maxParallel && AllResultsFor(oldResults, queued)
      modifies this`queued, this`running, this`killed, this`itemToStatus
      ensures Valid() && |running| <= maxParallel
      ensures n <= |old(queued)| && queued == old(queued)[n..]
      ensures AfterDispatch(old(itemToStatus), old(queued)[..n], oldResults, itemToStatus)
      ensures n == 0 <==> slotLimit == 0 || |old(running)| == maxParallel || old(queued) == []
      ensures n == 0 ==> running == old(running)
      ensures |Runnable(old(queued)[..n], oldResults)| <= Min(slotLimit, maxParallel - |old(running)|)
      ensures queued != [] ==> |Runnable(old(queued)[..n], oldResults)| == Min(slotLimit, maxParallel - |old(running)|)
    {
      n := 0;
      NothingTaken(itemToStatus, queued, oldResults);
      var numSlots := Min(slotLimit, Min(maxParallel - |running|, |queued|));
      if numSlots <= 0 {
        return;
      }
      var toDispatch;
      toDispatch, n := TakeFromQueue(oldResults, numSlots);
      ghost var middle := itemToStatus;
      DispatchAll(toDispatch);
      TakenThenDispatched(old(itemToStatus), old(queued)[..n], oldResults, middle, itemToStatus);
    }

    /** The loop over the queue. */
    method TakeFromQueue(oldResults: Results, numSlots: nat) returns (toDispatch: seq<Job>, ghost n: nat)
      requires Valid() && AllResultsFor(oldResults, queued)
      requires 0 < numSlots <= |queued|
      modifies this`queued, this`killed, this`itemToStatus
      ensures Sound(toDispatch + queued, running, passed, failed, killed, itemToStatus, polls, timing)
      ensures 0 < n <= |old(queued)| && queued == old(queued)[n..]
      ensures toDispatch == Runnable(old(queued)[..n], oldResults)
      ensures |toDispatch| <= numSlots && (queued == [] || |toDispatch| == numSlots)
      ensures AfterTaking(old(itemToStatus), old(queued)[..n], oldResults, itemToStatus)
    {
      toDispatch := [];
      ghost var q0, s0, taken := queued, itemToStatus, [];
      NothingTaken(s0, q0, oldResults);
      assert [] + queued == queued;
      while |toDispatch| < numSlots && |queued| > 0
        invariant q0 == taken + queued && |toDispatch| <= numSlots
        invariant Taken(s0, taken, oldResults, itemToStatus, toDispatch)
        invariant Sound(toDispatch + queued, running, passed, failed, killed, itemToStatus, polls, timing)
        decreases |queued|
      {
        SplitAtHead(taken, queued);
        assert ResultsFor(oldResults, q0[|taken|]);
        ghost var middle, item := itemToStatus, queued[0];
        var next := TakeNext(oldResults, toDispatch);
        TakenMore(s0, taken, oldResults, middle, item, toDispatch);
        toDispatch := toDispatch + next;
        taken := taken + [item];
      }
      n := |taken|;
      assert q0[..n] == taken && q0[n..] == queued;
    }

    /** One turn of the loop over the queue: the head of the queue is put in hand or killed. */
    method TakeNext(oldResults: Results, ghost pending: seq<Job>) returns (next: seq<Job>)
      requires Sound(pending + queued, running, passed, failed, killed, itemToStatus, polls, timing)
      requires queued != [] && ResultsFor(oldResults, queued[0])
      modifies this`queued, this`killed, this`itemToStatus
      ensures old(queued)[0] in old(itemToStatus) && queued == old(queued)[1..]
      ensures Sound(pending + next + queued, running, passed, failed, killed, itemToStatus, polls, timing)
      ensures next == if Blocked(old(queued)[0], oldResults) then [] else [old(queued)[0]]
      ensures itemToStatus ==
        if Blocked(old(queued)[0], oldResults) then old(itemToStatus)[old(queued)[0] := K] else old(itemToStatus)
    {
      TakeOne(pending, queued, running, passed, failed, killed, itemToStatus, polls, timing);
      var nextItem := queued[0];
      queued := queued[1..];
      var hasFailedDep := HasFailedDep(nextItem, oldResults);
      if hasFailedDep {
        killed := killed + {nextItem};
        itemToStatus := itemToStatus[nextItem := K];
        assert pending + [] == pending;
        return [];
      }
      return [nextItem];
    }

    /** The loop over the jobs in hand. */
    method DispatchAll(toDispatch: seq<Job>)
      requires Sound(toDispatch + queued, running, passed, failed, killed, itemToStatus, polls, timing)
      modifies this`running, this`killed, this`itemToStatus
      ensures Valid() && |running| <= |old(running)| + |toDispatch|
      ensures Deployed(old(itemToStatus), toDispatch, itemToStatus)
    {
      for i := 0 to |toDispatch|
        invariant Sound(toDispatch[i..] + queued, running, passed, failed, killed, itemToStatus, polls, timing)
        invariant |running| <= |old(running)| + i
        invariant Deployed(old(itemToStatus), toDispatch[..i], itemToStatus)
      {
        HeadOfRest(toDispatch, i);
        ghost var middle := itemToStatus;
        DispatchItem(toDispatch[i], toDispatch[i + 1..]);
        DeployedMore(old(itemToStatus), toDispatch[..i], middle, toDispatch[i]);
      }
      assert toDispatch[|toDispatch|..] + queued == queued && toDispatch[..|toDispatch|] == toDispatch;
    }

    /** One turn of the loop over the jobs in hand. */
    method DispatchItem(item: Job, ghost pending: seq<Job>)
      requires Sound([item] + pending + queued, running, passed, failed, killed, itemToStatus, polls, timing)
      modifies this`running, this`killed, this`itemToStatus
      ensures Sound(pending + queued, running, passed, failed, killed, itemToStatus, polls, timing)
      ensures item in old(itemToStatus) && itemToStatus == old(itemToStatus)[item := if item.deploys then D else K]
      ensures |running| <= |old(running)| + 1
    {
      DispatchOne(item, pending, queued, running, passed, failed, killed, itemToStatus, polls, timing);
      running := running + {item};
      itemToStatus := itemToStatus[item := D];
      if !item.deploys {
        KillItem(item, pending);
      }
    }

    /**
     The polling loop. Whatever the timing and the limits, it ends, and unless
     interrupted with every job at its verdict; `trace` lists the statuses after
     every poll and every dispatch.
     */
    method Run(oldResults: Results, maxParallel: nat, slotLimit: nat, interrupts: Interrupts)
      returns (finished: bool, ghost trace: seq<Results>)
      requires Valid() && AllQueued(itemToStatus) && AllResultsFor(oldResults, queued)
      requires maxParallel > 0 && slotLimit > 0
      modifies this
      ensures Valid() && queued == [] && running == {} && itemToStatus.Keys == old(itemToStatus).Keys
      ensures finished ==> AtVerdict(itemToStatus, oldResults)
      ensures !finished ==> AtVerdictOrKilled(itemToStatus, oldResults)
      ensures (forall k :: !interrupts(name, k)) ==> finished
      ensures Legal(trace, maxParallel) && trace[0] == old(itemToStatus) && trace[|trace| - 1] == itemToStatus
    {
      Start(itemToStatus, oldResults, maxParallel);
      NoneRunning(running, itemToStatus);
      finished, trace := PollingLoop(oldResults, maxParallel, slotLimit, interrupts, itemToStatus);
    }

    /** The loop, from the first statuses on. */
    method PollingLoop(oldResults: Results, maxParallel: nat, slotLimit: nat, interrupts: Interrupts,
            ghost first: Results)
      returns (finished: bool, ghost trace: seq<Results>)
      requires Valid() && |running| <= maxParallel && AllResultsFor(oldResults, queued)
      requires maxParallel > 0 && slotLimit > 0 && History([first], first, itemToStatus, oldResults, maxParallel)
      modifies this
      ensures Valid() && queued == [] && running == {}
      ensures Ended(finished, trace, first, itemToStatus, oldResults, maxParallel)
      ensures (forall k :: !interrupts(name, k)) ==> finished
    {
      trace := [first];
      var k := 0;
      while true
        invariant Valid() && |running| <= maxParallel && AllResultsFor(oldResults, queued)
        invariant History(trace, first, itemToStatus, oldResults, maxParallel)
        decreases |queued|, |running|, Fuel(timing, running, polls)
      {
        if interrupts(name, k) {
          trace := RecordedKill(oldResults, maxParallel, first, trace);
          finished := false;
          return;
        }
        trace := Turn(oldResults, maxParallel, slotLimit, first, trace);
        if queued == [] && running == {} {
          break;
        }
        k := k + 1;
      }
      NothingLeft(trace, first, queued, running, itemToStatus, oldResults, maxParallel);
      finished := true;
    }

    /** One turn of the polling loop. */
    method Turn(oldResults: Results, maxParallel: nat, slotLimit: nat, ghost first: Results, ghost trace: seq<Results>)
      returns (ghost longer: seq<Results>)
      requires Valid() && |running| <= maxParallel && AllResultsFor(oldResults, queued)
      requires maxParallel > 0 && slotLimit > 0
      requires History(trace, first, itemToStatus, oldResults, maxParallel)
      modifies this
      ensures Valid() && |running| <= maxParallel && AllResultsFor(oldResults, queued)
      ensures History(longer, first, itemToStatus, oldResults, maxParallel)
      ensures |queued| <= |old(queued)|
      ensures |queued| == |old(queued)| ==> |running| <= |old(running)|
      ensures |queued| == |old(queued)| && |running| == |old(running)| && (queued != [] || running != {}) ==>
        Fuel(timing, running, polls) < old(Fuel(timing, running, polls))
    {
      longer := RecordedPoll(oldResults, maxParallel, first, trace);
      longer := RecordedDispatch(oldResults, maxParallel, slotLimit, first, longer);
    }

    method RecordedKill(ghost oldResults: Results, ghost maxParallel: nat, ghost first: Results,
            ghost trace: seq<Results>)
      returns (ghost longer: seq<Results>)
      requires Valid() && History(trace, first, itemToStatus, oldResults, maxParallel)
      modifies this`queued, this`running, this`killed, this`itemToStatus
      ensures Valid() && queued == [] && running == {}
      ensures Ended(false, longer, first, itemToStatus, oldResults, maxParallel)
    {
      Kill();
      KillEnds(trace, first, old(itemToStatus), itemToStatus, oldResults, maxParallel);
      longer := trace + [itemToStatus];
    }

    method RecordedPoll(ghost oldResults: Results, ghost maxParallel: nat, ghost first: Results,
            ghost trace: seq<Results>)
      returns (ghost longer: seq<Results>)
      requires Valid() && |running| <= maxParallel
      requires History(trace, first, itemToStatus, oldResults, maxParallel)
      modifies this`running, this`passed, this`failed, this`itemToStatus, this`polls
      ensures Valid() && |running| <= |old(running)|
      ensures |running| == |old(running)| && running != {} ==>
        Fuel(timing, running, polls) < old(Fuel(timing, running, polls))
      ensures History(longer, first, itemToStatus, oldResults, maxParallel)
    {
      var changed := Poll();
      PollCounts(timing, old(running), running, old(polls), polls);
      PollExtends(trace, first, old(itemToStatus), itemToStatus, oldResults, maxParallel, timing, old(polls), running);
      longer := trace + [itemToStatus];
    }

    method RecordedDispatch(oldResults: Results, maxParallel: nat, slotLimit: nat, ghost first: Results,
            ghost trace: seq<Results>)
      returns (ghost longer: seq<Results>)
      requires Valid() && |running| <= maxParallel && AllResultsFor(oldResults, queued)
      requires maxParallel > 0 && slotLimit > 0
      requires History(trace, first, itemToStatus, oldResults, maxParallel)
      modifies this`queued, this`running, this`killed, this`itemToStatus
      ensures Valid() && |running| <= maxParallel && AllResultsFor(oldResults, queued)
      ensures History(longer, first, itemToStatus, oldResults, maxParallel)
      ensures |queued| <= |old(queued)|
      ensures |queued| == |old(queued)| ==> running == old(running) && (running != {} || queued == [])
    {
      ghost var n := Dispatch(oldResults, maxParallel, slotLimit);
      DispatchExtends(trace, first, old(itemToStatus), itemToStatus, oldResults, maxParallel, old(queued), n, running);
      longer := trace + [itemToStatus];
    }
  }

  /** The jobs of one target, in their order. */
  ghost function ItemsOf(items: seq<Job>, target: string): seq<Job> {
    if items == [] then []
    else
      var last := items[|items| - 1];
      ItemsOf(items[..|items| - 1], target) + if last.target == target then [last] else []
  }

  /** The targets in the order in which they first occur. */
  ghost function TargetsOf(items: seq<Job>): seq<string> {
    if items == [] then []
    else
      var init, last := items[..|items| - 1], items[|items| - 1];
      TargetsOf(init) + if last.target in TargetsOf(init) then [] else [last.target]
  }

  lemma {:induction false} ItemsOfTarget(items: seq<Job>, target: string)
    ensures forall j <- ItemsOf(items, target) :: j in items && j.target == target
    ensures forall j <- items :: j.target == target ==> j in ItemsOf(items, target)
  {
    if items != [] {
      ItemsOfTarget(items[..|items| - 1], target);
      assert items == items[..|items| - 1] + [items[|items| - 1]];
    }
  }

  lemma {:induction false} TargetsDistinct(items: seq<Job>)
    ensures Distinct(TargetsOf(items))
    ensures forall j <- items :: j.target in TargetsOf(items)
  {
    if items != [] {
      TargetsDistinct(items[..|items| - 1]);
      assert items == items[..|items| - 1] + [items[|items| - 1]];
    }
  }

  lemma ItemsOfMore(items: seq<Job>, item: Job, target: string)
    ensures ItemsOf(items + [item], target) == ItemsOf(items, target) + if item.target == target then [item] else []
  {
    assert (items + [item])[..|items|] == items;
  }

  lemma TargetsOfMore(items: seq<Job>, item: Job)
    ensures TargetsOf(items + [item]) == TargetsOf(items) +
      if item.target in TargetsOf(items) then [] else [item.target]
  {
    assert (items + [item])[..|items|] == items;
  }

  lemma {:induction false} NoItems(items: seq<Job>, target: string)
    requires target !in TargetsOf(items)
    ensures ItemsOf(items, target) == []
  {
    if items != [] {
      NoItems(items[..|items| - 1], target);
    }
  }

  /** Every dependency is itself an item, and of an earlier target. */
  ghost predicate Ordered(items: seq<Job>) {
    forall j <- items :: forall d <- j.dependencies :: d in items && Earlier(TargetsOf(items), d.target, j.target)
  }

  ghost predicate Earlier(targets: seq<string>, a: string, b: string) {
    forall n | 0 <= n < |targets| && targets[n] == b :: a in targets[..n]
  }

  /** The scheduler holds exactly these jobs and has not started any. */
  ghost predicate Holds(scheduler: TargetScheduler, jobs: seq<Job>)
    reads scheduler
  {
    scheduler.Valid() && scheduler.queued == jobs && AllQueued(scheduler.itemToStatus)
  }

  lemma HeldJobs(scheduler: TargetScheduler, jobs: seq<Job>)
    requires Holds(scheduler, jobs)
    ensures scheduler.itemToStatus.Keys == Elems(jobs)
  {
    assert Agree(Elems(jobs), scheduler.itemToStatus, Q);
  }

  ghost predicate AllHold(schedulers: seq<TargetScheduler>, n: nat, items: seq<Job>)
    reads schedulers
  {
    forall k | n <= k < |schedulers| :: Holds(schedulers[k], ItemsOf(items, schedulers[k].name))
  }

  /** One scheduler per target, in the order of the targets. */
  ghost predicate Named(schedulers: seq<TargetScheduler>, targets: seq<string>) {
    |schedulers| == |targets| && forall k | 0 <= k < |targets| :: schedulers[k].name == targets[k]
  }

  ghost predicate Grown(before: seq<TargetScheduler>, after: seq<TargetScheduler>) {
    |before| <= |after| <= |before| + 1 && forall i | 0 <= i < |before| :: after[i] == before[i]
  }

  /** Every item has a result, and it is the verdict that the results of its dependencies call for. */
  ghost predicate Solution(items: seq<Job>, results: Results) {
    results.Keys == Elems(items) && forall j <- items :: results[j] == Verdict(j, results)
  }

  /** The same for the items of some of the targets. */
  ghost predicate Solved(items: seq<Job>, targets: seq<string>, results: Results) {
    && (forall j <- results.Keys :: j in items && j.target in targets && results[j] == Verdict(j, results))
    && (forall j <- items :: j.target in targets ==> j in results)
  }

  lemma DependenciesDone(items: seq<Job>, i: nat, results: Results)
    requires i < |TargetsOf(items)| && Ordered(items) && Solved(items, TargetsOf(items)[..i], results)
    ensures AllResultsFor(results, ItemsOf(items, TargetsOf(items)[i]))
  {
    var targets := TargetsOf(items);
    ItemsOfTarget(items, targets[i]);
    forall j <- ItemsOf(items, targets[i])
      ensures ResultsFor(results, j)
    {
      forall d <- j.dependencies
        ensures d in results && Terminal(results[d])
      {
        assert Earlier(targets, d.target, j.target);
      }
    }
  }

  /** A verdict looks at the results of the dependencies only. */
  lemma VerdictOf(job: Job, a: Results, b: Results)
    requires forall d <- job.dependencies :: Passing(d, a) == Passing(d, b)
    ensures Verdict(job, a) == Verdict(job, b)
  {}

  lemma TargetSolved(items: seq<Job>, i: nat, results: Results, statuses: Results)
    requires i < |TargetsOf(items)| && Ordered(items) && Solved(items, TargetsOf(items)[..i], results)
    requires statuses.Keys == Elems(ItemsOf(items, TargetsOf(items)[i])) && AtVerdict(statuses, results)
    ensures Solved(items, TargetsOf(items)[..i + 1], results + statuses)
  {
    ItemsOfTarget(items, TargetsOf(items)[i]);
    TargetsDistinct(items);
    HeadOfRest(TargetsOf(items), i);
    forall j <- items | j.target in TargetsOf(items)[..i + 1]
      ensures Verdict(j, results + statuses) == Verdict(j, results)
    {
      StaysSolved(items, i, results, statuses, j);
    }
    SolvedMore(items, TargetsOf(items)[..i], TargetsOf(items)[i], results, statuses);
  }

  lemma SolvedMore(items: seq<Job>, targets: seq<string>, target: string, results: Results, statuses: Results)
    requires Solved(items, targets, results) && AtVerdict(statuses, results)
    requires forall j <- statuses.Keys :: j in items && j.target == target
    requires forall j <- items :: j.target == target ==> j in statuses
    requires forall j <- items | j.target in targets + [target] :: Verdict(j, results + statuses) == Verdict(j, results)
    ensures Solved(items, targets + [target], results + statuses)
  {}

  lemma StaysSolved(items: seq<Job>, i: nat, results: Results, statuses: Results, job: Job)
    requires i < |TargetsOf(items)| && Ordered(items) && Distinct(TargetsOf(items)) &&
      Solved(items, TargetsOf(items)[..i], results)
    requires forall j <- statuses.Keys :: j.target == TargetsOf(items)[i]
    requires job in items && job.target in TargetsOf(items)[..i + 1]
    ensures Verdict(job, results + statuses) == Verdict(job, results)
  {
    forall d <- job.dependencies
      ensures Passing(d, results + statuses) == Passing(d, results)
    {
      assert Earlier(TargetsOf(items), d.target, job.target);
      assert d.target != TargetsOf(items)[i];
    }
    VerdictOf(job, results + statuses, results);
  }

  lemma AllSolved(items: seq<Job>, results: Results)
    requires Solved(items, TargetsOf(items)[..|TargetsOf(items)|], results)
    ensures Solution(items, results)
  {
    TargetsDistinct(items);
    assert TargetsOf(items)[..|TargetsOf(items)|] == TargetsOf(items);
  }

  /** There is one solution: the results depend neither on timing nor on the limits. */
  lemma ScheduleIndependent(items: seq<Job>, a: Results, b: Results)
    requires Ordered(items) && Solution(items, a) && Solution(items, b)
    ensures a == b
  {
    TargetsDistinct(items);
    SolutionsAgree(items, a, b, |TargetsOf(items)|);
    var targets := TargetsOf(items);
    assert targets[..|targets|] == targets;
  }

  /** If every job can be dispatched and passes, all results are P. */
  lemma AllPass(items: seq<Job>, results: Results)
    requires Ordered(items) && Solution(items, results)
    requires forall j <- items :: j.deploys && j.passes
    ensures forall j <- items :: results[j] == P
  {
    var passing: Results := map j <- Elems(items) :: P;
    forall j <- items ensures passing[j] == Verdict(j, passing) {
      forall d <- j.dependencies ensures Passing(d, passing) {
        assert d in items;
      }
      assert |j.dependencies| > 0 ==> Passing(j.dependencies[0], passing);
    }
    ScheduleIndependent(items, results, passing);
  }

  /** A job ends with F exactly if it is dispatched and does not pass; what needs it is killed. */
  lemma FailureSpreads(items: seq<Job>, results: Results, job: Job)
    requires Solution(items, results) && job in items
    ensures results[job] == F <==> job.deploys && !job.passes && !Blocked(job, results)
    ensures job.needsAllDependenciesPassing && (exists d <- job.dependencies :: d in items && results[d] != P) ==>
      results[job] == K
  {}

  /** Solutions agree on the items of the first `n` targets. */
  ghost predicate AgreeOn(items: seq<Job>, a: Results, b: Results, n: nat)
    requires Solution(items, a) && Solution(items, b) && n <= |TargetsOf(items)|
  {
    forall j <- items :: j.target in TargetsOf(items)[..n] ==> a[j] == b[j]
  }

  lemma NextAgrees(items: seq<Job>, a: Results, b: Results, n: nat, j: Job)
    requires Ordered(items) && Solution(items, a) && Solution(items, b) && n < |TargetsOf(items)|
    requires AgreeOn(items, a, b, n) && j in items && j.target == TargetsOf(items)[n]
    ensures a[j] == b[j]
  {
    forall d <- j.dependencies ensures Passing(d, a) == Passing(d, b) {
      assert Earlier(TargetsOf(items), d.target, j.target);
    }
    VerdictOf(j, a, b);
  }

  lemma {:induction false} SolutionsAgree(items: seq<Job>, a: Results, b: Results, n: nat)
    requires Ordered(items) && Solution(items, a) && Solution(items, b) && n <= |TargetsOf(items)|
    ensures AgreeOn(items, a, b, n)
  {
    if n > 0 {
      SolutionsAgree(items, a, b, n - 1);
      forall j <- items | j.target in TargetsOf(items)[..n] ensures a[j] == b[j] {
        if j.target !in TargetsOf(items)[..n - 1] {
          NextAgrees(items, a, b, n - 1, j);
        }
      }
    }
  }

  lemma NotNamed(schedulers: seq<TargetScheduler>, targets: seq<string>, target: string)
    requires Named(schedulers, targets) && forall i | 0 <= i < |schedulers| :: schedulers[i].name != target
    ensures target !in targets
  {}

  lemma NamedMore(before: seq<TargetScheduler>, after: seq<TargetScheduler>, targets: seq<string>, target: string)
    requires Named(before, targets) && Grown(before, after) && |after| == |before| + 1 && after[|before|].name == target
    ensures Named(after, targets + [target])
  {
    forall k | 0 <= k < |after|
      ensures after[k].name == (targets + [target])[k]
    {
      if k < |before| {
        assert after[k] == before[k];
      }
    }
  }

  lemma OnlyOne(schedulers: seq<TargetScheduler>, targets: seq<string>, k: nat)
    requires Named(schedulers, targets) && Distinct(targets) && k < |targets|
    ensures forall i | 0 <= i < |schedulers| && i != k :: schedulers[i].name != schedulers[k].name
  {}

  /** A schedule of all the items: the dictionary of targets is kept as the list of its values in insertion order. */
  class Scheduler {
    const timing: Timing
    ghost const items: seq<Job>
    var schedulers: seq<TargetScheduler>

    constructor (items: seq<Job>, timing: Timing)
      requires Distinct(items)
      ensures this.items == items && this.timing == timing
      ensures Prepared(items)
      ensures forall k | 0 <= k < |schedulers| :: fresh(schedulers[k])
    {
      this.timing := timing;
      this.items := items;
      schedulers := [];
      new;
      ScheduleAll(items);
    }

    /** The loop over the items. */
    method ScheduleAll(items: seq<Job>)
      requires schedulers == [] && Distinct(items)
      modifies this
      ensures Prepared(items) && forall k | 0 <= k < |schedulers| :: fresh(schedulers[k])
    {
      assert items[..0] == [];
      for i := 0 to |items|
        invariant Prepared(items[..i]) && forall k | 0 <= k < |schedulers| :: fresh(schedulers[k])
      {
        assert items[..i + 1] == items[..i] + [items[i]];
        Schedule(items[i], items[..i]);
      }
      assert items[..|items|] == items;
    }

    /** The items have been handed to the schedulers of their targets. */
    ghost predicate Prepared(items: seq<Job>)
      reads this, schedulers
    {
      Named(schedulers, TargetsOf(items)) && AllHold(schedulers, 0, items)
    }

    /** Hand an item to the scheduler of its target. */
    method Schedule(item: Job, ghost earlier: seq<Job>)
      requires Prepared(earlier) && item !in earlier
      modifies this, schedulers
      ensures Prepared(earlier + [item])
      ensures forall k | 0 <= k < |schedulers| ::
        (k < |old(schedulers)| && schedulers[k] == old(schedulers)[k]) || fresh(schedulers[k])
    {
      TargetsOfMore(earlier, item);
      TargetsDistinct(earlier + [item]);
      var k := SchedulerFor(item.target, earlier);
      OnlyOne(schedulers, TargetsOf(earlier + [item]), k);
      Enqueue(k, item, earlier);
    }

    /** The place of the target's scheduler, which is set up when there is none. */
    method SchedulerFor(target: string, ghost earlier: seq<Job>) returns (k: nat)
      requires Named(schedulers, TargetsOf(earlier)) && AllHold(schedulers, 0, earlier)
      modifies this
      ensures Named(schedulers, TargetsOf(earlier) + if target in TargetsOf(earlier) then [] else [target])
      ensures AllHold(schedulers, 0, earlier) && Grown(old(schedulers), schedulers)
      ensures |schedulers| > |old(schedulers)| ==> fresh(schedulers[|old(schedulers)|])
      ensures k < |schedulers| && schedulers[k].name == target
    {
      k := Find(target);
      if k < |schedulers| {
        assert schedulers[k].name == TargetsOf(earlier)[k];
        assert TargetsOf(earlier) + [] == TargetsOf(earlier);
        return;
      }
      NotNamed(schedulers, TargetsOf(earlier), target);
      NoItems(earlier, target);
      Open(target, earlier);
      NamedMore(old(schedulers), schedulers, TargetsOf(earlier), target);
    }

    method Open(target: string, ghost earlier: seq<Job>)
      requires AllHold(schedulers, 0, earlier) && ItemsOf(earlier, target) == []
      modifies this
      ensures AllHold(schedulers, 0, earlier)
      ensures |schedulers| == |old(schedulers)| + 1 && Grown(old(schedulers), schedulers)
      ensures schedulers[|old(schedulers)|].name == target && fresh(schedulers[|old(schedulers)|])
    {
      var scheduler := new TargetScheduler(target, timing);
      schedulers := schedulers + [scheduler];
      forall i | 0 <= i < |old(schedulers)|
        ensures Holds(schedulers[i], ItemsOf(earlier, schedulers[i].name))
      {
        assert old(Holds(schedulers[i], ItemsOf(earlier, schedulers[i].name)));
      }
    }

    method Enqueue(k: nat, item: Job, ghost earlier: seq<Job>)
      requires k < |schedulers| && schedulers[k].name == item.target && item !in earlier
      requires AllHold(schedulers, 0, earlier)
      requires forall i | 0 <= i < |schedulers| && i != k :: schedulers[i].name != item.target
      modifies schedulers[k]
      ensures AllHold(schedulers, 0, earlier + [item])
    {
      HeldJobs(schedulers[k], ItemsOf(earlier, item.target));
      ItemsOfTarget(earlier, item.target);
      schedulers[k].AddItem(item);
      ItemsOfMore(earlier, item, item.target);
      forall i | 0 <= i < |schedulers| && i != k
        ensures Holds(schedulers[i], ItemsOf(earlier + [item], schedulers[i].name))
      {
        ItemsOfMore(earlier, item, schedulers[i].name);
        assert old(Holds(schedulers[i], ItemsOf(earlier, schedulers[i].name)));
      }
    }

    /** The place of the target's scheduler, past the end when there is none. */
    method Find(target: string) returns (k: nat)
      ensures k <= |schedulers| && (k < |schedulers| ==> schedulers[k].name == target)
      ensures forall i | 0 <= i < k :: schedulers[i].name != target
    {
      k := 0;
      while k < |schedulers| && schedulers[k].name != target
        invariant k <= |schedulers| && forall i | 0 <= i < k :: schedulers[i].name != target
      {
        k := k + 1;
      }
    }

    /**
     Run the targets one after the other, collecting their results. Unless
     interrupted, every item ends at the verdict its dependencies' results call for.
     */
    method Run(maxParallel: nat, slotLimit: nat, interrupts: Interrupts) returns (finished: bool, results: Results)
      requires Prepared(items) && Ordered(items)
      requires maxParallel > 0 && slotLimit > 0
      modifies schedulers
      ensures finished ==> Solution(items, results)
      ensures (forall t, k :: !interrupts(t, k)) ==> finished
    {
      results := map[];
      TargetsDistinct(items);
      for i := 0 to |schedulers|
        invariant AllHold(schedulers, i, items)
        invariant Solved(items, TargetsOf(items)[..i], results)
      {
        finished, results := RunTarget(i, results, maxParallel, slotLimit, interrupts);
        if !finished {
          return;
        }
      }
      finished := true;
      AllSolved(items, results);
    }

    /** Run one target and add its results to those of the earlier ones. */
    method RunTarget(i: nat, oldResults: Results, maxParallel: nat, slotLimit: nat, interrupts: Interrupts)
      returns (finished: bool, results: Results)
      requires Named(schedulers, TargetsOf(items)) && Distinct(TargetsOf(items)) && Ordered(items)
      requires i < |schedulers| && AllHold(schedulers, i, items) && Solved(items, TargetsOf(items)[..i], oldResults)
      requires maxParallel > 0 && slotLimit > 0
      modifies schedulers[i]
      ensures AllHold(schedulers, i + 1, items)
      ensures finished ==> Solved(items, TargetsOf(items)[..i + 1], results)
      ensures (forall t, k :: !interrupts(t, k)) ==> finished
    {
      ghost var target := TargetsOf(items)[i];
      HeldJobs(schedulers[i], ItemsOf(items, target));
      DependenciesDone(items, i, oldResults);
      OnlyOne(schedulers, TargetsOf(items), i);
      ghost var trace;
      finished, trace := schedulers[i].Run(oldResults, maxParallel, slotLimit, interrupts);
      if finished {
        TargetSolved(items, i, oldResults, schedulers[i].itemToStatus);
      }
      results := oldResults + schedulers[i].itemToStatus;
      forall k | i + 1 <= k < |schedulers|
        ensures Holds(schedulers[k], ItemsOf(items, schedulers[k].name))
      {
        assert old(Holds(schedulers[k], ItemsOf(items, schedulers[k].name)));
      }
    }
  }
}
