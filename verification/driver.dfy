/**
 * The orchestration in `main`: compute every phase's dates, then walk the
 * actions of all phases in order, applying each mutator, attributing it
 * round-robin, committing only real changes and counting commits per
 * username; finally require more than `Threshold` commits per username.
 */
module Driver {
  import opened Wrappers
  import opened Schedule
  import opened Repository
  import opened Accounts

  datatype Action = Action(message: string, mutation: Mutation)

  /** A time window given by its first and last day, and its actions in order. */
  datatype Phase = Phase(startDay: int, endDay: int, actions: seq<Action>)

  /** An action with the timestamp the scheduler gave it. */
  datatype Scheduled = Scheduled(action: Action, when: int)

  /** What became of one action: who it was attributed to, when, and whether
      it produced a commit. */
  datatype Event = Event(message: string, author: Account, when: int, committed: bool)

  datatype Abort =
    | PoolTooSmall
    | MissingFile(path: Path)
    | TooFewCommits(user: string, count: nat)

  /** The run's final repository, the events of the actions that ran, the
      counters, and why the run stopped early, if it did. */
  datatype Report = Report(repo: Repo, events: seq<Event>, counts: map<string, nat>, abort: Option<Abort>)

  /** One draw triple per action of every phase. */
  predicate JitterFits(phases: seq<Phase>, jitters: seq<seq<Jitter>>) {
    && |jitters| == |phases|
    && forall p :: 0 <= p < |phases| ==> |jitters[p]| == |phases[p].actions| && AllValid(jitters[p])
  }

  /** One phase's actions paired, in order, with `dates_between` of its window. */
  function PhaseSchedule(ph: Phase, js: seq<Jitter>): (r: seq<Scheduled>)
    requires |js| == |ph.actions| && AllValid(js)
    ensures |r| == |ph.actions|
    ensures forall i :: 0 <= i < |r| ==> r[i].action == ph.actions[i]
    ensures forall i :: 0 <= i < |r| ==> r[i].when == DatesBetween(ph.startDay, ph.endDay, |ph.actions|, js)[i]
  {
    var dates := DatesBetween(ph.startDay, ph.endDay, |ph.actions|, js);
    seq(|ph.actions|, i requires 0 <= i < |ph.actions| => Scheduled(ph.actions[i], dates[i]))
  }

  /** A phase keeps its actions in order; their dates ascend, none is after
      the window's end, and all are after its start when the window is at
      least a day long. */
  lemma PhaseScheduleInWindow(ph: Phase, js: seq<Jitter>)
    requires |js| == |ph.actions| && AllValid(js)
    ensures var r := PhaseSchedule(ph, js);
      && (forall i :: 0 <= i < |r| ==> r[i].action == ph.actions[i])
      && (forall i :: 0 <= i < |r| ==> r[i].when <= Midnight(ph.endDay))
      && (ph.endDay >= ph.startDay + 1 ==> forall i :: 0 <= i < |r| ==> Midnight(ph.startDay) < r[i].when)
      && (forall i, j :: 0 <= i < j < |r| ==> r[i].when <= r[j].when)
  {
    var dates := DatesBetween(ph.startDay, ph.endDay, |ph.actions|, js);
    var r := PhaseSchedule(ph, js);
    assert forall i :: 0 <= i < |r| ==> r[i] == Scheduled(ph.actions[i], dates[i]);
  }

  /** The combined length of a sequence of sequences. */
  function Len<T>(xs: seq<seq<T>>): nat {
    if |xs| == 0 then 0 else Len(xs[..|xs| - 1]) + |xs[|xs| - 1]|
  }

  /** The sequences of `xs` one after the other. */
  function Flatten<T>(xs: seq<seq<T>>): (r: seq<T>)
    ensures |r| == Len(xs)
  {
    if |xs| == 0 then [] else Flatten(xs[..|xs| - 1]) + xs[|xs| - 1]
  }

  /** Element `c` of part `p` sits after all earlier parts. */
  lemma {:induction false} FlattenIndex<T>(xs: seq<seq<T>>, p: int, c: int)
    requires 0 <= p < |xs| && 0 <= c < |xs[p]|
    ensures Len(xs[..p]) + c < |Flatten(xs)|
    ensures Flatten(xs)[Len(xs[..p]) + c] == xs[p][c]
  {
    var n := |xs| - 1;
    var pre, last := Flatten(xs[..n]), xs[n];
    assert Flatten(xs) == pre + last;
    if p == n {
      assert (pre + last)[|pre| + c] == last[c];
    } else {
      assert xs[..n][..p] == xs[..p] && xs[..n][p] == xs[p];
      FlattenIndex(xs[..n], p, c);
      assert (pre + last)[Len(xs[..p]) + c] == pre[Len(xs[..p]) + c];
    }
  }

  /** Sequences of sequences with the same part lengths have the same length. */
  lemma {:induction false} LenSameShape<S, T>(xs: seq<seq<S>>, ys: seq<seq<T>>)
    requires |xs| == |ys| && forall i :: 0 <= i < |xs| ==> |xs[i]| == |ys[i]|
    ensures Len(xs) == Len(ys)
  {
    if |xs| > 0 {
      LenSameShape(xs[..|xs| - 1], ys[..|ys| - 1]);
    }
  }

  function ActionLists(phases: seq<Phase>): (r: seq<seq<Action>>)
    ensures |r| == |phases| && forall p :: 0 <= p < |phases| ==> r[p] == phases[p].actions
  {
    seq(|phases|, p requires 0 <= p < |phases| => phases[p].actions)
  }

  function TotalActions(phases: seq<Phase>): nat {
    Len(ActionLists(phases))
  }

  function PhaseSchedules(phases: seq<Phase>, jitters: seq<seq<Jitter>>): (r: seq<seq<Scheduled>>)
    requires JitterFits(phases, jitters)
    ensures |r| == |phases| && forall p :: 0 <= p < |phases| ==> r[p] == PhaseSchedule(phases[p], jitters[p])
  {
    seq(|phases|, p requires 0 <= p < |phases| => PhaseSchedule(phases[p], jitters[p]))
  }

  /** All phases' scheduled actions, phase after phase: the order of the
      nested loop in `main`. */
  function RunSchedule(phases: seq<Phase>, jitters: seq<seq<Jitter>>): (r: seq<Scheduled>)
    requires JitterFits(phases, jitters)
    ensures |r| == TotalActions(phases)
  {
    LenSameShape(PhaseSchedules(phases, jitters), ActionLists(phases));
    Flatten(PhaseSchedules(phases, jitters))
  }

  /** The schedules of the first `p` phases hold as many entries as those
      phases have actions. */
  lemma ScheduledBefore(phases: seq<Phase>, jitters: seq<seq<Jitter>>, p: int)
    requires JitterFits(phases, jitters) && 0 <= p <= |phases|
    ensures Len(PhaseSchedules(phases, jitters)[..p]) == TotalActions(phases[..p])
  {
    var xs := PhaseSchedules(phases, jitters)[..p];
    var ls := ActionLists(phases[..p]);
    forall i | 0 <= i < p
      ensures |xs[i]| == |ls[i]|
    {
      assert xs[i] == PhaseSchedule(phases[i], jitters[i]);
      assert ls[i] == phases[i].actions;
    }
    LenSameShape(xs, ls);
  }

  /** Action `c` of phase `p` sits at position `TotalActions(phases[..p]) + c`
      of the run and carries its phase's `c`-th date. */
  lemma RunScheduleIndex(phases: seq<Phase>, jitters: seq<seq<Jitter>>, p: int, c: int)
    requires JitterFits(phases, jitters)
    requires 0 <= p < |phases| && 0 <= c < |phases[p].actions|
    ensures TotalActions(phases[..p]) + c < |RunSchedule(phases, jitters)|
    ensures RunSchedule(phases, jitters)[TotalActions(phases[..p]) + c] == PhaseSchedule(phases[p], jitters[p])[c]
  {
    var xs := PhaseSchedules(phases, jitters);
    ScheduledBefore(phases, jitters, p);
    FlattenIndex(xs, p, c);
    assert xs[p] == PhaseSchedule(phases[p], jitters[p]);
    assert RunSchedule(phases, jitters) == Flatten(xs);
  }

  /** Commits attributed to username `u`. */
  function CommitsBy(events: seq<Event>, u: string): nat {
    if |events| == 0 then 0
    else
      var last := events[|events| - 1];
      CommitsBy(events[..|events| - 1], u) + (if last.committed && last.author.username == u then 1 else 0)
  }

  /** Actions attributed to username `u`, committed or not. */
  function AttributedTo(events: seq<Event>, u: string): nat {
    if |events| == 0 then 0
    else
      var last := events[|events| - 1];
      AttributedTo(events[..|events| - 1], u) + (if last.author.username == u then 1 else 0)
  }

  /** Events that produced a commit. */
  function CommitCount(events: seq<Event>): nat {
    if |events| == 0 then 0
    else CommitCount(events[..|events| - 1]) + (if events[|events| - 1].committed then 1 else 0)
  }

  /** What a commit records besides its snapshot: message, author and date. */
  function Stamp(c: Commit): (string, Identity, int) {
    (c.message, c.author, c.authorDate)
  }

  function Stamps(log: seq<Commit>): (r: seq<(string, Identity, int)>)
    ensures |r| == |log| && forall i :: 0 <= i < |log| ==> r[i] == Stamp(log[i])
  {
    seq(|log|, i requires 0 <= i < |log| => Stamp(log[i]))
  }

  /** The message, author and date of every committed event, in order. */
  function Logged(events: seq<Event>): seq<(string, Identity, int)> {
    if |events| == 0 then []
    else
      var last := events[|events| - 1];
      Logged(events[..|events| - 1]) + (if last.committed then [(last.message, AsIdentity(last.author), last.when)] else [])
  }

  /** The mutable state of the loop in `main`. */
  datatype State = State(repo: Repo, authorIndex: nat, counts: map<string, nat>, events: seq<Event>)

  function AsIdentity(a: Account): Identity {
    Identity(a.username, a.email)
  }

  /** One iteration of the loop in `main`: run the mutator, take the next
      author in rotation, try to commit at the scheduled time and count the
      commit if there was one. A mutator that fails stops the run. */
  function Step(st: State, pool: seq<Account>, item: Scheduled): (r: Result<State, Path>)
    requires |pool| > 0
    requires forall i :: 0 <= i < |pool| ==> pool[i].username in st.counts
    ensures r.Failure? <==> Apply(st.repo.work, item.action.mutation).Failure?
    ensures r.Success? ==>
      var t := Apply(st.repo.work, item.action.mutation).value;
      var author := pool[st.authorIndex % |pool|];
      var s := r.value;
      var committed := t != st.repo.head;
      && s.authorIndex == st.authorIndex + 1
      && s.events == st.events + [Event(item.action.message, author, item.when, committed)]
      && s.counts.Keys == st.counts.Keys
      && s.counts[author.username] == st.counts[author.username] + (if committed then 1 else 0)
      && (forall u :: u in st.counts && u != author.username ==> s.counts[u] == st.counts[u])
      && s.repo.work == t && s.repo.head == t
      && |s.repo.log| == |st.repo.log| + (if committed then 1 else 0)
      && s.repo.log[..|st.repo.log|] == st.repo.log
      && (committed ==> s.repo.log[|st.repo.log|] == Commit(item.action.message, AsIdentity(author), item.when, item.when, t))
      && (!committed ==> s.repo.log == st.repo.log)
  {
    match Apply(st.repo.work, item.action.mutation)
    case Failure(p) => Failure(p)
    case Success(t) =>
      var author := pool[st.authorIndex % |pool|];
      var (repo, committed) := CommitAll(st.repo.(work := t), item.action.message, item.when, AsIdentity(author));
      var counts := if committed then st.counts[author.username := st.counts[author.username] + 1] else st.counts;
      Success(State(repo, st.authorIndex + 1, counts, st.events + [Event(item.action.message, author, item.when, committed)]))
  }

  /** The loop of `main` over `items` as one function: the state after
      every action, or the path of the first mutator that failed. */
  function Replay(st: State, pool: seq<Account>, items: seq<Scheduled>): (r: Result<State, Path>)
    requires |pool| > 0
    requires forall i :: 0 <= i < |pool| ==> pool[i].username in st.counts
    ensures r.Success? ==> r.value.counts.Keys == st.counts.Keys
    decreases |items|
  {
    if items == [] then Success(st)
    else match Step(st, pool, items[0])
      case Failure(p) => Failure(p)
      case Success(s) => Replay(s, pool, items[1..])
  }

  /** Replaying the actions from position `k` on is one step followed by
      replaying the rest, or the failure of that step. */
  lemma ReplayFrom(st: State, pool: seq<Account>, sched: seq<Scheduled>, k: nat)
    requires |pool| > 0
    requires forall i :: 0 <= i < |pool| ==> pool[i].username in st.counts
    requires k < |sched|
    ensures Step(st, pool, sched[k]).Failure? ==>
      Replay(st, pool, sched[k..]) == Failure(Step(st, pool, sched[k]).error)
    ensures Step(st, pool, sched[k]).Success? ==>
      Replay(st, pool, sched[k..]) == Replay(Step(st, pool, sched[k]).value, pool, sched[k + 1..])
  {
    assert sched[k..][0] == sched[k] && sched[k..][1..] == sched[k + 1..];
  }

  /** Replaying a list extended by one action is replaying the list, then
      one more iteration. */
  lemma {:induction false} ReplaySnoc(st: State, pool: seq<Account>, items: seq<Scheduled>, x: Scheduled)
    requires |pool| > 0
    requires forall i :: 0 <= i < |pool| ==> pool[i].username in st.counts
    ensures Replay(st, pool, items).Failure? ==> Replay(st, pool, items + [x]) == Failure(Replay(st, pool, items).error)
    ensures Replay(st, pool, items).Success? ==> Replay(st, pool, items + [x]) == Step(Replay(st, pool, items).value, pool, x)
    decreases |items|
  {
    if items == [] {
      assert [x][1..] == [];
      assert (items + [x])[0] == x;
    } else {
      assert (items + [x])[0] == items[0];
      assert (items + [x])[1..] == items[1..] + [x];
      match Step(st, pool, items[0])
      case Failure(_) =>
      case Success(s) => ReplaySnoc(s, pool, items[1..], x);
    }
  }

  /** If the first `k` actions replay to `st`, the first `k + 1` replay to
      what one more iteration on action `k` gives. */
  lemma ReplayPrefixStep(init: State, pool: seq<Account>, sched: seq<Scheduled>, st: State)
    requires |pool| > 0
    requires forall i :: 0 <= i < |pool| ==> pool[i].username in init.counts
    requires |st.events| < |sched|
    requires Replay(init, pool, sched[..|st.events|]) == Success(st)
    ensures Replay(init, pool, sched[..|st.events| + 1]) == Step(st, pool, sched[|st.events|])
  {
    var k := |st.events|;
    ReplaySnoc(init, pool, sched[..k], sched[k]);
    assert sched[..k + 1] == sched[..k] + [sched[k]];
  }

  /** The state the loop starts from: every username of the pool counted 0. */
  function Initial(pool: seq<Account>, repo: Repo): (st: State)
    ensures st.repo == repo && st.authorIndex == 0 && st.events == []
    ensures st.counts.Keys == UsernameSet(pool) && forall u :: u in st.counts ==> st.counts[u] == 0
  {
    State(repo, 0, map u | u in UsernameSet(pool) :: 0, [])
  }

  /** The set of usernames in the pool: the keys of the counter dictionary. */
  function UsernameSet(pool: seq<Account>): (r: set<string>)
    ensures forall i :: 0 <= i < |pool| ==> pool[i].username in r
    ensures forall u :: u in r ==> u in Usernames(pool)
  {
    set u | u in Usernames(pool)
  }

  /** Appending one event moves each count by that event alone. */
  lemma AppendEvent(events: seq<Event>, e: Event)
    ensures CommitCount(events + [e]) == CommitCount(events) + (if e.committed then 1 else 0)
    ensures forall u :: CommitsBy(events + [e], u) == CommitsBy(events, u) + (if e.committed && e.author.username == u then 1 else 0)
    ensures forall u :: AttributedTo(events + [e], u) == AttributedTo(events, u) + (if e.author.username == u then 1 else 0)
  {
    assert (events + [e])[..|events|] == events;
  }

  /** Action `j` went to `pool[j % |pool|]` with its scheduled time and message. */
  predicate Attributed(events: seq<Event>, pool: seq<Account>, sched: seq<Scheduled>)
    requires |pool| > 0 && |events| <= |sched|
  {
    forall j :: 0 <= j < |events| ==>
      && events[j].author == pool[j % |pool|]
      && events[j].when == sched[j].when
      && events[j].message == sched[j].action.message
  }

  /** Every counter holds the commits of its username. */
  predicate Counted(counts: map<string, nat>, events: seq<Event>) {
    forall u :: u in counts ==> counts[u] == CommitsBy(events, u)
  }

  /** What the loop of `main` maintains after the first `|st.events|`
      scheduled actions: the author index counts the actions, each action
      went to the account its index selects, every counter holds its
      username's commits, and the new commits are exactly the committed events. */
  predicate Tracks(st: State, pool: seq<Account>, sched: seq<Scheduled>, repo0: Repo) {
    && |pool| > 0
    && st.authorIndex == |st.events| <= |sched|
    && Attributed(st.events, pool, sched)
    && st.counts.Keys == UsernameSet(pool)
    && Counted(st.counts, st.events)
    && |st.repo.log| == |repo0.log| + CommitCount(st.events)
    && Stamps(st.repo.log) == Stamps(repo0.log) + Logged(st.events)
    && (Consistent(repo0) ==> Consistent(st.repo))
  }

  /** One iteration appends to the log exactly the commit its event
      records, and keeps the log consistent. */
  lemma StepRepo(st: State, pool: seq<Account>, item: Scheduled, repo0: Repo)
    requires |pool| > 0 && forall i :: 0 <= i < |pool| ==> pool[i].username in st.counts
    requires |st.repo.log| == |repo0.log| + CommitCount(st.events)
    requires Stamps(st.repo.log) == Stamps(repo0.log) + Logged(st.events)
    requires Consistent(repo0) ==> Consistent(st.repo)
    requires Step(st, pool, item).Success?
    ensures var next := Step(st, pool, item).value;
      && |next.repo.log| == |repo0.log| + CommitCount(next.events)
      && Stamps(next.repo.log) == Stamps(repo0.log) + Logged(next.events)
      && (Consistent(repo0) ==> Consistent(next.repo))
  {
    var next := Step(st, pool, item).value;
    var e := next.events[|st.events|];
    assert next.events == st.events + [e];
    assert next.events[..|next.events| - 1] == st.events;
    AppendEvent(st.events, e);
    if e.committed {
      assert next.repo.log == st.repo.log + [next.repo.log[|st.repo.log|]];
      assert Stamps(next.repo.log) == Stamps(st.repo.log) + [Stamp(next.repo.log[|st.repo.log|])];
    }
    if Consistent(repo0) {
      var t := Apply(st.repo.work, item.action.mutation).value;
      CommitAllKeepsConsistent(st.repo.(work := t), item.action.message, item.when, AsIdentity(e.author));
    }
  }

  lemma StepAttributes(st: State, pool: seq<Account>, sched: seq<Scheduled>, next: State)
    requires |pool| > 0 && st.authorIndex == |st.events| < |sched|
    requires Attributed(st.events, pool, sched)
    requires |next.events| == |st.events| + 1 && next.events[..|st.events|] == st.events
    requires next.events[|st.events|].author == pool[|st.events| % |pool|]
    requires next.events[|st.events|].when == sched[|st.events|].when
    requires next.events[|st.events|].message == sched[|st.events|].action.message
    ensures Attributed(next.events, pool, sched)
  {
    forall j | 0 <= j < |st.events|
      ensures next.events[j] == st.events[j]
    {
      assert next.events[..|st.events|][j] == next.events[j];
    }
  }

  lemma StepCounts(st: State, next: State, e: Event)
    requires Counted(st.counts, st.events) && e.author.username in st.counts
    requires next.events == st.events + [e]
    requires next.counts.Keys == st.counts.Keys
    requires next.counts[e.author.username] == st.counts[e.author.username] + (if e.committed then 1 else 0)
    requires forall u :: u in st.counts && u != e.author.username ==> next.counts[u] == st.counts[u]
    ensures Counted(next.counts, next.events)
  {
    AppendEvent(st.events, e);
  }

  lemma StepTracks(st: State, pool: seq<Account>, sched: seq<Scheduled>, repo0: Repo)
    requires Tracks(st, pool, sched, repo0) && |st.events| < |sched|
    requires Step(st, pool, sched[|st.events|]).Success?
    ensures Tracks(Step(st, pool, sched[|st.events|]).value, pool, sched, repo0)
  {
    var k := |st.events|;
    var next := Step(st, pool, sched[k]).value;
    var e := next.events[k];
    assert next.events == st.events + [e];
    StepAttributes(st, pool, sched, next);
    StepCounts(st, next, e);
    StepRepo(st, pool, sched[k], repo0);
  }

  /** The repository after `ensure_initial_gitignore`. */
  function Prepared(repo0: Repo, defaultGitignore: string): (r: Repo)
    ensures r.head == repo0.head && r.log == repo0.log && r.user == repo0.user
    ensures r.work == EnsureGitignore(repo0.work, defaultGitignore)
  {
    repo0.(work := EnsureGitignore(repo0.work, defaultGitignore))
  }

  /** `rep` is the loop of `main` replayed over `sched` from `repo`: a
      missing file stops the run exactly where the replay fails, with the
      mutator at that position failing on that path, and otherwise the
      report holds the state the replay ends in. */
  predicate ReplayedAs(pool: seq<Account>, sched: seq<Scheduled>, repo: Repo, rep: Report)
    requires |pool| > 0
  {
    var outcome := Replay(Initial(pool, repo), pool, sched);
    && (outcome.Success? <==> !(rep.abort.Some? && rep.abort.value.MissingFile?))
    && (outcome.Success? ==> outcome.value == State(rep.repo, |rep.events|, rep.counts, rep.events))
    && (outcome.Failure? ==>
          && rep.abort == Some(MissingFile(outcome.error))
          && |rep.events| < |sched|
          && Replay(Initial(pool, repo), pool, sched[..|rep.events|]) == Success(State(rep.repo, |rep.events|, rep.counts, rep.events))
          && Apply(rep.repo.work, sched[|rep.events|].action.mutation) == Failure(outcome.error))
  }

  /** What the loop and the threshold check of `main` leave in `rep` after
      running `sched` from `repo` (the prepared repository; `repo0` is the
      one before preparation): the replay of the loop, round-robin
      attribution, counters equal to commits per username, one new commit
      per committed event, and a verdict that is either "every username has
      more than `Threshold` commits" or the first violation in counter order. */
  predicate Reported(pool: seq<Account>, sched: seq<Scheduled>, repo0: Repo, repo: Repo, rep: Report)
    requires |pool| > 0
  {
    && ReplayedAs(pool, sched, repo, rep)
    && rep.abort != Some(PoolTooSmall)
    && |rep.events| <= |sched|
    && Attributed(rep.events, pool, sched)
    && rep.counts.Keys == UsernameSet(pool)
    && Counted(rep.counts, rep.events)
    && |rep.repo.log| == |repo0.log| + CommitCount(rep.events)
    && Stamps(rep.repo.log) == Stamps(repo0.log) + Logged(rep.events)
    && (Consistent(repo0) ==> Consistent(rep.repo))
    && (rep.abort.None? ==>
          |rep.events| == |sched| && forall i :: 0 <= i < |pool| ==> rep.counts[pool[i].username] > Threshold)
    && (rep.abort.Some? && rep.abort.value.TooFewCommits? ==>
          && |rep.events| == |sched|
          && FirstViolation(rep.counts, Dedup(Usernames(pool)), Threshold) == Violation(rep.abort.value.user, rep.abort.value.count))
  }

  /** `main` from `ensure_initial_gitignore` to the threshold check: a pool
      under two accounts stops the run before any action; otherwise the
      report is the loop and threshold check run over the flattened
      schedule from the prepared repository. */
  method Run(pool: seq<Account>, phases: seq<Phase>, jitters: seq<seq<Jitter>>, repo0: Repo, defaultGitignore: string)
    returns (rep: Report)
    requires JitterFits(phases, jitters)
    ensures rep.abort == Some(PoolTooSmall) <==> |pool| < MinPoolSize
    ensures |pool| < MinPoolSize ==> rep.events == [] && rep.repo == Prepared(repo0, defaultGitignore)
    ensures |pool| >= MinPoolSize ==>
      Reported(pool, RunSchedule(phases, jitters), repo0, Prepared(repo0, defaultGitignore), rep)
  {
    var repo := Prepared(repo0, defaultGitignore);
    if CheckPool(pool).Failure? {
      return Report(repo, [], map[], Some(PoolTooSmall));
    }
    rep := Finish(pool, RunSchedule(phases, jitters), repo0, repo);
  }

  /** The loop of `main` over the schedule, then the threshold check. */
  method Finish(pool: seq<Account>, sched: seq<Scheduled>, repo0: Repo, repo: Repo) returns (rep: Report)
    requires |pool| >= MinPoolSize
    requires repo.log == repo0.log && repo.head == repo0.head
    ensures Reported(pool, sched, repo0, repo, rep)
  {
    var st, missing := Orchestrate(pool, sched, repo0, repo);
    if missing.Some? {
      return Report(st.repo, st.events, st.counts, Some(MissingFile(missing.value)));
    }
    var order := Dedup(Usernames(pool));
    var verdict := FirstViolation(st.counts, order, Threshold);
    if verdict.Violation? {
      return Report(st.repo, st.events, st.counts, Some(TooFewCommits(verdict.user, verdict.count)));
    }
    forall i | 0 <= i < |pool|
      ensures st.counts[pool[i].username] > Threshold
    {
      assert Usernames(pool)[i] in order;
    }
    rep := Report(st.repo, st.events, st.counts, None);
  }

  /** The nested loop of `main` over the flattened schedule. It stops at the
      first mutator that fails and returns the state reached so far. */
  method Orchestrate(pool: seq<Account>, sched: seq<Scheduled>, repo0: Repo, repo: Repo)
    returns (st: State, missing: Option<Path>)
    requires |pool| >= MinPoolSize
    requires repo.log == repo0.log && repo.head == repo0.head
    ensures Tracks(st, pool, sched, repo0)
    ensures missing.None? <==> |st.events| == |sched|
    ensures Replay(Initial(pool, repo), pool, sched[..|st.events|]) == Success(st)
    ensures missing.None? ==> Replay(Initial(pool, repo), pool, sched) == Success(st)
    ensures missing.Some? ==>
      && Replay(Initial(pool, repo), pool, sched) == Failure(missing.value)
      && Apply(st.repo.work, sched[|st.events|].action.mutation) == Failure(missing.value)
  {
    st := Initial(pool, repo);
    assert sched[0..] == sched;
    assert sched[..0] == [];
    assert Stamps(repo.log) + Logged([]) == Stamps(repo0.log);
    while |st.events| < |sched|
      invariant Tracks(st, pool, sched, repo0)
      invariant Replay(Initial(pool, repo), pool, sched[..|st.events|]) == Success(st)
      invariant Replay(Initial(pool, repo), pool, sched) == Replay(st, pool, sched[|st.events|..])
      decreases |sched| - |st.events|
    {
      var r := Step(st, pool, sched[|st.events|]);
      ReplayFrom(st, pool, sched, |st.events|);
      if r.Failure? {
        return st, Some(r.error);
      }
      StepTracks(st, pool, sched, repo0);
      ReplayPrefixStep(Initial(pool, repo), pool, sched, st);
      st := r.value;
    }
    assert sched[|sched|..] == [] && sched[..|sched|] == sched;
    missing := None;
  }
}
