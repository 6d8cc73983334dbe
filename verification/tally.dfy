/**
 * What the counters of a run imply: a username never has more commits than
 * actions attributed to it, the counters add up to the number of commits,
 * rotation over distinct usernames is fair, and passing the threshold needs
 * enough real commits for every username.
 */
module Tally {
  import opened Accounts
  import opened Driver
  import opened Schedule

  lemma {:induction false} CommitsAtMostAttributed(events: seq<Event>, u: string)
    ensures CommitsBy(events, u) <= AttributedTo(events, u)
  {
    if |events| > 0 {
      CommitsAtMostAttributed(events[..|events| - 1], u);
    }
  }

  /** With distinct usernames, the actions attributed to pool position `i`
      are exactly its round-robin selections. */
  lemma {:induction false} AttributionIsRotation(events: seq<Event>, pool: seq<Account>, i: nat)
    requires |pool| > 0 && i < |pool|
    requires Distinct(Usernames(pool))
    requires forall j :: 0 <= j < |events| ==> events[j].author == pool[j % |pool|]
    ensures AttributedTo(events, pool[i].username) == Selections(|pool|, i, |events|)
  {
    if |events| > 0 {
      var k := |events| - 1;
      AttributionIsRotation(events[..k], pool, i);
      var m := k % |pool|;
      assert events[k].author == pool[m];
      assert Usernames(pool)[m] == pool[m].username && Usernames(pool)[i] == pool[i].username;
      assert pool[m].username == pool[i].username <==> m == i;
    }
  }

  /** The counters of the usernames in `order`, added up. */
  function SumCounts(order: seq<string>, events: seq<Event>): nat {
    if |order| == 0 then 0 else CommitsBy(events, order[0]) + SumCounts(order[1..], events)
  }

  /** One more event raises the sum by one exactly when it committed under a
      username listed once in `order`. */
  lemma {:induction false} SumCountsAppend(order: seq<string>, events: seq<Event>, e: Event)
    requires Distinct(order)
    ensures SumCounts(order, events + [e]) ==
      SumCounts(order, events) + (if e.committed && e.author.username in order then 1 else 0)
  {
    AppendEvent(events, e);
    if |order| > 0 {
      assert Distinct(order[1..]);
      SumCountsAppend(order[1..], events, e);
      assert e.author.username in order <==> e.author.username == order[0] || e.author.username in order[1..];
      assert e.author.username == order[0] ==> e.author.username !in order[1..];
    }
  }

  /** The counters sum to the number of commits when every author's username
      is counted once. */
  lemma {:induction false} CountersSumToCommits(order: seq<string>, events: seq<Event>)
    requires Distinct(order)
    requires forall j :: 0 <= j < |events| ==> events[j].author.username in order
    ensures SumCounts(order, events) == CommitCount(events)
  {
    if |events| == 0 {
      ZeroCounts(order, events);
    } else {
      var k := |events| - 1;
      assert events == events[..k] + [events[k]];
      CountersSumToCommits(order, events[..k]);
      SumCountsAppend(order, events[..k], events[k]);
      AppendEvent(events[..k], events[k]);
    }
  }

  lemma {:induction false} ZeroCounts(order: seq<string>, events: seq<Event>)
    requires |events| == 0
    ensures SumCounts(order, events) == 0
  {
    if |order| > 0 {
      ZeroCounts(order[1..], events);
    }
  }

  lemma {:induction false} CommitCountAtMostEvents(events: seq<Event>)
    ensures CommitCount(events) <= |events|
  {
    if |events| > 0 {
      CommitCountAtMostEvents(events[..|events| - 1]);
    }
  }

  /** Every username in `order` above `threshold` puts at least
      `|order| * (threshold + 1)` into the sum. */
  lemma {:induction false} SumAboveThreshold(order: seq<string>, events: seq<Event>, threshold: nat)
    requires forall i :: 0 <= i < |order| ==> CommitsBy(events, order[i]) > threshold
    ensures SumCounts(order, events) >= |order| * (threshold + 1)
  {
    if |order| > 0 {
      SumAboveThreshold(order[1..], events, threshold);
      assert |order| * (threshold + 1) == (|order| - 1) * (threshold + 1) + (threshold + 1);
    }
  }

  /** A run that passes the threshold made at least `threshold + 1` commits
      for each distinct username, and no more commits than actions. */
  lemma PassingRunNeedsCommits(pool: seq<Account>, events: seq<Event>, counts: map<string, nat>)
    requires |pool| > 0
    requires forall j :: 0 <= j < |events| ==> events[j].author == pool[j % |pool|]
    requires forall u :: u in counts ==> counts[u] == CommitsBy(events, u)
    requires forall i :: 0 <= i < |pool| ==> pool[i].username in counts && counts[pool[i].username] > Threshold
    ensures |Dedup(Usernames(pool))| * (Threshold + 1) <= CommitCount(events) <= |events|
  {
    var order := Dedup(Usernames(pool));
    forall j | 0 <= j < |events|
      ensures events[j].author.username in order
    {
      assert Usernames(pool)[j % |pool|] == events[j].author.username;
    }
    forall i | 0 <= i < |order|
      ensures CommitsBy(events, order[i]) > Threshold
    {
      assert order[i] in Usernames(pool);
      var p :| 0 <= p < |pool| && Usernames(pool)[p] == order[i];
    }
    CountersSumToCommits(order, events);
    SumAboveThreshold(order, events, Threshold);
    CommitCountAtMostEvents(events);
  }

  /** Day numbers counted from 2024-01-01 (day 0) of the four phase windows
      in `main`, with the number of actions each phase defines. */
  const SourceWindows: seq<(int, int)> := [(31, 90), (91, 212), (213, 273), (274, 304)]
  const SourceActionCounts: seq<nat> := [12, 44, 16, 13]

  predicate IsSourcePlan(phases: seq<Phase>) {
    && |phases| == 4
    && forall p :: 0 <= p < 4 ==>
      && (phases[p].startDay, phases[p].endDay) == SourceWindows[p]
      && |phases[p].actions| == SourceActionCounts[p]
  }

  /** The source's plan has 85 actions, so with more than 13 commits needed
      per username a run can pass with at most six distinct usernames. */
  lemma SourcePlanAllowsAtMostSixUsers(phases: seq<Phase>, pool: seq<Account>, events: seq<Event>, counts: map<string, nat>)
    requires IsSourcePlan(phases)
    requires |events| == TotalActions(phases)
    requires |pool| > 0
    requires forall j :: 0 <= j < |events| ==> events[j].author == pool[j % |pool|]
    requires forall u :: u in counts ==> counts[u] == CommitsBy(events, u)
    requires forall i :: 0 <= i < |pool| ==> pool[i].username in counts && counts[pool[i].username] > Threshold
    ensures |events| == 85
    ensures |Dedup(Usernames(pool))| <= 6
  {
    var l := ActionLists(phases);
    assert l[..4] == l;
    assert l[..4][..3] == l[..3] && l[..3][..2] == l[..2] && l[..2][..1] == l[..1] && l[..1][..0] == [];
    assert Len(l[..1]) == 12;
    assert Len(l[..2]) == 12 + 44;
    assert Len(l[..3]) == 12 + 44 + 16;
    assert TotalActions(phases) == 85;
    PassingRunNeedsCommits(pool, events, counts);
  }

  /** In every window of the source's plan the last slot still ends before
      the window does, so no slot is ever clamped and the dates come out in
      the order they were generated. */
  lemma SourceWindowsNeverClamp(p: nat, js: seq<Jitter>)
    requires p < 4
    requires |js| == SourceActionCounts[p] && AllValid(js)
    ensures forall i :: 0 <= i < |js| ==>
      RawSlot(SourceWindows[p].0, SourceWindows[p].1, |js|, js, i) <= Midnight(SourceWindows[p].1)
    ensures DatesBetween(SourceWindows[p].0, SourceWindows[p].1, |js|, js)
      == Unsorted(SourceWindows[p].0, SourceWindows[p].1, |js|, js)
  {
    var (start, end) := SourceWindows[p];
    var count := |js|;
    var step := StepDays(end - start, count);
    assert step == [4, 2, 3, 2][p];
    forall i | 0 <= i < count
      ensures RawSlot(start, end, count, js, i) <= Midnight(end)
    {
      assert i * (step * MinutesPerDay) <= (count - 1) * (step * MinutesPerDay);
    }
    NoClampKeepsGeneratedOrder(start, end, count, js);
  }
}
