/**
 * Runs of the orchestration loop over a two-account pool: any number of
 * actions that each write a new file, and two actions where the second
 * reproduces the first's content.
 */
module Scenarios {
  import opened Wrappers
  import opened Repository
  import opened Accounts
  import opened Driver

  const Alice: Account := Account("alice", "alice@example.org", "token-a")
  const Bob: Account := Account("bob", "bob@example.org", "token-b")
  const Pair: seq<Account> := [Alice, Bob]

  function Start(): State {
    State(Repo(map[], map[], [], None), 0, map["alice" := 0, "bob" := 0], [])
  }

  function WriteAt(path: Path, text: string, when: int): Scheduled {
    Scheduled(Action("docs: add " + path, WriteFile(path, text)), when)
  }

  /** Writing a path HEAD does not have always commits, under the next
      author in rotation. */
  lemma FreshWriteCommits(st: State, item: Scheduled, s: State)
    requires "alice" in st.counts && "bob" in st.counts
    requires item.action.mutation.WriteFile? && item.action.mutation.path !in st.repo.head
    requires Step(st, Pair, item) == Success(s)
    ensures var author := Pair[st.authorIndex % 2];
      && s.authorIndex == st.authorIndex + 1
      && s.events == st.events + [Event(item.action.message, author, item.when, true)]
      && s.repo.head == s.repo.work == st.repo.work[item.action.mutation.path := item.action.mutation.content]
      && |s.repo.log| == |st.repo.log| + 1
      && s.counts == st.counts[author.username := st.counts[author.username] + 1]
  {
    var m := item.action.mutation;
    assert m.path in s.repo.work;
    assert s.counts.Keys == st.counts.Keys;
  }

  /** How many of the `n` rotation indices from `i` on select the account at
      position `r` of the two-account pool. */
  function Turns(i: nat, n: nat, r: nat): nat
    decreases n
  {
    if n == 0 then 0 else (if i % 2 == r then 1 else 0) + Turns(i + 1, n - 1, r)
  }

  lemma {:induction false} TurnsOfEvenSpan(i: nat, n: nat)
    requires n % 2 == 0
    ensures Turns(i, n, 0) == n / 2 && Turns(i, n, 1) == n / 2
    decreases n
  {
    if n > 0 {
      TurnsOfEvenSpan(i + 2, n - 2);
      assert Turns(i, n, 0) == (if i % 2 == 0 then 1 else 0) + (if (i + 1) % 2 == 0 then 1 else 0) + Turns(i + 2, n - 2, 0);
      assert Turns(i, n, 1) == (if i % 2 == 1 then 1 else 0) + (if (i + 1) % 2 == 1 then 1 else 0) + Turns(i + 2, n - 2, 1);
    }
  }

  /** `s` is what `items` leave behind, started from `s0`, when every one of
      them commits: one committed event and one commit per action, authors
      following the rotation from `s0`'s index, and each counter raised by
      the number of turns its account had. */
  predicate AllCommitted(s0: State, items: seq<Scheduled>, s: State) {
    && "alice" in s0.counts && "bob" in s0.counts
    && s.authorIndex == s0.authorIndex + |items|
    && |s.events| == |s0.events| + |items|
    && s.events[..|s0.events|] == s0.events
    && (forall k :: 0 <= k < |items| ==>
          s.events[|s0.events| + k] == Event(items[k].action.message, Pair[(s0.authorIndex + k) % 2], items[k].when, true))
    && |s.repo.log| == |s0.repo.log| + |items|
    && s.counts == s0.counts["alice" := s0.counts["alice"] + Turns(s0.authorIndex, |items|, 0)]
                            ["bob" := s0.counts["bob"] + Turns(s0.authorIndex, |items|, 1)]
  }

  lemma OneCommitted(s0: State, item: Scheduled, s1: State)
    requires "alice" in s0.counts && "bob" in s0.counts
    requires var author := Pair[s0.authorIndex % 2];
      && s1.authorIndex == s0.authorIndex + 1
      && s1.events == s0.events + [Event(item.action.message, author, item.when, true)]
      && |s1.repo.log| == |s0.repo.log| + 1
      && s1.counts == s0.counts[author.username := s0.counts[author.username] + 1]
    ensures AllCommitted(s0, [item], s1)
  {
    assert s1.events[..|s0.events|] == s0.events;
    assert Turns(s0.authorIndex + 1, 0, 0) == 0 && Turns(s0.authorIndex + 1, 0, 1) == 0;
    if s0.authorIndex % 2 == 0 {
      assert s1.counts == s0.counts["alice" := s0.counts["alice"] + 1]["bob" := s0.counts["bob"]];
    } else {
      assert s1.counts == s0.counts["alice" := s0.counts["alice"]]["bob" := s0.counts["bob"] + 1];
    }
  }

  lemma AllCommittedCompose(s0: State, s1: State, s: State, items: seq<Scheduled>)
    requires |items| >= 1
    requires AllCommitted(s0, items[..1], s1) && AllCommitted(s1, items[1..], s)
    ensures AllCommitted(s0, items, s)
  {
    var rest := items[1..];
    assert s.events[..|s0.events|] == s0.events by {
      assert s.events[..|s1.events|] == s1.events;
      assert s1.events[..|s0.events|] == s0.events;
    }
    forall k | 0 <= k < |items|
      ensures s.events[|s0.events| + k] == Event(items[k].action.message, Pair[(s0.authorIndex + k) % 2], items[k].when, true)
    {
      if k == 0 {
        assert s.events[|s0.events|] == s1.events[|s0.events|];
        assert items[0] == items[..1][0];
      } else {
        assert items[k] == rest[k - 1];
        assert s.events[|s0.events| + k] == s.events[|s1.events| + (k - 1)];
      }
    }
  }

  /** Every action of `items` writes a path that neither `work` nor `head`
      holds, and no two of them write the same path. */
  predicate FreshWrites(items: seq<Scheduled>, work: Tree, head: Tree) {
    && (forall i :: 0 <= i < |items| ==> items[i].action.mutation.WriteFile?)
    && (forall i :: 0 <= i < |items| ==> items[i].action.mutation.path !in work && items[i].action.mutation.path !in head)
    && (forall i, j :: 0 <= i < j < |items| ==> items[i].action.mutation.path != items[j].action.mutation.path)
  }

  lemma FreshAfterOne(items: seq<Scheduled>, work: Tree, head: Tree, work1: Tree)
    requires |items| >= 1 && FreshWrites(items, work, head)
    requires work1 == work[items[0].action.mutation.path := items[0].action.mutation.content]
    ensures FreshWrites(items[1..], work1, work1)
  {
    var rest := items[1..];
    forall i | 0 <= i < |rest|
      ensures rest[i].action.mutation.WriteFile? && rest[i].action.mutation.path !in work1
    {
      assert rest[i] == items[i + 1];
    }
    forall i, j | 0 <= i < j < |rest|
      ensures rest[i].action.mutation.path != rest[j].action.mutation.path
    {
      assert rest[i] == items[i + 1] && rest[j] == items[j + 1];
    }
  }

  /** Actions that each write a new path all commit, under the authors of
      the rotation in turn. */
  lemma {:induction false} FreshWritesAllCommit(s0: State, items: seq<Scheduled>)
    requires "alice" in s0.counts && "bob" in s0.counts
    requires FreshWrites(items, s0.repo.work, s0.repo.head)
    ensures Replay(s0, Pair, items).Success? && AllCommitted(s0, items, Replay(s0, Pair, items).value)
    decreases |items|
  {
    if items == [] {
      assert s0.events[..|s0.events|] == s0.events;
    } else {
      var s1 := Step(s0, Pair, items[0]).value;
      FreshWriteCommits(s0, items[0], s1);
      OneCommitted(s0, items[0], s1);
      assert items[..1] == [items[0]];
      FreshAfterOne(items, s0.repo.work, s0.repo.head, s1.repo.work);
      FreshWritesAllCommit(s1, items[1..]);
      AllCommittedCompose(s0, s1, Replay(s1, Pair, items[1..]).value, items);
    }
  }

  lemma EvenSplitPasses(c: map<string, nat>, m: nat)
    requires c == map["alice" := m, "bob" := m]
    ensures FirstViolation(c, ["alice", "bob"], m - 1) == Pass
  {
    assert "alice" in c && "bob" in c && c["alice"] > m - 1 && c["bob"] > m - 1;
  }

  lemma EvenRunCounts(s0: State, items: seq<Scheduled>, s: State)
    requires s0.counts == map["alice" := 0, "bob" := 0] && s0.authorIndex % 2 == 0
    requires |items| % 2 == 0 && AllCommitted(s0, items, s)
    ensures s.counts == map["alice" := |items| / 2, "bob" := |items| / 2]
  {
    TurnsOfEvenSpan(s0.authorIndex, |items|);
  }

  lemma EvenShiftKeepsParity(i: nat, k: nat)
    requires i % 2 == 0
    ensures (i + k) % 2 == k % 2
  {
    var h := i / 2;
    assert i == 2 * h;
    assert (2 * h + k) % 2 == k % 2;
  }

  lemma AuthorsAlternate(s0: State, items: seq<Scheduled>, s: State)
    requires s0.authorIndex % 2 == 0 && AllCommitted(s0, items, s)
    ensures forall k :: 0 <= k < |items| ==> s.events[|s0.events| + k].author == Pair[k % 2]
  {
    forall k | 0 <= k < |items|
      ensures s.events[|s0.events| + k].author == Pair[k % 2]
    {
      assert s.events[|s0.events| + k] == Event(items[k].action.message, Pair[(s0.authorIndex + k) % 2], items[k].when, true);
      EvenShiftKeepsParity(s0.authorIndex, k);
    }
  }

  /** What `AllCommitted` says for an even number of actions from an even
      index and zeroed counters. */
  lemma EvenRunAlternates(s0: State, items: seq<Scheduled>, s: State)
    requires s0.counts == map["alice" := 0, "bob" := 0] && s0.authorIndex % 2 == 0
    requires |items| % 2 == 0 && AllCommitted(s0, items, s)
    ensures |s.repo.log| == |s0.repo.log| + |items|
    ensures |s.events| == |s0.events| + |items|
    ensures forall k :: 0 <= k < |items| ==> s.events[|s0.events| + k].author == Pair[k % 2]
    ensures s.counts == map["alice" := |items| / 2, "bob" := |items| / 2]
    ensures FirstViolation(s.counts, ["alice", "bob"], |items| / 2 - 1) == Pass
  {
    AuthorsAlternate(s0, items, s);
    EvenRunCounts(s0, items, s);
    EvenSplitPasses(s.counts, |items| / 2);
  }

  lemma InitialPairCounts(repo: Repo)
    ensures Initial(Pair, repo).counts == map["alice" := 0, "bob" := 0]
  {
    var u := Usernames(Pair);
    assert u == ["alice", "bob"];
    assert UsernameSet(Pair) == {"alice", "bob"};
  }

  lemma EvenRunFromStart(s0: State, items: seq<Scheduled>, s: State)
    requires s0.counts == map["alice" := 0, "bob" := 0] && s0.authorIndex == 0 && s0.events == []
    requires |items| % 2 == 0 && AllCommitted(s0, items, s)
    ensures |s.events| == |items|
    ensures forall k :: 0 <= k < |items| ==> s.events[k].committed && s.events[k].author == Pair[k % 2]
    ensures s.counts == map["alice" := |items| / 2, "bob" := |items| / 2]
  {
    EvenRunAlternates(s0, items, s);
    forall k | 0 <= k < |items|
      ensures s.events[k].committed
    {
      assert s.events[|s0.events| + k] == Event(items[k].action.message, Pair[(s0.authorIndex + k) % 2], items[k].when, true);
    }
  }

  /** The loop from the start state of a run over an even number of fresh
      writes: every action commits, authors alternate, counters end at half. */
  lemma FreshWritesFromStart(repo: Repo, sched: seq<Scheduled>)
    requires |sched| % 2 == 0 && FreshWrites(sched, repo.work, repo.head)
    ensures Replay(Initial(Pair, repo), Pair, sched).Success?
    ensures var s := Replay(Initial(Pair, repo), Pair, sched).value;
      && |s.events| == |sched|
      && (forall k :: 0 <= k < |sched| ==> s.events[k].committed && s.events[k].author == Pair[k % 2])
      && s.counts == map["alice" := |sched| / 2, "bob" := |sched| / 2]
  {
    var s0 := Initial(Pair, repo);
    InitialPairCounts(repo);
    FreshWritesAllCommit(s0, sched);
    EvenRunFromStart(s0, sched, Replay(s0, Pair, sched).value);
  }

  /** A whole run over the two-account pool whose schedule is an even
      number of fresh writes: no file is missing, every action commits,
      authors alternate A, B, ..., and both counters end at half the actions. */
  lemma RunOfFreshWrites(sched: seq<Scheduled>, repo0: Repo, repo: Repo, rep: Report)
    requires Reported(Pair, sched, repo0, repo, rep)
    requires |sched| % 2 == 0 && FreshWrites(sched, repo.work, repo.head)
    ensures rep.abort.None? || rep.abort.value.TooFewCommits?
    ensures |rep.events| == |sched|
    ensures forall k :: 0 <= k < |sched| ==> rep.events[k].committed && rep.events[k].author == Pair[k % 2]
    ensures rep.counts == map["alice" := |sched| / 2, "bob" := |sched| / 2]
  {
    FreshWritesFromStart(repo, sched);
  }

  lemma EvenSplitVerdict(rep: Report, m: nat)
    requires rep.counts == map["alice" := m, "bob" := m]
    requires rep.abort.None? || rep.abort.value.TooFewCommits?
    requires rep.counts.Keys == UsernameSet(Pair)
    requires rep.abort.None? ==> forall i :: 0 <= i < |Pair| ==> rep.counts[Pair[i].username] > Threshold
    requires rep.abort.Some? && rep.abort.value.TooFewCommits? ==>
      FirstViolation(rep.counts, Dedup(Usernames(Pair)), Threshold) == Violation(rep.abort.value.user, rep.abort.value.count)
    ensures rep.abort.None? <==> m > Threshold
  {
    if rep.abort.None? {
      assert rep.counts[Pair[0].username] > Threshold;
    } else {
      assert rep.counts[rep.abort.value.user] <= Threshold;
    }
  }

  /** Such a run passes the threshold check exactly when half the actions
      is above `Threshold`. */
  lemma RunOfFreshWritesPasses(sched: seq<Scheduled>, repo0: Repo, repo: Repo, rep: Report)
    requires Reported(Pair, sched, repo0, repo, rep)
    requires |sched| % 2 == 0 && FreshWrites(sched, repo.work, repo.head)
    ensures rep.abort.None? <==> |sched| / 2 > Threshold
  {
    RunOfFreshWrites(sched, repo0, repo, rep);
    EvenSplitVerdict(rep, |sched| / 2);
  }

  /** The second action reproduces the first's content: one commit, by A;
      B's action is skipped, B's counter stays 0, and even a threshold of 0
      reports B. */
  lemma RepeatedContentIsSkipped()
    ensures var s1 := Step(Start(), Pair, WriteAt("a", "same", 10)).value;
      var s2 := Step(s1, Pair, WriteAt("a", "same", 20)).value;
      && |s2.repo.log| == 1 && s2.repo.log[0].author == AsIdentity(Alice)
      && s2.events[0].committed && !s2.events[1].committed
      && s2.events[1].author == Bob
      && s2.counts == map["alice" := 1, "bob" := 0]
      && FirstViolation(s2.counts, ["alice", "bob"], 0) == Violation("bob", 0)
  {
    var s1 := Step(Start(), Pair, WriteAt("a", "same", 10)).value;
    assert s1.repo.work == map["a" := "same"];
    var s2 := Step(s1, Pair, WriteAt("a", "same", 20)).value;
    assert s2.repo.work == s1.repo.head;
  }
}
