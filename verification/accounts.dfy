/**
 * The identity pool: the size check of `read_accounts`, round-robin
 * selection, the per-username counters and the threshold check of `main`.
 */
module Accounts {
  import opened Wrappers

  datatype Account = Account(username: string, email: string, token: string)

  /** Smallest pool the rotation accepts. */
  const MinPoolSize: int := 2

  /** Every account must end with strictly more commits than this. */
  const Threshold: int := 13

  datatype PoolError = TooFewAccounts

  /** The check at the end of `read_accounts`: a pool of fewer than two
      accounts is rejected; any other pool is kept as read, in file order. */
  function CheckPool(rows: seq<Account>): (r: Result<seq<Account>, PoolError>)
    ensures r.Success? <==> |rows| >= MinPoolSize
    ensures r.Success? ==> r.value == rows
  {
    if |rows| < MinPoolSize then Failure(TooFewAccounts) else Success(rows)
  }

  /** How many of the first `k` actions go to pool position `i` under
      round-robin over `n` accounts. */
  function Selections(n: nat, i: nat, k: nat): nat
    requires n > 0
  {
    if k == 0 then 0
    else Selections(n, i, k - 1) + (if (k - 1) % n == i then 1 else 0)
  }

  lemma MulAtLeast(d: int, n: int)
    requires d >= 1 && n > 0
    ensures d * n >= n
  {
    assert d * n == (d - 1) * n + n;
    assert (d - 1) * n >= 0;
  }

  /** Quotient and remainder are the unique pair with `k == q * n + m` and `0 <= m < n`. */
  lemma DivModUnique(k: int, n: int, q: int, m: int)
    requires n > 0 && 0 <= m < n && k == q * n + m
    ensures k / n == q && k % n == m
  {
    var q', m' := k / n, k % n;
    assert k == q' * n + m' && 0 <= m' < n;
    var d := q - q';
    assert d * n == m' - m by {
      assert d * n == q * n - q' * n;
    }
    if d >= 1 {
      MulAtLeast(d, n);
      assert false;
    } else if d <= -1 {
      MulAtLeast(-d, n);
      assert false;
    }
  }

  /** After `q * n + m` actions with `m < n`, position `i` has been chosen
      `q` times, plus one more when it is among the first `m` positions. */
  lemma {:induction false} SelectionsByParts(n: nat, i: nat, q: nat, m: nat)
    requires n > 0 && i < n && m < n
    ensures Selections(n, i, q * n + m) == q + (if i < m then 1 else 0)
    decreases q, m
  {
    if m > 0 {
      SelectionsByParts(n, i, q, m - 1);
      DivModUnique(q * n + m - 1, n, q, m - 1);
    } else if q > 0 {
      assert q * n + 0 == (q - 1) * n + (n - 1) + 1;
      SelectionsByParts(n, i, q - 1, n - 1);
      DivModUnique((q - 1) * n + (n - 1), n, q - 1, n - 1);
    }
  }

  /** After `k` actions, position `i` has been chosen `k / n` times, plus one
      more when it lies among the first `k % n` positions. */
  lemma SelectionsExact(n: nat, i: nat, k: nat)
    requires n > 0 && i < n
    ensures Selections(n, i, k) == k / n + (if i < k % n then 1 else 0)
  {
    var q, m := k / n, k % n;
    assert q * n + m == k;
    SelectionsByParts(n, i, q, m);
  }

  /** Rounding `k / n` up adds one exactly when `n` does not divide `k`. */
  lemma CeilDiv(k: nat, n: nat)
    requires n > 0
    ensures (k + n - 1) / n == k / n + (if k % n > 0 then 1 else 0)
  {
    var q, m := k / n, k % n;
    assert k == q * n + m;
    if m > 0 {
      assert k + n - 1 == (q + 1) * n + (m - 1) by {
        assert (q + 1) * n == q * n + n;
      }
      DivModUnique(k + n - 1, n, q + 1, m - 1);
    } else {
      assert k + n - 1 == q * n + (n - 1);
      DivModUnique(k + n - 1, n, q, n - 1);
    }
  }

  /** Rotation fairness: every account is chosen floor(k/n) or ceil(k/n) times. */
  lemma RotationIsFair(n: nat, i: nat, k: nat)
    requires n > 0 && i < n
    ensures k / n <= Selections(n, i, k) <= (k + n - 1) / n
  {
    SelectionsExact(n, i, k);
    CeilDiv(k, n);
  }

  /** The username column of the pool, in pool order. */
  function Usernames(pool: seq<Account>): (r: seq<string>)
    ensures |r| == |pool|
    ensures forall i :: 0 <= i < |pool| ==> r[i] == pool[i].username
  {
    if |pool| == 0 then [] else Usernames(pool[..|pool| - 1]) + [pool[|pool| - 1].username]
  }

  predicate Distinct(s: seq<string>) {
    forall i, j :: 0 <= i < j < |s| ==> s[i] != s[j]
  }

  /** The key order of the counter dictionary: each username once, at its
      first occurrence in the pool. */
  function Dedup(s: seq<string>): (r: seq<string>)
    ensures Distinct(r)
    ensures forall x :: x in r <==> x in s
    ensures |r| <= |s|
  {
    if |s| == 0 then []
    else
      var init := s[..|s| - 1];
      var last := s[|s| - 1];
      var prefix := Dedup(init);
      assert forall x :: x in s <==> x in init || x == last;
      if last in init then prefix else prefix + [last]
  }

  /** A username that is new to the pool is placed after all earlier ones. */
  lemma DedupKeepsFirstOccurrenceOrder(s: seq<string>, x: string)
    requires x !in s
    ensures Dedup(s + [x]) == Dedup(s) + [x]
  {
    assert (s + [x])[..|s|] == s;
  }

  /** A username seen before leaves the key order unchanged. */
  lemma DedupIgnoresRepeat(s: seq<string>, x: string)
    requires x in s
    ensures Dedup(s + [x]) == Dedup(s)
  {
    assert (s + [x])[..|s|] == s;
  }

  /** Usernames that are all different keep their pool order as keys. */
  lemma {:induction false} DedupOfDistinct(s: seq<string>)
    requires Distinct(s)
    ensures Dedup(s) == s
    decreases |s|
  {
    if |s| > 0 {
      var init := s[..|s| - 1];
      assert Distinct(init);
      DedupOfDistinct(init);
      assert s[|s| - 1] !in init;
      assert init + [s[|s| - 1]] == s;
    }
  }

  /** The index of the first occurrence of `x` in `s`. */
  function FirstIndex(s: seq<string>, x: string): (k: nat)
    requires x in s
    ensures k < |s| && s[k] == x && forall j :: 0 <= j < k ==> s[j] != x
  {
    if s[0] == x then 0 else 1 + FirstIndex(s[1..], x)
  }

  /** The keys come in order of first occurrence: an earlier key first
      appears earlier in the pool. */
  lemma {:induction false} DedupFollowsFirstOccurrence(s: seq<string>)
    ensures forall i, j :: 0 <= i < j < |Dedup(s)| ==> FirstIndex(s, Dedup(s)[i]) < FirstIndex(s, Dedup(s)[j])
    decreases |s|
  {
    if |s| > 0 {
      var init := s[..|s| - 1];
      var last := s[|s| - 1];
      DedupFollowsFirstOccurrence(init);
      var d := Dedup(s);
      var di := Dedup(init);
      forall y | y in init
        ensures FirstIndex(s, y) == FirstIndex(init, y)
      {
        FirstIndexPrefix(init, last, y);
        assert init + [last] == s;
      }
      forall i, j | 0 <= i < j < |d|
        ensures FirstIndex(s, d[i]) < FirstIndex(s, d[j])
      {
        if last in init {
          assert d == di;
        } else {
          assert d == di + [last];
          if j == |di| {
            assert d[i] == di[i] && d[i] in init;
            assert FirstIndex(s, last) == |s| - 1;
          } else {
            assert d[i] == di[i] && d[j] == di[j];
          }
        }
      }
    }
  }

  lemma {:induction false} FirstIndexPrefix(s: seq<string>, x: string, y: string)
    requires y in s
    ensures FirstIndex(s + [x], y) == FirstIndex(s, y)
    decreases |s|
  {
    assert (s + [x])[0] == s[0];
    if s[0] != y {
      assert (s + [x])[1..] == s[1..] + [x];
      FirstIndexPrefix(s[1..], x, y);
    }
  }

  /** The result of the threshold check over the counters. */
  datatype Verdict = Pass | Violation(user: string, count: nat)

  /** Walks the usernames in `order` and reports the first whose count does
      not exceed `threshold`; passes when there is none. */
  function FirstViolation(counts: map<string, nat>, order: seq<string>, threshold: int): (v: Verdict)
    requires forall i :: 0 <= i < |order| ==> order[i] in counts
    ensures v.Pass? <==> forall i :: 0 <= i < |order| ==> counts[order[i]] > threshold
    ensures v.Violation? ==> exists i :: 0 <= i < |order| && order[i] == v.user && FirstFailing(counts, order, threshold, i)
    ensures v.Violation? ==> v.user in counts && v.count == counts[v.user] && v.count <= threshold
  {
    if |order| == 0 then Pass
    else if counts[order[0]] <= threshold then
      assert FirstFailing(counts, order, threshold, 0);
      Violation(order[0], counts[order[0]])
    else
      var v := FirstViolation(counts, order[1..], threshold);
      if v.Violation? then
        var i :| 0 <= i < |order[1..]| && order[1..][i] == v.user && FirstFailing(counts, order[1..], threshold, i);
        assert FirstFailing(counts, order, threshold, i + 1);
        v
      else
        assert forall i :: 1 <= i < |order| ==> order[i] == order[1..][i - 1];
        v
  }

  /** Position `i` is the first in `order` whose count is at most `threshold`. */
  predicate FirstFailing(counts: map<string, nat>, order: seq<string>, threshold: int, i: int)
    requires forall k :: 0 <= k < |order| ==> order[k] in counts
  {
    && 0 <= i < |order|
    && counts[order[i]] <= threshold
    && forall j :: 0 <= j < i ==> counts[order[j]] > threshold
  }

  /** The check is strict: a count equal to the threshold is a violation. */
  lemma CountAtThresholdFails(counts: map<string, nat>, order: seq<string>, threshold: nat, u: string)
    requires forall i :: 0 <= i < |order| ==> order[i] in counts
    requires u in order && counts[u] == threshold
    ensures FirstViolation(counts, order, threshold).Violation?
  {
  }
}
