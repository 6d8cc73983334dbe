/**
 * The clock/jitter scheduler `dates_between`. A date is an integer count
 * of minutes; a phase boundary is a day number whose midnight is
 * `Midnight(day)`. The random draws are an input: one `Jitter` per slot.
 */
module Schedule {
  import opened Sorting

  const MinutesPerHour: int := 60
  const MinutesPerDay: int := 24 * MinutesPerHour

  /** The first and last hour a jittered slot may land in (inclusive). */
  const FirstHour: int := 9
  const LastHour: int := 20
  /** Bounds, in hours, of the backoff applied to a slot past the window end. */
  const MinBackoff: int := 1
  const MaxBackoff: int := 6

  /** The draws for one slot: hour in 9..20, minute in 0..59, and the
      backoff in hours, which only a slot past the end of the window uses. */
  datatype Jitter = Jitter(hour: int, minute: int, backoff: int)

  predicate ValidJitter(j: Jitter) {
    && FirstHour <= j.hour <= LastHour
    && 0 <= j.minute < MinutesPerHour
    && MinBackoff <= j.backoff <= MaxBackoff
  }

  predicate AllValid(js: seq<Jitter>) {
    forall i :: 0 <= i < |js| ==> ValidJitter(js[i])
  }

  function Midnight(day: int): int {
    day * MinutesPerDay
  }

  /** The spacing in days between slots: `max(1, totalDays // count)`, with
      Python's floor division. */
  function StepDays(totalDays: int, count: int): (step: int)
    requires count > 0
    ensures step >= 1
    ensures totalDays >= count ==> step * count <= totalDays < (step + 1) * count
    ensures totalDays < count ==> step == 1
  {
    var q := totalDays / count;
    if q > 1 then q else 1
  }

  /** A slot's time of day added to the slot's day. */
  function Jittered(day: int, j: Jitter): int {
    day + j.hour * MinutesPerHour + j.minute
  }

  /** A time past `endMin` is pulled back to `backoff` hours before it. */
  function Clamp(t: int, endMin: int, j: Jitter): (r: int)
    requires ValidJitter(j)
    ensures r <= endMin
    ensures t <= endMin ==> r == t
    ensures t > endMin ==> endMin - MaxBackoff * MinutesPerHour <= r <= endMin - MinBackoff * MinutesPerHour
  {
    if t > endMin then endMin - j.backoff * MinutesPerHour else t
  }

  /** The loop of `dates_between` before the sort: slot `i` sits on day
      `current + i * step`, is jittered, then clamped. */
  function Generate(current: int, stepMin: int, endMin: int, js: seq<Jitter>): (r: seq<int>)
    requires AllValid(js)
    ensures |r| == |js|
    ensures forall i :: 0 <= i < |js| ==> r[i] == Clamp(Jittered(current + i * stepMin, js[i]), endMin, js[i])
    decreases |js|
  {
    if |js| == 0 then []
    else
      var rest := Generate(current + stepMin, stepMin, endMin, js[1..]);
      assert forall i :: 1 <= i < |js| ==> current + stepMin + (i - 1) * stepMin == current + i * stepMin;
      [Clamp(Jittered(current, js[0]), endMin, js[0])] + rest
  }

  /** The unsorted timestamps of one phase window: slots start one day after
      `startDay` and are `StepDays` apart. */
  function Unsorted(startDay: int, endDay: int, count: int, js: seq<Jitter>): seq<int>
    requires count > 0 && |js| == count && AllValid(js)
  {
    Generate(Midnight(startDay + 1), StepDays(endDay - startDay, count) * MinutesPerDay, Midnight(endDay), js)
  }

  /** Every generated slot lies in the half-open window (start, end] once the
      window is at least a day long. An unclamped slot is at least 09:00 of the
      day after the start; a clamped one is at least six hours before the end. */
  lemma {:induction false} UnsortedBounds(startDay: int, endDay: int, count: int, js: seq<Jitter>)
    requires count > 0 && |js| == count && AllValid(js)
    ensures forall i :: 0 <= i < count ==> Unsorted(startDay, endDay, count, js)[i] <= Midnight(endDay)
    ensures endDay >= startDay + 1 ==>
      forall i :: 0 <= i < count ==> Midnight(startDay) < Unsorted(startDay, endDay, count, js)[i]
  {
    var g := Unsorted(startDay, endDay, count, js);
    var stepMin := StepDays(endDay - startDay, count) * MinutesPerDay;
    forall i | 0 <= i < count
      ensures g[i] <= Midnight(endDay)
      ensures endDay >= startDay + 1 ==> Midnight(startDay) < g[i]
    {
      SlotBounds(startDay, endDay, stepMin, i, js[i]);
    }
  }

  /** One slot: at or before the end, and after the start once the window
      is at least a day long. */
  lemma SlotBounds(startDay: int, endDay: int, stepMin: int, i: int, j: Jitter)
    requires stepMin >= 0 && i >= 0 && ValidJitter(j)
    ensures Clamp(Jittered(Midnight(startDay + 1) + i * stepMin, j), Midnight(endDay), j) <= Midnight(endDay)
    ensures endDay >= startDay + 1 ==>
      Midnight(startDay) < Clamp(Jittered(Midnight(startDay + 1) + i * stepMin, j), Midnight(endDay), j)
  {
    assert i * stepMin >= 0;
  }

  /** `dates_between(start, end, count)`: `count` jittered timestamps inside the
      window, in ascending order; none when `count <= 0`. */
  function DatesBetween(startDay: int, endDay: int, count: int, js: seq<Jitter>): (r: seq<int>)
    requires count <= 0 || |js| == count
    requires AllValid(js)
    ensures count <= 0 ==> r == []
    ensures count > 0 ==> |r| == count
    ensures Sorted(r)
    ensures count > 0 ==> multiset(r) == multiset(Unsorted(startDay, endDay, count, js))
    ensures forall i :: 0 <= i < |r| ==> r[i] <= Midnight(endDay)
    ensures endDay >= startDay + 1 ==> forall i :: 0 <= i < |r| ==> Midnight(startDay) < r[i]
  {
    if count <= 0 then []
    else
      var g := Unsorted(startDay, endDay, count, js);
      var r := Sort(g);
      UnsortedBounds(startDay, endDay, count, js);
      PermutationKeepsBounds(r, g, Midnight(startDay), Midnight(endDay), endDay >= startDay + 1);
      r
  }

  /** Bounds that hold of every element carry over to a permutation. */
  lemma PermutationKeepsBounds(r: seq<int>, g: seq<int>, lo: int, hi: int, strictLo: bool)
    requires multiset(r) == multiset(g)
    requires forall i :: 0 <= i < |g| ==> g[i] <= hi
    requires strictLo ==> forall i :: 0 <= i < |g| ==> lo < g[i]
    ensures forall i :: 0 <= i < |r| ==> r[i] <= hi
    ensures strictLo ==> forall i :: 0 <= i < |r| ==> lo < r[i]
  {
    forall i | 0 <= i < |r|
      ensures r[i] <= hi && (strictLo ==> lo < r[i])
    {
      assert r[i] in multiset(r);
      assert r[i] in g;
      var k :| 0 <= k < |g| && g[k] == r[i];
    }
  }

  /** Slot `i` of a window before clamping: 09:00-20:59 on its day. */
  function RawSlot(startDay: int, endDay: int, count: int, js: seq<Jitter>, i: int): int
    requires count > 0 && |js| == count && 0 <= i < count
  {
    Jittered(Midnight(startDay + 1) + i * (StepDays(endDay - startDay, count) * MinutesPerDay), js[i])
  }

  /** `t` is the raw slot kept unchanged, or the end backed off by the slot's draw. */
  predicate KeptOrBackedOff(t: int, raw: int, endMin: int, j: Jitter) {
    || (raw <= endMin && t == raw)
    || (raw > endMin && t == endMin - j.backoff * MinutesPerHour)
  }

  /** Each returned timestamp is either a slot that did not pass the end, kept
      unchanged, or the end pulled back by 1 to 6 hours, which lies strictly
      before the end. */
  lemma EveryDateIsKeptOrBackedOff(startDay: int, endDay: int, count: int, js: seq<Jitter>, t: int)
    requires count > 0 && |js| == count && AllValid(js)
    requires t in DatesBetween(startDay, endDay, count, js)
    ensures exists i :: 0 <= i < count && KeptOrBackedOff(t, RawSlot(startDay, endDay, count, js, i), Midnight(endDay), js[i])
  {
    var r := DatesBetween(startDay, endDay, count, js);
    var g := Unsorted(startDay, endDay, count, js);
    assert t in multiset(r);
    assert t in g;
    var i :| 0 <= i < |g| && g[i] == t;
    assert KeptOrBackedOff(t, RawSlot(startDay, endDay, count, js, i), Midnight(endDay), js[i]);
  }

  /** The scheduler is a function of its draws: the sorted result is the
      one and only ascending arrangement of the clamped slots. */
  lemma DatesBetweenIsTheSortedSlots(startDay: int, endDay: int, count: int, js: seq<Jitter>, s: seq<int>)
    requires count > 0 && |js| == count && AllValid(js)
    requires Sorted(s) && multiset(s) == multiset(Unsorted(startDay, endDay, count, js))
    ensures DatesBetween(startDay, endDay, count, js) == s
  {
    SortedPermutationUnique(DatesBetween(startDay, endDay, count, js), s);
  }

  /** A slot on a later day is later, whatever the draws: a slot is at most
      20:59 on its own day and at least 09:00 on the next. */
  lemma LaterSlotIsLater(day: int, stepMin: int, i: int, j: int, a: Jitter, b: Jitter)
    requires stepMin >= MinutesPerDay && 0 <= i < j
    requires ValidJitter(a) && ValidJitter(b)
    ensures Jittered(day + i * stepMin, a) < Jittered(day + j * stepMin, b)
  {
    assert j * stepMin == i * stepMin + (j - i) * stepMin;
    assert (j - i) * stepMin == (j - i - 1) * stepMin + stepMin;
    assert (j - i - 1) * stepMin >= 0;
  }

  /** When no slot passes the end, the slots already come in ascending order,
      so the sort returns them as generated. */
  lemma NoClampKeepsGeneratedOrder(startDay: int, endDay: int, count: int, js: seq<Jitter>)
    requires count > 0 && |js| == count && AllValid(js)
    requires forall i :: 0 <= i < count ==> RawSlot(startDay, endDay, count, js, i) <= Midnight(endDay)
    ensures DatesBetween(startDay, endDay, count, js) == Unsorted(startDay, endDay, count, js)
  {
    var g := Unsorted(startDay, endDay, count, js);
    var stepMin := StepDays(endDay - startDay, count) * MinutesPerDay;
    var day := Midnight(startDay + 1);
    forall i | 0 <= i < count
      ensures g[i] == Jittered(day + i * stepMin, js[i])
    {
      var raw := Jittered(day + i * stepMin, js[i]);
      assert raw == RawSlot(startDay, endDay, count, js, i);
      assert g[i] == Clamp(raw, Midnight(endDay), js[i]);
    }
    forall i, j | 0 <= i < j < count
      ensures g[i] <= g[j]
    {
      LaterSlotIsLater(day, stepMin, i, j, js[i], js[j]);
    }
    DatesBetweenIsTheSortedSlots(startDay, endDay, count, js, g);
  }

  /** On a zero-length window every slot passes the end, so every date is
      the window's day backed off by 1 to 6 hours: all precede its start. */
  lemma ZeroLengthWindowBacksOffEverySlot(day: int, count: int, js: seq<Jitter>)
    requires count > 0 && |js| == count && AllValid(js)
    ensures forall i :: 0 <= i < count ==>
      && Midnight(day) - MaxBackoff * MinutesPerHour <= DatesBetween(day, day, count, js)[i]
      && DatesBetween(day, day, count, js)[i] <= Midnight(day) - MinBackoff * MinutesPerHour
  {
    var r := DatesBetween(day, day, count, js);
    forall i | 0 <= i < count
      ensures Midnight(day) - MaxBackoff * MinutesPerHour <= r[i] <= Midnight(day) - MinBackoff * MinutesPerHour
    {
      ZeroLengthDateBackedOff(day, count, js, r[i]);
    }
  }

  lemma ZeroLengthDateBackedOff(day: int, count: int, js: seq<Jitter>, t: int)
    requires count > 0 && |js| == count && AllValid(js)
    requires t in DatesBetween(day, day, count, js)
    ensures Midnight(day) - MaxBackoff * MinutesPerHour <= t <= Midnight(day) - MinBackoff * MinutesPerHour
  {
    EveryDateIsKeptOrBackedOff(day, day, count, js, t);
    var k :| 0 <= k < count && KeptOrBackedOff(t, RawSlot(day, day, count, js, k), Midnight(day), js[k]);
    RawSlotAfterStart(day, day, count, js, k);
    assert ValidJitter(js[k]);
  }

  /** Every raw slot lies after the start of its window's first day. */
  lemma RawSlotAfterStart(startDay: int, endDay: int, count: int, js: seq<Jitter>, i: int)
    requires count > 0 && |js| == count && 0 <= i < count && AllValid(js)
    ensures RawSlot(startDay, endDay, count, js, i) > Midnight(startDay)
  {
    var stepMin := StepDays(endDay - startDay, count) * MinutesPerDay;
    assert stepMin >= 0;
    assert i * stepMin >= 0;
    assert ValidJitter(js[i]);
  }

  /** Without a day between start and end, a clamped slot can precede the
      start: a one-slot schedule on a zero-length window yields 18:00 of the
      day before. */
  lemma ZeroLengthWindowPrecedesStart()
    ensures DatesBetween(10, 10, 1, [Jitter(9, 0, 6)]) == [Midnight(10) - 6 * MinutesPerHour]
    ensures DatesBetween(10, 10, 1, [Jitter(9, 0, 6)])[0] < Midnight(10)
  {
    assert Unsorted(10, 10, 1, [Jitter(9, 0, 6)]) == [Midnight(10) - 6 * MinutesPerHour];
  }
}
