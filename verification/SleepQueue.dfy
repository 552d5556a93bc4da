/** sleep_process of process.c: the caller joins the sleep queue, which an exchange sort over the
    ring may then put in order of waking time. */
module SleepQueue {
  import opened Machine
  import opened Scheduler
  import opened RunQueue
  import opened Kernel

  const PIDS: nat := 128

  predicate Pids(q: seq<nat>) {
    forall k :: 0 <= k < |q| ==> q[k] < PIDS
  }

  /** Ascending waking times. */
  ghost predicate Ascending(q: seq<nat>, table: seq<Entry>)
    requires |table| == PIDS && Pids(q)
  {
    forall x, y :: 0 <= x < y < |q| ==> table[q[x]].timeRemaining <= table[q[y]].timeRemaining
  }

  ghost predicate SomeSmaller(q: seq<nat>, table: seq<Entry>, time: u32)
    requires |table| == PIDS && Pids(q)
  {
    exists k :: 0 <= k < |q| && table[q[k]].timeRemaining < time
  }

  lemma SwapKeepsBag(q: seq<nat>, a: nat, b: nat)
    requires a < b < |q|
    ensures multiset(q[a := q[b]][b := q[a]]) == multiset(q)
  {
  }

  /** Writing a slot of the ring changes the one entry that lives there. */
  lemma WriteEntry(slots: seq<u16>, head: nat, tail: nat, a: nat, x: u16)
    requires |slots| == SLOTS && head < SLOTS && tail < SLOTS && a < Length(head, tail)
    ensures Entries(slots[Slot(head, a) := x], head, tail) == Entries(slots, head, tail)[a := x]
  {
    var l, r := Entries(slots[Slot(head, a) := x], head, tail), Entries(slots, head, tail)[a := x];
    forall k | 0 <= k < |r| ensures l[k] == r[k] {
      assert Slot(head, k) == Slot(head, a) <==> k == a;
    }
  }

  /** The state of an exchange sort: places before a are final, and the entry at place a is the
      smallest of those at a..b. */
  ghost predicate SortedUpTo(q: seq<nat>, table: seq<Entry>, a: nat, b: nat)
    requires |table| == PIDS && Pids(q)
  {
    && (forall x, y :: 0 <= x < a && x < y < |q| ==> table[q[x]].timeRemaining <= table[q[y]].timeRemaining)
    && (a < |q| ==> forall y :: a <= y < b && y < |q| ==> table[q[a]].timeRemaining <= table[q[y]].timeRemaining)
  }

  /** One comparison of the sort, exchanging the entries at places a and b if they are out of order. */
  function CompareExchange(q: seq<nat>, table: seq<Entry>, a: nat, b: nat): (r: seq<nat>)
    requires |table| == PIDS && Pids(q) && a <= b < |q|
    ensures |r| == |q| && Pids(r)
  {
    if table[q[a]].timeRemaining > table[q[b]].timeRemaining then q[a := q[b]][b := q[a]] else q
  }

  lemma CompareExchangeStep(q: seq<nat>, table: seq<Entry>, a: nat, b: nat)
    requires |table| == PIDS && Pids(q) && a <= b < |q| && SortedUpTo(q, table, a, b)
    ensures SortedUpTo(CompareExchange(q, table, a, b), table, a, b + 1)
    ensures multiset(CompareExchange(q, table, a, b)) == multiset(q)
  {
    if table[q[a]].timeRemaining > table[q[b]].timeRemaining {
      SwapKeepsBag(q, a, b);
    }
  }

  /** The body of the inner loop: slots i and j hold the entries at places a and b. */
  method CompareSlots(ring: Ring, table: array<Entry>, i: nat, j: nat, ghost a: nat, ghost b: nat)
    requires ring.Valid() && table.Length == PIDS && Pids(ring.Contents())
    requires a <= b < |ring.Contents()| && i == Slot(ring.head, a) && j == Slot(ring.head, b)
    requires SortedUpTo(ring.Contents(), table[..], a, b)
    modifies ring.slots
    ensures Pids(ring.Contents()) && |ring.Contents()| == |old(ring.Contents())|
    ensures SortedUpTo(ring.Contents(), table[..], a, b + 1)
    ensures multiset(ring.Contents()) == multiset(old(ring.Contents()))
  {
    ghost var q := ring.Contents();
    CompareExchangeStep(q, table[..], a, b);
    assert q[a] == ring.slots[i] && q[b] == ring.slots[j];
    if table[ring.slots[i]].timeRemaining > table[ring.slots[j]].timeRemaining {
      WriteEntry(ring.slots[..], ring.head, ring.tail, a, ring.slots[j]);
      WriteEntry(ring.slots[..][i := ring.slots[j]], ring.head, ring.tail, b, ring.slots[i]);
      var temp := ring.slots[i];
      ring.slots[i] := ring.slots[j];
      ring.slots[j] := temp;
      assert ring.slots[..] == old(ring.slots[..])[i := old(ring.slots[j])][j := temp];
    }
    assert ring.Contents() == CompareExchange(q, table[..], a, b);
  }

  /** The inner loop: the smallest entry from place a on comes to slot i. */
  method SelectSmallest(ring: Ring, table: array<Entry>, i: nat, ghost a: nat)
    requires ring.Valid() && table.Length == PIDS && Pids(ring.Contents())
    requires a <= |ring.Contents()| && i == Slot(ring.head, a)
    requires SortedUpTo(ring.Contents(), table[..], a, a)
    modifies ring.slots
    ensures Pids(ring.Contents()) && |ring.Contents()| == |old(ring.Contents())|
    ensures SortedUpTo(ring.Contents(), table[..], a, |ring.Contents()|)
    ensures multiset(ring.Contents()) == multiset(old(ring.Contents()))
  {
    var j := i;
    ghost var b, n := a, |ring.Contents()|;
    while j != ring.tail
      invariant |ring.Contents()| == n && Pids(ring.Contents())
      invariant a <= b <= n && j == Slot(ring.head, b)
      invariant multiset(ring.Contents()) == multiset(old(ring.Contents()))
      invariant SortedUpTo(ring.Contents(), table[..], a, b)
      decreases n - b
    {
      CompareSlots(ring, table, i, j, a, b);
      j := (j + 1) % 128;
      b := b + 1;
    }
  }

  method SortRing(ring: Ring, table: array<Entry>)
    requires ring.Valid() && table.Length == PIDS && Pids(ring.Contents())
    modifies ring.slots
    ensures Pids(ring.Contents()) && Ascending(ring.Contents(), table[..])
    ensures multiset(ring.Contents()) == multiset(old(ring.Contents()))
  {
    var i := ring.head;
    ghost var a, n := 0, |ring.Contents()|;
    while i != ring.tail
      invariant |ring.Contents()| == n && Pids(ring.Contents())
      invariant a <= n && i == Slot(ring.head, a)
      invariant multiset(ring.Contents()) == multiset(old(ring.Contents()))
      invariant SortedUpTo(ring.Contents(), table[..], a, a)
      decreases n - a
    {
      SelectSmallest(ring, table, i, a);
      i := (i + 1) % 128;
      a := a + 1;
    }
  }

  /** The test that decides whether to sort: does some sleeper wake before the caller? */
  method WakesBefore(ring: Ring, table: array<Entry>, pid: nat) returns (found: bool)
    requires ring.Valid() && table.Length == PIDS && Pids(ring.Contents()) && pid < PIDS
    ensures found <==> SomeSmaller(ring.Contents(), table[..], table[pid].timeRemaining)
  {
    var i := ring.head;
    ghost var a, n := 0, |ring.Contents()|;
    while i != ring.tail
      invariant a <= n && i == Slot(ring.head, a)
      invariant forall k :: 0 <= k < a ==> table[ring.Contents()[k]].timeRemaining >= table[pid].timeRemaining
      decreases n - a
    {
      assert ring.Contents()[a] == ring.slots[i];
      if table[ring.slots[i]].timeRemaining < table[pid].timeRemaining {
        return true;
      }
      i := (i + 1) % 128;
      a := a + 1;
    }
    return false;
  }

  /** The queue right after the caller has joined it, and the table then. */
  function PutToSleep(table: seq<Entry>, pid: nat, time: u32): seq<Entry>
    requires pid < |table|
  {
    table[pid := table[pid].(timeRemaining := time, state := Sleeping)]
  }

  /** The caller's entry gets the time and the state SLEEPING, and keeps the rest; other entries stay. */
  lemma OnlyTheCallerSleeps(table: seq<Entry>, pid: nat, time: u32)
    requires pid < |table|
    ensures var after := PutToSleep(table, pid, time);
      && |after| == |table| && after[pid].timeRemaining == time && after[pid].state == Sleeping
      && after[pid].pid == table[pid].pid && after[pid].totalTicks == table[pid].totalTicks
      && after[pid].context == table[pid].context
      && forall p :: 0 <= p < |table| && p != pid ==> after[p] == table[p]
  {
  }

  /** The caller joins at the end.  If somebody wakes before the caller the whole queue is put in
      ascending order of waking time, every entry kept; otherwise it stays as it is.  The ring is
      lost if it already held its 127 entries. */
  method SleepProcess(ring: Ring, table: array<Entry>, pid: nat, time: u32)
    requires ring.Valid() && table.Length == PIDS && Pids(ring.Contents()) && pid < PIDS
    modifies ring, ring.slots, table
    ensures ring.Valid() && table[..] == PutToSleep(old(table[..]), pid, time)
    ensures |old(ring.Contents())| == SLOTS - 1 ==> ring.Contents() == []
    ensures |old(ring.Contents())| < SLOTS - 1 ==>
      var q := old(ring.Contents()) + [pid];
      && Pids(ring.Contents()) && Pids(q)
      && multiset(ring.Contents()) == multiset(q)
      && (if SomeSmaller(q, table[..], time) then Ascending(ring.Contents(), table[..])
          else ring.Contents() == q)
  {
    table[pid] := table[pid].(timeRemaining := time, state := Sleeping);
    ring.Add(pid);
    var found := WakesBefore(ring, table, pid);
    if !found {
      return;
    }
    SortRing(ring, table);
  }

  /** The early exit is taken exactly when nobody in the queue has less time than the caller. */
  lemma EarlyExitExactly(q: seq<nat>, table: seq<Entry>, pid: nat, time: u32)
    requires |table| == PIDS && Pids(q) && pid < PIDS && table[pid].timeRemaining == time
    ensures Pids(q + [pid])
    ensures !SomeSmaller(q + [pid], table, time) <==> forall k :: 0 <= k < |q| ==> table[q[k]].timeRemaining >= time
  {
    var r := q + [pid];
    assert forall k :: 0 <= k < |q| ==> r[k] == q[k];
    if !SomeSmaller(r, table, time) {
      forall k | 0 <= k < |q| ensures table[q[k]].timeRemaining >= time {
        assert table[r[k]].timeRemaining >= time;
      }
    }
  }

  /** When nobody wakes before the caller, the queue is left in ascending order exactly when
      everybody wakes at the caller's time: the early exit is taken in the wrong case. */
  lemma UnsortedExactly(q: seq<nat>, table: seq<Entry>, pid: nat, time: u32)
    requires |table| == PIDS && Pids(q) && pid < PIDS && table[pid].timeRemaining == time
    requires !SomeSmaller(q + [pid], table, time)
    ensures Ascending(q + [pid], table) <==>
      forall k :: 0 <= k < |q| ==> table[q[k]].timeRemaining == time
  {
    var r := q + [pid];
    assert forall k :: 0 <= k < |q| ==> r[k] == q[k];
    assert r[|q|] == pid;
    if Ascending(r, table) {
      forall k | 0 <= k < |q| ensures table[q[k]].timeRemaining == time {
        assert table[r[k]].timeRemaining <= table[r[|q|]].timeRemaining;
      }
    }
  }
}
