/** The 128-slot ring of process.c.  The indices alone tell a full ring from an empty one, so only
    127 slots are usable. */
module RunQueue {
  import opened Machine

  const SLOTS: nat := 128

  /** The number of entries between two indices, and the slot of the k-th of them. */
  function Length(head: nat, tail: nat): nat
    requires head < SLOTS && tail < SLOTS
  {
    if head <= tail then tail - head else tail + 128 - head
  }

  function Slot(head: nat, k: nat): nat
    requires head < SLOTS && k < SLOTS
  {
    if head + k < 128 then head + k else head + k - 128
  }

  /** The entries from head to tail, oldest first. */
  function Entries(slots: seq<u16>, head: nat, tail: nat): (q: seq<nat>)
    requires |slots| == SLOTS && head < SLOTS && tail < SLOTS
  {
    seq(Length(head, tail), (k: nat) requires k < Length(head, tail) => slots[Slot(head, k)])
  }

  class Ring {
    const slots: array<u16>
    var head: nat
    var tail: nat

    ghost predicate Valid()
      reads this
    {
      slots.Length == SLOTS && head < SLOTS && tail < SLOTS
    }

    ghost function Contents(): seq<nat>
      requires Valid()
      reads this, slots
    {
      Entries(slots[..], head, tail)
    }

    constructor ()
      ensures Valid() && Contents() == [] && fresh(slots)
    {
      slots := new u16[SLOTS](_ => 0);
      head, tail := 0, 0;
    }

    /** Appends pid while fewer than 127 entries wait; the 128th entry makes the ring read as empty. */
    method Add(pid: u16)
      requires Valid()
      modifies this, slots
      ensures Valid() && head == old(head)
      ensures |old(Contents())| < SLOTS - 1 ==> Contents() == old(Contents()) + [pid]
      ensures |old(Contents())| == SLOTS - 1 ==> Contents() == []
    {
      slots[tail] := pid;
      tail := (tail + 1) % 128;
    }

    /** Takes the oldest entry; an empty ring yields 0, the idle process. */
    method Next() returns (pid: u16)
      requires Valid()
      modifies this
      ensures Valid() && tail == old(tail)
      ensures old(Contents()) == [] ==> pid == 0 && Contents() == []
      ensures old(Contents()) != [] ==> pid == old(Contents())[0] && Contents() == old(Contents())[1..]
    {
      if head == tail {
        return 0;
      }
      pid := slots[head];
      head := (head + 1) % 128;
    }
  }
}
