/** The string instruction behind memcpy and the segment loader. */
module Memory {
  import opened Arithmetic
  import opened Machine

  lemma RemainderSmall(i: nat, d: nat)
    requires d > 0
    ensures 0 <= i % d <= i && (i < d ==> i % d == i)
  {
    if i < d {
      DivModUnique(i, d, 0, i);
    }
  }

  /** Which old byte an upward copy leaves in place i: its own, unless the target begins fewer than
      i + 1 bytes above the source, when the bytes in between repeat. */
  function Origin(dest: nat, src: nat, i: nat): (r: nat)
    ensures src <= r <= src + i
    ensures !(src < dest <= src + i) ==> r == src + i
  {
    if src < dest then
      RemainderSmall(i, dest - src);
      src + i % (dest - src)
    else src + i
  }

  /** One byte further on, the copy reads what it has written before, if anything. */
  lemma OriginRepeats(dest: nat, src: nat, i: nat)
    requires src < dest <= src + i
    ensures Origin(dest, src, i) == Origin(dest, src, i - (dest - src))
  {
    ModPlus(i - (dest - src), dest - src);
  }

  /** cld; rep movsb */
  method RepMovsb(mem: array<u8>, dest: nat, src: nat, n: nat)
    requires dest + n <= mem.Length && src + n <= mem.Length
    modifies mem
    ensures forall a :: 0 <= a < mem.Length ==>
      mem[a] == if dest <= a < dest + n then old(mem[Origin(dest, src, a - dest)]) else old(mem[a])
  {
    for i := 0 to n
      invariant forall a :: 0 <= a < mem.Length ==>
        mem[a] == if dest <= a < dest + i then old(mem[Origin(dest, src, a - dest)]) else old(mem[a])
    {
      if src < dest <= src + i {
        OriginRepeats(dest, src, i);
      }
      mem[dest + i] := mem[src + i];
    }
  }
}
