/** The ELF64 segment loader of stage2.asm. */
module ElfLoader {
  import opened Machine
  import opened Memory

  /** start_of_kernel: where the boot sector has put the kernel file. */
  const IMAGE: nat := 0x402000
  const PT_LOAD: nat := 1

  /** The n bytes at `at` as a little-endian number. */
  function Word(mem: seq<u8>, at: nat, n: nat): nat
    requires at + n <= |mem|
    decreases |mem| - at
  {
    if n == 0 then 0 else mem[at] as int + 0x100 * Word(mem, at + 1, n - 1)
  }

  ghost predicate SameBytes(a: seq<u8>, b: seq<u8>, at: nat, n: nat) {
    |a| == |b| && at + n <= |a| && forall i :: at <= i < at + n ==> a[i] == b[i]
  }

  lemma {:induction false} WordSame(a: seq<u8>, b: seq<u8>, at: nat, n: nat)
    requires SameBytes(a, b, at, n)
    ensures Word(a, at, n) == Word(b, at, n)
    decreases n
  {
    if n > 0 {
      WordSame(a, b, at + 1, n - 1);
    }
  }

  /** Elf64_Phdr, as far as the loader reads it. */
  datatype Header = Header(kind: nat, offset: nat, paddr: nat, filesz: nat, memsz: nat)

  const HEADER_SIZE: nat := 56

  function HeaderAt(mem: seq<u8>, at: nat): Header
    requires at + HEADER_SIZE <= |mem|
  {
    Header(Word(mem, at, 4), Word(mem, at + 8, 8), Word(mem, at + 24, 8), Word(mem, at + 32, 8), Word(mem, at + 40, 8))
  }

  /** The program header table as the file header at IMAGE describes it. */
  datatype Table = Table(at: nat, stride: nat, count: nat)

  function TableOf(mem: seq<u8>): Table
    requires IMAGE + 64 <= |mem|
  {
    Table(IMAGE + Word(mem, IMAGE + 32, 8), Word(mem, IMAGE + 54, 2), Word(mem, IMAGE + 56, 2))
  }

  function EntryAt(t: Table, k: nat): nat {
    t.at + k * t.stride
  }

  /** The extent of memory a segment is written to. */
  function Extent(h: Header): nat {
    if h.kind != PT_LOAD then 0 else if h.filesz > h.memsz then h.filesz else h.memsz
  }

  /** The segment lies in memory outside the kernel file, and its bytes are in the file. */
  predicate Placed(h: Header, memory: nat, size: nat) {
    h.kind == PT_LOAD ==>
      && h.paddr + Extent(h) <= memory
      && (h.paddr + Extent(h) <= IMAGE || IMAGE + size <= h.paddr)
      && h.offset + h.filesz <= size
  }

  /** A kernel file of `size` bytes whose header table and segments are where the loader can work. */
  ghost predicate Loadable(mem: seq<u8>, size: nat) {
    && 64 <= size && IMAGE + size <= |mem|
    && var t := TableOf(mem);
      && t.count > 0
      && forall k :: 0 <= k < t.count ==>
           && EntryAt(t, k) + HEADER_SIZE <= IMAGE + size
           && Placed(HeaderAt(mem, EntryAt(t, k)), |mem|, size)
  }

  /** Memory byte a once segment h has been loaded: its file bytes, then zeros; `before` elsewhere. */
  function SegmentByte(mem: seq<u8>, h: Header, a: nat, before: u8): u8
    requires h.kind == PT_LOAD ==> IMAGE + h.offset + h.filesz <= |mem|
  {
    if h.kind != PT_LOAD then before
    else if h.paddr <= a < h.paddr + h.filesz then mem[IMAGE + h.offset + (a - h.paddr)]
    else if h.paddr <= a < h.paddr + h.memsz then 0
    else before
  }

  /** Memory byte a after the first n table entries: the last segment that covers it decides. */
  ghost function ByteAfter(mem: seq<u8>, size: nat, n: nat, a: nat): u8
    requires Loadable(mem, size) && n <= TableOf(mem).count && a < |mem|
  {
    if n == 0 then mem[a]
    else
      var at := EntryAt(TableOf(mem), n - 1);
      SegmentByte(mem, HeaderAt(mem, at), a, ByteAfter(mem, size, n - 1, a))
  }

  /** rep stosb with al = 0. */
  method Clear(mem: array<u8>, at: nat, n: nat)
    requires at + n <= mem.Length
    modifies mem
    ensures forall a :: 0 <= a < mem.Length ==> mem[a] == if at <= a < at + n then 0 else old(mem[a])
  {
    for i := 0 to n
      invariant forall a :: 0 <= a < mem.Length ==> mem[a] == if at <= a < at + i then 0 else old(mem[a])
    {
      mem[at + i] := 0;
    }
  }

  /** process_header_entry: only PT_LOAD entries do anything. */
  method ProcessHeader(mem: array<u8>, at: nat, ghost size: nat)
    requires at + HEADER_SIZE <= mem.Length && IMAGE + size <= mem.Length
    requires Placed(HeaderAt(mem[..], at), mem.Length, size)
    modifies mem
    ensures forall a :: 0 <= a < mem.Length ==> 
      mem[a] == SegmentByte(old(mem[..]), HeaderAt(old(mem[..]), at), a, old(mem[a]))
    ensures SameBytes(old(mem[..]), mem[..], IMAGE, size)
  {
    var h := HeaderAt(mem[..], at);
    if h.kind != 1 {
      return;
    }
    Clear(mem, h.paddr, h.memsz);
    RepMovsb(mem, h.paddr, IMAGE + h.offset, h.filesz);
  }

  lemma HeaderSame(a: seq<u8>, b: seq<u8>, at: nat, size: nat)
    requires SameBytes(a, b, IMAGE, size) && IMAGE <= at && at + HEADER_SIZE <= IMAGE + size
    ensures HeaderAt(a, at) == HeaderAt(b, at)
  {
    WordSame(a, b, at, 4);
    WordSame(a, b, at + 8, 8);
    WordSame(a, b, at + 24, 8);
    WordSame(a, b, at + 32, 8);
    WordSame(a, b, at + 40, 8);
  }

  lemma NextEntry(t: Table, k: nat)
    ensures EntryAt(t, k + 1) == EntryAt(t, k) + t.stride
  {
    assert (k + 1) * t.stride == k * t.stride + t.stride;
  }

  /** Memory once the first n entries have been processed, the kernel file being untouched. */
  ghost predicate LoadedUpTo(start: seq<u8>, now: seq<u8>, size: nat, n: nat)
    requires Loadable(start, size) && n <= TableOf(start).count
  {
    && SameBytes(start, now, IMAGE, size)
    && forall a :: 0 <= a < |start| ==> now[a] == ByteAfter(start, size, n, a)
  }

  lemma EntryLoaded(start: seq<u8>, before: seq<u8>, after: seq<u8>, size: nat, n: nat)
    requires Loadable(start, size) && n < TableOf(start).count && |after| == |start|
    requires LoadedUpTo(start, before, size, n) && SameBytes(before, after, IMAGE, size)
    requires var h := HeaderAt(start, EntryAt(TableOf(start), n));
      forall a :: 0 <= a < |start| ==> after[a] == SegmentByte(before, h, a, before[a])
    ensures LoadedUpTo(start, after, size, n + 1)
  {
    var h := HeaderAt(start, EntryAt(TableOf(start), n));
    assert Placed(h, |start|, size);
    forall a | 0 <= a < |start| ensures after[a] == ByteAfter(start, size, n + 1, a) {
      assert after[a] == SegmentByte(before, h, a, before[a]);
    }
  }

  lemma EntryFits(start: seq<u8>, size: nat, n: nat)
    requires Loadable(start, size) && n < TableOf(start).count
    ensures var at := EntryAt(TableOf(start), n);
      IMAGE <= at && at + HEADER_SIZE <= IMAGE + size && Placed(HeaderAt(start, at), |start|, size)
  {
  }

  method LoadEntry(mem: array<u8>, rsi: nat, ghost start: seq<u8>, ghost size: nat, ghost n: nat)
    requires Loadable(start, size) && n < TableOf(start).count && rsi == EntryAt(TableOf(start), n)
    requires LoadedUpTo(start, mem[..], size, n)
    modifies mem
    ensures LoadedUpTo(start, mem[..], size, n + 1)
  {
    ghost var before := mem[..];
    EntryFits(start, size, n);
    HeaderSame(start, before, rsi, size);
    ProcessHeader(mem, rsi, size);
    EntryLoaded(start, before, mem[..], size, n);
  }

  /** .ph_loop: every table entry in turn.  The loop instruction tests after the body, hence the
      table must not be empty. */
  method LoadKernel(mem: array<u8>, ghost size: nat)
    requires Loadable(mem[..], size)
    modifies mem
    ensures LoadedUpTo(old(mem[..]), mem[..], size, TableOf(old(mem[..])).count)
  {
    var t := TableOf(mem[..]);
    var rsi, rcx := t.at, t.count;
    ghost var start, n := mem[..], 0;
    while true
      invariant n + rcx == t.count && 0 < rcx && rsi == EntryAt(t, n)
      invariant LoadedUpTo(start, mem[..], size, n)
      decreases rcx
    {
      LoadEntry(mem, rsi, start, size, n);
      NextEntry(t, n);
      rsi := rsi + t.stride;
      rcx := rcx - 1;
      n := n + 1;
      if rcx == 0 {
        break;
      }
    }
  }

  /** No memory byte belongs to two segments. */
  ghost predicate SegmentsDisjoint(mem: seq<u8>, size: nat)
    requires Loadable(mem, size)
  {
    forall j, k :: 0 <= j < k < TableOf(mem).count ==>
      var g, h := HeaderAt(mem, EntryAt(TableOf(mem), j)), HeaderAt(mem, EntryAt(TableOf(mem), k));
      g.kind == PT_LOAD == h.kind ==> g.paddr + Extent(g) <= h.paddr || h.paddr + Extent(h) <= g.paddr
  }

  ghost predicate Covers(mem: seq<u8>, size: nat, k: nat, a: nat)
    requires Loadable(mem, size) && k < TableOf(mem).count
  {
    var h := HeaderAt(mem, EntryAt(TableOf(mem), k));
    h.kind == PT_LOAD && h.paddr <= a < h.paddr + Extent(h)
  }

  /** An entry that does not cover a byte leaves it as it is; one that does decides it. */
  lemma EntryDecides(mem: seq<u8>, size: nat, n: nat, a: nat)
    requires Loadable(mem, size) && n < TableOf(mem).count && a < |mem|
    ensures !Covers(mem, size, n, a) ==> ByteAfter(mem, size, n + 1, a) == ByteAfter(mem, size, n, a)
    ensures Covers(mem, size, n, a) ==> IsSegmentByte(mem, size, n, a, ByteAfter(mem, size, n + 1, a))
  {
    assert Placed(HeaderAt(mem, EntryAt(TableOf(mem), n)), |mem|, size);
  }

  /** b is what entry k says about byte a: a byte of the file, or zero behind the file's bytes. */
  ghost predicate IsSegmentByte(mem: seq<u8>, size: nat, k: nat, a: nat, b: u8)
    requires Loadable(mem, size) && k < TableOf(mem).count
  {
    var h := HeaderAt(mem, EntryAt(TableOf(mem), k));
    h.paddr <= a && b == if a < h.paddr + h.filesz && IMAGE + h.offset + (a - h.paddr) < |mem|
                         then mem[IMAGE + h.offset + (a - h.paddr)] else 0
  }

  lemma {:induction false} UncoveredUnchanged(mem: seq<u8>, size: nat, n: nat, a: nat)
    requires Loadable(mem, size) && n <= TableOf(mem).count && a < |mem|
    requires forall k :: 0 <= k < n ==> !Covers(mem, size, k, a)
    ensures ByteAfter(mem, size, n, a) == mem[a]
    decreases n
  {
    if n > 0 {
      EntryDecides(mem, size, n - 1, a);
      UncoveredUnchanged(mem, size, n - 1, a);
    }
  }

  lemma OnlyOneCovers(mem: seq<u8>, size: nat, j: nat, k: nat, a: nat)
    requires Loadable(mem, size) && SegmentsDisjoint(mem, size)
    requires j < k < TableOf(mem).count && Covers(mem, size, j, a)
    ensures !Covers(mem, size, k, a)
  {
  }

  lemma {:induction false} CoveredByOne(mem: seq<u8>, size: nat, k: nat, n: nat, a: nat)
    requires Loadable(mem, size) && SegmentsDisjoint(mem, size)
    requires k < n <= TableOf(mem).count && a < |mem| && Covers(mem, size, k, a)
    ensures IsSegmentByte(mem, size, k, a, ByteAfter(mem, size, n, a))
    decreases n
  {
    EntryDecides(mem, size, n - 1, a);
    if k < n - 1 {
      OnlyOneCovers(mem, size, k, n - 1, a);
      CoveredByOne(mem, size, k, n - 1, a);
    }
  }

  /** With disjoint segments every byte of every segment ends up as that segment says: the file's
      bytes first, zeros behind them; all other memory is as it was. */
  lemma SegmentsLoaded(mem: seq<u8>, size: nat, k: nat, n: nat, a: nat)
    requires Loadable(mem, size) && SegmentsDisjoint(mem, size)
    requires k < n <= TableOf(mem).count && a < |mem| && Covers(mem, size, k, a)
    ensures var h := HeaderAt(mem, EntryAt(TableOf(mem), k));
      && h.paddr <= a && IMAGE + h.offset + h.filesz <= |mem|
      && ByteAfter(mem, size, n, a) ==
           if a < h.paddr + h.filesz then mem[IMAGE + h.offset + (a - h.paddr)] else 0
  {
    assert Placed(HeaderAt(mem, EntryAt(TableOf(mem), k)), |mem|, size);
    CoveredByOne(mem, size, k, n, a);
  }

  // --- The file, byte by byte ---

  /** Little-endian numbers of 2, 4 and 8 bytes. */
  function Two(mem: seq<u8>, at: nat): nat
    requires at + 2 <= |mem|
  {
    mem[at] as int + 0x100 * mem[at + 1] as int
  }

  function Four(mem: seq<u8>, at: nat): nat
    requires at + 4 <= |mem|
  {
    Two(mem, at) + 0x1_0000 * Two(mem, at + 2)
  }

  function Eight(mem: seq<u8>, at: nat): nat
    requires at + 8 <= |mem|
  {
    Four(mem, at) + 0x1_0000_0000 * Four(mem, at + 4)
  }

  lemma TwoBytes(mem: seq<u8>, at: nat)
    requires at + 2 <= |mem|
    ensures Word(mem, at, 2) == Two(mem, at)
  {
    assert Word(mem, at + 1, 1) == mem[at + 1] as int + 0x100 * Word(mem, at + 2, 0);
  }

  lemma {:induction false} WordJoins(mem: seq<u8>, at: nat, n: nat, m: nat)
    requires n in {2, 4} && at + n + m <= |mem|
    ensures Word(mem, at, n + m) == Word(mem, at, n) + (if n == 2 then 0x1_0000 else 0x1_0000_0000) * Word(mem, at + n, m)
    decreases n
  {
    assert Word(mem, at, n + m) == mem[at] as int + 0x100 * Word(mem, at + 1, n + m - 1);
    assert Word(mem, at + 1, n + m - 1) == mem[at + 1] as int + 0x100 * Word(mem, at + 2, n + m - 2);
    if n == 2 {
      TwoBytes(mem, at);
    } else {
      WordJoins(mem, at, 2, m + 2);
      WordJoins(mem, at, 2, 2);
      WordJoins(mem, at + 2, 2, m);
    }
  }

  lemma FourAndEight(mem: seq<u8>, at: nat)
    ensures at + 4 <= |mem| ==> Word(mem, at, 4) == Four(mem, at)
    ensures at + 8 <= |mem| ==> Word(mem, at, 8) == Eight(mem, at)
  {
    if at + 4 <= |mem| {
      TwoBytes(mem, at);
      TwoBytes(mem, at + 2);
      WordJoins(mem, at, 2, 2);
    }
    if at + 8 <= |mem| {
      TwoBytes(mem, at + 4);
      TwoBytes(mem, at + 6);
      WordJoins(mem, at + 4, 2, 2);
      WordJoins(mem, at, 4, 4);
    }
  }

  /** Where the program header table is, and where its entries keep what the loader reads. */
  lemma FileLayout(mem: seq<u8>, at: nat)
    requires 0x402000 + 64 <= |mem| && at + 56 <= |mem|
    ensures TableOf(mem) == Table(0x402000 + Eight(mem, 0x402020), Two(mem, 0x402036), Two(mem, 0x402038))
    ensures HeaderAt(mem, at)
         == Header(Four(mem, at), Eight(mem, at + 8), Eight(mem, at + 24), Eight(mem, at + 32), Eight(mem, at + 40))
  {
    FourAndEight(mem, 0x402020);
    TwoBytes(mem, 0x402036);
    TwoBytes(mem, 0x402038);
    FourAndEight(mem, at);
    FourAndEight(mem, at + 8);
    FourAndEight(mem, at + 24);
    FourAndEight(mem, at + 32);
    FourAndEight(mem, at + 40);
  }

  /** Which bytes an entry is about: only type 1 is loaded, to its physical address, for the larger of
      its two sizes. */
  lemma CoversExactly(mem: seq<u8>, size: nat, k: nat, a: nat, at: nat)
    requires Loadable(mem, size) && k < Two(mem, 0x402038)
    requires at == 0x402000 + Eight(mem, 0x402020) + k * Two(mem, 0x402036) && at + 56 <= |mem|
    ensures k < TableOf(mem).count
    ensures Covers(mem, size, k, a) <==>
      && Four(mem, at) == 1 && Eight(mem, at + 24) <= a
      && (a < Eight(mem, at + 24) + Eight(mem, at + 32) || a < Eight(mem, at + 24) + Eight(mem, at + 40))
  {
    FileLayout(mem, at);
  }
}
