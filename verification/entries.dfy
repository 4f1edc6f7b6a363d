/** The x86 32-bit paging formats used by both page-table implementations
    (section 4.3 of the Intel 64 and IA-32 Architectures Software Developer's
    Manual, Volume 3A): a directory and each page table hold 1024 32-bit
    entries, and a linear address splits into a 10-bit directory index, a
    10-bit table index and a 12-bit offset. */
module Entries {
  import opened Common

  const EntriesPerTable: nat := 1024

  /** A directory or table entry, decoded from its 32-bit word: the frame
      number is bits 31..12, bit 1 is writable and bit 0 is present. The
      source never sets bits 2..11. */
  datatype Entry = Entry(frame: nat, writable: bool, present: bool)

  /** The word 2 the source writes into every slot it marks not present. */
  const NotPresent: Entry := Entry(0, true, false)

  /** n slots, all marked not present. */
  function Blank(n: nat): (es: seq<Entry>)
    ensures |es| == n && forall i :: 0 <= i < n ==> es[i] == NotPresent
  {
    seq(n, _ => NotPresent)
  }

  /** The word `frame * PAGE_SIZE | 3`: present and writable. */
  function Install(frame: nat): Entry {
    Entry(frame, true, true)
  }

  function Encode(e: Entry): nat {
    e.frame * PageSize + (if e.writable then 2 else 0) + (if e.present then 1 else 0)
  }

  /** An entry read back from its word: the frame is the word over the page
      size, and the flags are bits 1 and 0 of its two low bits. */
  function Decode(w: nat): Entry {
    var low := w % 4;
    Entry(w / PageSize, low >= 2, low % 2 == 1)
  }

  /** The decoded form loses nothing the source writes. */
  lemma DecodeEncode(e: Entry)
    ensures Decode(Encode(e)) == e
    ensures Encode(NotPresent) == 2
    ensures Encode(Install(e.frame)) == e.frame * PageSize + 3
  {
    LowBits(e.frame, (if e.writable then 2 else 0) + (if e.present then 1 else 0));
  }

  /** The frame number and the two low bits read back from a word. */
  lemma LowBits(f: nat, low: nat)
    requires low < 4
    ensures (f * PageSize + low) / PageSize == f
    ensures (f * PageSize + low) % 4 == low
  {
    assert f * PageSize + low == 4 * (f * 1024) + low;
  }

  /** The directory index `addr >> 22` of a 32-bit address (a wider value
      is first cut to 32 bits, as the source's unsigned arithmetic does). */
  function DirIndex(a: nat): (d: nat)
    ensures d < EntriesPerTable
  {
    (a % 0x1_0000_0000) / 0x40_0000
  }

  /** The table index `(addr & 0x3FF000) >> 12`. */
  function TableIndex(a: nat): (t: nat)
    ensures t < EntriesPerTable
  {
    (a % 0x40_0000) / 0x1000
  }

  function Offset(a: nat): nat {
    a % 0x1000
  }

  /** The three fields put back together give the address again. */
  lemma {:induction false} SplitRecompose(a: nat)
    requires a < 0x1_0000_0000
    ensures a == DirIndex(a) * 0x40_0000 + TableIndex(a) * 0x1000 + Offset(a)
  {
    assert a == (a / 0x40_0000) * 0x40_0000 + a % 0x40_0000;
    assert a % 0x40_0000 == ((a % 0x40_0000) / 0x1000) * 0x1000 + (a % 0x40_0000) % 0x1000;
    assert (a % 0x40_0000) % 0x1000 == a % 0x1000 by {
      assert a == (a / 0x40_0000) * 0x40_0000 + a % 0x40_0000;
      assert (a / 0x40_0000) * 0x40_0000 == ((a / 0x40_0000) * 1024) * 0x1000;
      ModMultiple(a % 0x40_0000, (a / 0x40_0000) * 1024);
    }
  }

  lemma ModMultiple(r: nat, q: nat)
    ensures (q * 0x1000 + r) % 0x1000 == r % 0x1000
  {
  }

  /** Two 32-bit addresses select the same directory and table slots exactly
      when they lie on the same 4096-byte page. */
  lemma {:induction false} SameSlotsSamePage(a: nat, b: nat)
    requires a < 0x1_0000_0000 && b < 0x1_0000_0000
    ensures (DirIndex(a) == DirIndex(b) && TableIndex(a) == TableIndex(b))
            <==> a / PageSize == b / PageSize
  {
    SplitRecompose(a);
    SplitRecompose(b);
    PageOfSplit(a);
    PageOfSplit(b);
  }

  lemma PageOfSplit(a: nat)
    requires a < 0x1_0000_0000
    ensures a / PageSize == DirIndex(a) * 1024 + TableIndex(a)
  {
    SplitRecompose(a);
    var hi := DirIndex(a) * 1024 + TableIndex(a);
    assert a == hi * 0x1000 + Offset(a) && Offset(a) < 0x1000;
  }
}
