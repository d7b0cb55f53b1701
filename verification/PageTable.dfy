/** Page-table entries and levels (src/memmap/page_table.rs).

    `Ppn`, `V`, `R`, `W`, `X` and `Flags` read an entry as the privileged architecture lays it
    out; the other functions are the source's bit expressions. */
module PageTable {
  import opened Bits

  const PAGE_SIZE: nat := 4096
  const PAGE_TABLE_LEN: nat := 512

  /** Number of physical page numbers (44 bits), and the end of physical memory (56 bits). */
  const PPN_LIMIT: nat := 0x1000_0000_0000
  const PHYS_LIMIT: nat := 0x100_0000_0000_0000

  const VALID: nat := 0x01
  const READ: nat := 0x02
  const WRITE: nat := 0x04
  const EXEC: nat := 0x08
  const USER: nat := 0x10
  const ACCESSED: nat := 0x40
  const DIRTY: nat := 0x80

  /** Bytes mapped by one entry of a level-`level` table. */
  function Size(level: nat): nat
    requires level <= 4
  {
    match level
    case 4 => 0x1_0000_0000_0000
    case 3 => 0x80_0000_0000
    case 2 => 0x4000_0000
    case 1 => 0x20_0000
    case _ => 0x1000
  }

  /** 4 KiB pages mapped by one entry of a level-`level` table. */
  function Span(level: nat): (s: nat)
    requires level <= 4
    ensures s > 0
    ensures s * PAGE_SIZE == Size(level)
  {
    match level
    case 4 => 0x10_0000_0000
    case 3 => 0x800_0000
    case 2 => 0x4_0000
    case 1 => 0x200
    case _ => 1
  }

  // The architecture's reading of an entry.

  function Ppn(e: nat): nat { (e / 1024) % PPN_LIMIT }
  function Flags(e: nat): nat { e % 256 }
  predicate V(e: nat) { e % 2 == 1 }
  predicate R(e: nat) { (e / 2) % 2 == 1 }
  predicate W(e: nat) { (e / 4) % 2 == 1 }
  predicate X(e: nat) { (e / 8) % 2 == 1 }
  predicate U(e: nat) { (e / 16) % 2 == 1 }
  predicate A(e: nat) { (e / 64) % 2 == 1 }
  predicate D(e: nat) { (e / 128) % 2 == 1 }
  predicate LeafEntry(e: nat) { V(e) && (R(e) || W(e) || X(e)) }
  predicate PointerEntry(e: nat) { V(e) && !R(e) && !W(e) && !X(e) }

  /** A leaf the G-stage accepts: no reserved permissions, and open to user accesses, as which all accesses
      of the guest count. */
  predicate GuestLeaf(e: nat)
    ensures GuestLeaf(e) ==> LeafEntry(e)
  {
    LeafEntry(e) && U(e) && (W(e) ==> R(e))
  }

  // The source's bit expressions.

  function NewEntry(ppn: nat, flags: nat): nat {
    Or(Shl(ppn, 10), flags)
  }

  predicate IsLeaf(e: nat) {
    var r := And(Shr(e, 1), 0x1);
    var w := And(Shr(e, 2), 0x1);
    var x := And(Shr(e, 3), 0x1);
    r == 1 || x == 1 || (r == 0 && w == 1 && x == 0)
  }

  predicate AlreadyCreated(e: nat) {
    And(e, VALID) == 1
  }

  function EntirePpn(e: nat): nat {
    And(Shr(e, 10), 0xfff_ffff_ffff)
  }

  function PageOffset(address: nat): nat {
    And(address, 0xfff)
  }

  /** The source's decoders agree with the architecture's layout on every 64-bit entry. */
  lemma DecodeMeaning(e: nat)
    ensures AlreadyCreated(e) <==> V(e)
    ensures IsLeaf(e) <==> R(e) || W(e) || X(e)
    ensures EntirePpn(e) == Ppn(e)
  {
    AndMask(e, 1);
    AndMask(e / 2, 1);
    AndMask(e / 4, 1);
    AndMask(e / 8, 1);
    AndMask(e / 1024, 44);
    Pow2Table();
  }

  lemma PageOffsetMeaning(address: nat)
    ensures PageOffset(address) == address % PAGE_SIZE
  {
    AndMask(address, 12);
    Pow2Table();
  }

  /** Bit `i` of the flags byte, where `d` is 2^i and `m` is 1024 / d. */
  lemma FlagBit(ppn: nat, flags: nat, d: nat, m: nat)
    requires d > 0 && d * m == 1024 && m % 2 == 0
    ensures ((ppn * 1024 + flags) / d) % 2 == (flags / d) % 2
  {
    var q := ppn * m + flags / d;
    assert d * q == ppn * (d * m) + d * (flags / d);
    DivModUnique(ppn * 1024 + flags, d, q, flags % d);
    var h := ppn * (m / 2);
    assert ppn * m == 2 * h;
  }

  lemma Layout(ppn: nat, flags: nat)
    requires ppn < PPN_LIMIT && flags < 256
    ensures var e := ppn * 1024 + flags;
            && Ppn(e) == ppn && Flags(e) == flags
            && (V(e) <==> V(flags)) && (R(e) <==> R(flags)) && (W(e) <==> W(flags)) && (X(e) <==> X(flags))
  {
    var e := ppn * 1024 + flags;
    DivModUnique(e, 1024, ppn, flags);
    DivModUnique(e, 256, ppn * 4, flags);
    FlagBit(ppn, flags, 1, 1024);
    FlagBit(ppn, flags, 2, 512);
    FlagBit(ppn, flags, 4, 256);
    FlagBit(ppn, flags, 8, 128);
  }

  lemma ZeroBits()
    ensures !R(0) && !W(0) && !X(0)
  {
  }

  lemma ZeroDecoded()
    ensures !AlreadyCreated(0) && !IsLeaf(0) && EntirePpn(0) == 0
  {
    DecodeMeaning(0);
  }

  lemma ZeroEntry()
    ensures !V(0) && !LeafEntry(0) && !PointerEntry(0)
  {
  }

  /** Encoding then decoding an entry returns the page number and every flag. */
  lemma EncodeRoundTrip(ppn: nat, flags: nat)
    requires ppn < PPN_LIMIT && flags < 256
    ensures var e := NewEntry(ppn, flags);
            && e < WORD && e == ppn * 1024 + flags
            && Ppn(e) == ppn && Flags(e) == flags
            && (V(e) <==> V(flags)) && (R(e) <==> R(flags)) && (W(e) <==> W(flags)) && (X(e) <==> X(flags))
  {
    Pow2Table();
    assert Shl(ppn, 10) == ppn * 1024;
    OrDisjoint(ppn, 10, flags);
    Layout(ppn, flags);
  }

  /** A table pointer decodes to the address that was stored exactly when that address is page aligned. */
  lemma PointerRoundTrip(address: nat)
    requires address < PHYS_LIMIT
    ensures EntirePpn(NewEntry(address / PAGE_SIZE, VALID)) * PAGE_SIZE == address <==> address % PAGE_SIZE == 0
    ensures PointerEntry(NewEntry(address / PAGE_SIZE, VALID))
  {
    hide NewEntry, EntirePpn, AlreadyCreated, IsLeaf;
    EncodeRoundTrip(address / PAGE_SIZE, VALID);
    DecodeMeaning(NewEntry(address / PAGE_SIZE, VALID));
  }
}
