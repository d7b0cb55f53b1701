/** Address fields and leaf reassembly of the three translation schemes
    (sv39x4.rs, sv39.rs and sv57.rs under src/memmap/page_table). */
module Reassembly {
  import opened Bits
  import opened PageTable
  import opened GStageTree

  /** `vpn(index)` of Sv39 and Sv57 addresses. */
  function VpnField(address: nat, index: nat): (r: nat)
    requires index <= 4
  {
    match index
    case 4 => And(Shr(address, 48), 0x1ff)
    case 3 => And(Shr(address, 39), 0x1ff)
    case 2 => And(Shr(address, 30), 0x1ff)
    case 1 => And(Shr(address, 21), 0x1ff)
    case _ => And(Shr(address, 12), 0x1ff)
  }

  /** `ppn(index)` of Sv39 and Sv39x4 entries: 26, 9 and 9 bits. */
  function PpnField3(e: nat, index: nat): nat
    requires index <= 2
  {
    match index
    case 2 => And(Shr(e, 28), 0x3ff_ffff)
    case 1 => And(Shr(e, 19), 0x1ff)
    case _ => And(Shr(e, 10), 0x1ff)
  }

  /** `ppn(index)` of Sv57 entries: 8, 9, 9, 9 and 9 bits. */
  function PpnField5(e: nat, index: nat): nat
    requires index <= 4
  {
    match index
    case 4 => And(Shr(e, 46), 0x0ff)
    case 3 => And(Shr(e, 37), 0x1ff)
    case 2 => And(Shr(e, 28), 0x1ff)
    case 1 => And(Shr(e, 19), 0x1ff)
    case _ => And(Shr(e, 10), 0x1ff)
  }

  function LowFields(w: nat, a1: nat, a0: nat, offset: nat): nat {
    Or(Or(Or(w, Shl(a1, 21)), Shl(a0, 12)), offset)
  }

  /** `a2 << 30 | a1 << 21 | a0 << 12 | offset`. */
  function Glue3(a2: nat, a1: nat, a0: nat, offset: nat): nat {
    LowFields(Shl(a2, 30), a1, a0, offset)
  }

  /** `a4 << 48 | a3 << 39 | a2 << 30 | a1 << 21 | a0 << 12 | offset`. */
  function Glue5(a4: nat, a3: nat, a2: nat, a1: nat, a0: nat, offset: nat): nat {
    LowFields(Or(Or(Shl(a4, 48), Shl(a3, 39)), Shl(a2, 30)), a1, a0, offset)
  }

  /** The page-number fields of an entry or address, most significant first. */
  datatype Fields = Fields(f4: nat, f3: nat, f2: nat, f1: nat, f0: nat)

  function Vpns(address: nat): Fields {
    Fields(VpnField(address, 4), VpnField(address, 3), VpnField(address, 2), VpnField(address, 1), VpnField(address, 0))
  }

  function Ppns3(e: nat): Fields {
    Fields(0, 0, PpnField3(e, 2), PpnField3(e, 1), PpnField3(e, 0))
  }

  function Ppns5(e: nat): Fields {
    Fields(PpnField5(e, 4), PpnField5(e, 3), PpnField5(e, 2), PpnField5(e, 1), PpnField5(e, 0))
  }

  function Branch3(level: nat, p: Fields, v: Fields, o: nat): Option<nat>
    requires level <= 2
  {
    if level == 2 then
      if p.f0 != 0 || p.f1 != 0 then None else Some(Glue3(p.f2, v.f1, v.f0, o))
    else if level == 1 then
      if p.f0 != 0 then None else Some(Glue3(p.f2, p.f1, v.f0, o))
    else Some(Glue3(p.f2, p.f1, p.f0, o))
  }

  function Branch5(level: nat, p: Fields, v: Fields, o: nat): Option<nat>
    requires level <= 4
  {
    if level == 4 then
      if p.f3 != 0 || p.f2 != 0 || p.f1 != 0 || p.f0 != 0 then None
      else Some(Glue5(p.f4, v.f3, v.f2, v.f1, v.f0, o))
    else if level == 3 then
      if p.f2 != 0 || p.f1 != 0 || p.f0 != 0 then None else Some(Glue5(p.f4, p.f3, v.f2, v.f1, v.f0, o))
    else if level == 2 then
      if p.f1 != 0 || p.f0 != 0 then None else Some(Glue5(p.f4, p.f3, p.f2, v.f1, v.f0, o))
    else if level == 1 then
      if p.f0 != 0 then None else Some(Glue5(p.f4, p.f3, p.f2, p.f1, v.f0, o))
    else Some(Glue5(p.f4, p.f3, p.f2, p.f1, p.f0, o))
  }

  /** The leaf branches of the Sv39x4 and Sv39 walkers; `None` is a failed alignment `assert!`. */
  function Leaf3(level: nat, e: nat, address: nat): Option<nat>
    requires level <= 2
  {
    Branch3(level, Ppns3(e), Vpns(address), PageOffset(address))
  }

  /** The leaf branches of the Sv57 walker. */
  function Leaf5(level: nat, e: nat, address: nat): Option<nat>
    requires level <= 4
  {
    Branch5(level, Ppns5(e), Vpns(address), PageOffset(address))
  }

  /** The architecture's leaf translation: aligned leaf base plus the offset within the page. */
  function LeafTarget(level: nat, e: nat, address: nat): Option<nat>
    requires level <= 4
  {
    if Ppn(e) % Span(level) == 0 then Some(Ppn(e) * PAGE_SIZE + address % Size(level)) else None
  }

  /** Or-ing the next lower 9-bit field onto a word appends a base-512 digit. */
  lemma AppendDigit(h: nat, lo: nat, low: nat, p: nat)
    requires lo < 512 && p == Pow2(low) && 512 * p == Pow2(low + 9) <= WORD
    ensures Or(h * (512 * p), Shl(lo, low)) == (h * 512 + lo) * p
  {
    hide Or;
    DigitFits(lo, p);
    DivModUnique(lo * p, WORD, 0, lo * p);
    OrDisjoint(h, low + 9, lo * p);
    Distribute(h, lo, p);
  }

  lemma Distribute(h: nat, lo: nat, p: nat)
    ensures h * (512 * p) + lo * p == (h * 512 + lo) * p
  {
  }

  lemma DigitFits(lo: nat, p: nat)
    requires lo < 512 && p > 0
    ensures lo * p < 512 * p
  {
  }

  lemma LowFieldsSum(h: nat, a1: nat, a0: nat, offset: nat)
    requires a1 < 512 && a0 < 512 && offset < 4096
    ensures LowFields(h * 0x4000_0000, a1, a0, offset) == ((h * 512 + a1) * 512 + a0) * 4096 + offset
  {
    hide Or;
    Pow2Table();
    AppendDigit(h, a1, 21, 0x20_0000);
    AppendDigit(h * 512 + a1, a0, 12, 0x1000);
    OrDisjoint((h * 512 + a1) * 512 + a0, 12, offset);
  }

  lemma Glue3Sum(a2: nat, a1: nat, a0: nat, offset: nat)
    requires a2 < 0x400_0000 && a1 < 512 && a0 < 512 && offset < 4096
    ensures Glue3(a2, a1, a0, offset) == ((a2 * 512 + a1) * 512 + a0) * 4096 + offset
  {
    hide Or;
    Pow2Table();
    assert Shl(a2, 30) == a2 * 0x4000_0000;
    LowFieldsSum(a2, a1, a0, offset);
  }

  lemma Glue5Top(a4: nat, a3: nat, a2: nat)
    requires a4 < 256 && a3 < 512 && a2 < 512
    ensures Or(Or(Shl(a4, 48), Shl(a3, 39)), Shl(a2, 30)) == ((a4 * 512 + a3) * 512 + a2) * 0x4000_0000
  {
    hide Or;
    Pow2Table();
    assert Shl(a4, 48) == a4 * 0x1_0000_0000_0000;
    AppendDigit(a4, a3, 39, 0x80_0000_0000);
    AppendDigit(a4 * 512 + a3, a2, 30, 0x4000_0000);
  }

  lemma Glue5Sum(a4: nat, a3: nat, a2: nat, a1: nat, a0: nat, offset: nat)
    requires a4 < 256 && a3 < 512 && a2 < 512 && a1 < 512 && a0 < 512 && offset < 4096
    ensures var h := (a4 * 512 + a3) * 512 + a2;
            Glue5(a4, a3, a2, a1, a0, offset) == ((h * 512 + a1) * 512 + a0) * 4096 + offset
  {
    hide Or;
    var h := (a4 * 512 + a3) * 512 + a2;
    Glue5Top(a4, a3, a2);
    LowFieldsSum(h, a1, a0, offset);
  }

  lemma VpnFieldMeaning(address: nat)
    ensures VpnField(address, 0) == (address / 0x1000) % 512
    ensures VpnField(address, 1) == (address / 0x20_0000) % 512
    ensures VpnField(address, 2) == (address / 0x4000_0000) % 512
    ensures VpnField(address, 3) == (address / 0x80_0000_0000) % 512
    ensures VpnField(address, 4) == (address / 0x1_0000_0000_0000) % 512
  {
    hide And;
    Pow2Table();
    AndMask(address / 0x1000, 9);
    AndMask(address / 0x20_0000, 9);
    AndMask(address / 0x4000_0000, 9);
    AndMask(address / 0x80_0000_0000, 9);
    AndMask(address / 0x1_0000_0000_0000, 9);
  }

  /** `rest` is an address's offset within a page of `level`. */
  predicate Offset(level: nat, v: Fields, o: nat, rest: nat)
    requires level <= 4
  {
    && v.f3 < 512 && v.f2 < 512 && v.f1 < 512 && v.f0 < 512 && o < 4096
    && rest == match level
               case 4 => (((v.f3 * 512 + v.f2) * 512 + v.f1) * 512 + v.f0) * 4096 + o
               case 3 => ((v.f2 * 512 + v.f1) * 512 + v.f0) * 4096 + o
               case 2 => (v.f1 * 512 + v.f0) * 4096 + o
               case 1 => v.f0 * 4096 + o
               case _ => o
  }

  /** An address is its page offset and its page-number digits in base 512. */
  lemma AddressDigits(address: nat, level: nat)
    requires level <= 4
    ensures Offset(level, Vpns(address), PageOffset(address), address % Size(level))
  {
    hide And; hide Shr;
    VpnFieldMeaning(address);
    PageOffsetMeaning(address);
    Digits(address);
  }

  lemma Digits(x: nat)
    ensures x % 0x20_0000 == ((x / 0x1000) % 512) * 0x1000 + x % 0x1000
    ensures x % 0x4000_0000 == ((x / 0x20_0000) % 512) * 0x20_0000 + x % 0x20_0000
    ensures x % 0x80_0000_0000 == ((x / 0x4000_0000) % 512) * 0x4000_0000 + x % 0x4000_0000
    ensures x % 0x1_0000_0000_0000 == ((x / 0x80_0000_0000) % 512) * 0x80_0000_0000 + x % 0x80_0000_0000
  {
    DivDiv(x, 0x1000, 512);
    DivDiv(x, 0x20_0000, 512);
    DivDiv(x, 0x4000_0000, 512);
    DivDiv(x, 0x80_0000_0000, 512);
  }

  lemma PpnField3Meaning(e: nat)
    ensures PpnField3(e, 0) == (e / 1024) % 512
    ensures PpnField3(e, 1) == (e / 1024 / 512) % 512
    ensures PpnField3(e, 2) == (e / 1024 / 512 / 512) % 0x400_0000
  {
    hide And;
    DivChain(e);
    Pow2Table();
    AndMask(e / 0x400, 9);
    AndMask(e / 0x8_0000, 9);
    AndMask(e / 0x1000_0000, 26);
  }

  lemma PpnField5Meaning(e: nat)
    ensures PpnField5(e, 0) == (e / 1024) % 512
    ensures PpnField5(e, 1) == (e / 1024 / 512) % 512
    ensures PpnField5(e, 2) == (e / 1024 / 512 / 512) % 512
    ensures PpnField5(e, 3) == (e / 1024 / 512 / 512 / 512) % 512
    ensures PpnField5(e, 4) == (e / 1024 / 512 / 512 / 512 / 512) % 256
  {
    hide And;
    DivChain(e);
    Pow2Table();
    AndMask(e / 0x400, 9);
    AndMask(e / 0x8_0000, 9);
    AndMask(e / 0x1000_0000, 9);
    AndMask(e / 0x20_0000_0000, 9);
    AndMask(e / 0x4000_0000_0000, 8);
  }

  lemma DivChain(e: nat)
    ensures e / 0x8_0000 == e / 1024 / 512
    ensures e / 0x1000_0000 == e / 1024 / 512 / 512
    ensures e / 0x20_0000_0000 == e / 1024 / 512 / 512 / 512
    ensures e / 0x4000_0000_0000 == e / 1024 / 512 / 512 / 512 / 512
  {
    DivDiv(e, 1024, 512);
    DivDiv(e, 0x8_0000, 512);
    DivDiv(e, 0x1000_0000, 512);
    DivDiv(e, 0x20_0000_0000, 512);
  }

  /** One base-512 digit of a bounded remainder. */
  lemma PeelDigit(w: nat, m: nat)
    requires m > 0
    ensures w % (512 * m) == ((w / 512) % m) * 512 + w % 512
  {
    var q := w / 512;
    var h, l := q / m, q % m;
    assert q == m * h + l;
    assert (512 * m) * h == 512 * (m * h);
    DivModUnique(w, 512 * m, h, l * 512 + w % 512);
  }

  /** The page number is the concatenation of its fields, and its alignment is read off the low ones. */
  lemma PpnDigits3(e: nat)
    ensures Ppn(e) == (PpnField3(e, 2) * 512 + PpnField3(e, 1)) * 512 + PpnField3(e, 0)
    ensures PpnField3(e, 2) < 0x400_0000 && PpnField3(e, 1) < 512 && PpnField3(e, 0) < 512
  {
    hide And; hide Shr;
    PpnField3Meaning(e);
    PeelDigit(e / 1024, 0x8_0000_0000);
    PeelDigit(e / 1024 / 512, 0x400_0000);
  }

  lemma PpnDigits5(e: nat)
    ensures Ppn(e) == ((((PpnField5(e, 4) * 512 + PpnField5(e, 3)) * 512 + PpnField5(e, 2)) * 512
                        + PpnField5(e, 1)) * 512) + PpnField5(e, 0)
    ensures PpnField5(e, 4) < 256 && PpnField5(e, 3) < 512 && PpnField5(e, 2) < 512
    ensures PpnField5(e, 1) < 512 && PpnField5(e, 0) < 512
  {
    hide And; hide Shr;
    PpnField5Meaning(e);
    PeelDigit(e / 1024, 0x8_0000_0000);
    PeelDigit(e / 1024 / 512, 0x400_0000);
    PeelDigit(e / 1024 / 512 / 512, 0x2_0000);
    PeelDigit(e / 1024 / 512 / 512 / 512, 0x100);
  }

  /** Alignment and base of a page number cut below its `hi` part. */
  lemma Aligned(p: nat, span: nat, hi: nat, low: nat)
    requires span > 0 && low < span && p == hi * span + low
    ensures p % span == low
  {
    DivModUnique(p, span, hi, low);
  }

  lemma Branch3Meaning(level: nat, p: Fields, v: Fields, o: nat, ppn: nat, rest: nat)
    requires level <= 2 && Offset(level, v, o, rest)
    requires p.f2 < 0x400_0000 && p.f1 < 512 && p.f0 < 512 && ppn == (p.f2 * 512 + p.f1) * 512 + p.f0
    ensures Branch3(level, p, v, o) == if ppn % Span(level) == 0 then Some(ppn * PAGE_SIZE + rest) else None
  {
    hide Or; hide And; hide Shl; hide Shr;
    if level == 2 {
      Aligned(ppn, 0x4_0000, p.f2, p.f1 * 512 + p.f0);
      Glue3Sum(p.f2, v.f1, v.f0, o);
    } else if level == 1 {
      Aligned(ppn, 512, p.f2 * 512 + p.f1, p.f0);
      Glue3Sum(p.f2, p.f1, v.f0, o);
    } else {
      Glue3Sum(p.f2, p.f1, p.f0, o);
    }
  }

  lemma Branch5Meaning(level: nat, p: Fields, v: Fields, o: nat, ppn: nat, rest: nat)
    requires level <= 4 && Offset(level, v, o, rest)
    requires p.f4 < 256 && p.f3 < 512 && p.f2 < 512 && p.f1 < 512 && p.f0 < 512
    requires ppn == (((p.f4 * 512 + p.f3) * 512 + p.f2) * 512 + p.f1) * 512 + p.f0
    ensures Branch5(level, p, v, o) == if ppn % Span(level) == 0 then Some(ppn * PAGE_SIZE + rest) else None
  {
    hide Or; hide And; hide Shl; hide Shr;
    if level == 4 {
      Aligned(ppn, 0x10_0000_0000, p.f4, ((p.f3 * 512 + p.f2) * 512 + p.f1) * 512 + p.f0);
      Glue5Sum(p.f4, v.f3, v.f2, v.f1, v.f0, o);
    } else if level == 3 {
      Aligned(ppn, 0x800_0000, p.f4 * 512 + p.f3, (p.f2 * 512 + p.f1) * 512 + p.f0);
      Glue5Sum(p.f4, p.f3, v.f2, v.f1, v.f0, o);
    } else if level == 2 {
      Aligned(ppn, 0x4_0000, (p.f4 * 512 + p.f3) * 512 + p.f2, p.f1 * 512 + p.f0);
      Glue5Sum(p.f4, p.f3, p.f2, v.f1, v.f0, o);
    } else if level == 1 {
      Aligned(ppn, 512, ((p.f4 * 512 + p.f3) * 512 + p.f2) * 512 + p.f1, p.f0);
      Glue5Sum(p.f4, p.f3, p.f2, p.f1, v.f0, o);
    } else {
      Glue5Sum(p.f4, p.f3, p.f2, p.f1, p.f0, o);
    }
  }

  /** Sv39x4 and Sv39: every leaf branch computes the architecture's target, and its `assert!`s fail
      exactly on a misaligned superpage. */
  lemma Leaf3Meaning(level: nat, e: nat, address: nat)
    requires level <= 2
    ensures Leaf3(level, e, address) == LeafTarget(level, e, address)
  {
    hide Or; hide And; hide Shl; hide Shr;
    PpnDigits3(e);
    AddressDigits(address, level);
    Branch3Meaning(level, Ppns3(e), Vpns(address), PageOffset(address), Ppn(e), address % Size(level));
  }

  /** The same for Sv57. */
  lemma Leaf5Meaning(level: nat, e: nat, address: nat)
    requires level <= 4
    ensures Leaf5(level, e, address) == LeafTarget(level, e, address)
  {
    hide Or; hide And; hide Shl; hide Shr;
    PpnDigits5(e);
    AddressDigits(address, level);
    Branch5Meaning(level, Ppns5(e), Vpns(address), PageOffset(address), Ppn(e), address % Size(level));
  }
}
