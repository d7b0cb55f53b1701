/** Address-translation CSR fields (src/h_extension/csrs.rs). */
module Csrs {
  import opened Bits

  const SV39X4: nat := 8
  const SV39: nat := 8
  const SV57: nat := 10

  /** The value written by `hgatp::set`. */
  function HgatpSet(mode: nat, vmid: nat, ppn: nat): nat {
    Or(Or(Shl(And(0xF, mode), 60), Shl(And(0x3FFF, vmid), 44)), And(0x0FFF_FFFF_FFFF, ppn))
  }

  function HgatpMode(hgatp: nat): nat {
    And(Shr(hgatp, 60), 0xF)
  }

  /** `ppn` of hgatp and of vsatp: the low 44 bits. */
  function AtpPpn(atp: nat): nat {
    And(atp, 0xFFF_FFFF_FFFF)
  }

  function VsatpMode(vsatp: nat): nat {
    Shr(vsatp, 60)
  }

  lemma {:induction false} AndCommutes(x: nat, y: nat)
    ensures And(x, y) == And(y, x)
  {
    if x != 0 && y != 0 { AndCommutes(x / 2, y / 2); }
  }

  lemma AtpPpnMeaning(atp: nat)
    ensures AtpPpn(atp) == atp % 0x1000_0000_0000
  {
    hide And;
    Pow2Table();
    AndMask(atp, 44);
  }

  /** The fields of vsatp: mode in the top four bits, page number in the low 44. */
  lemma VsatpFields(vsatp: nat)
    ensures VsatpMode(vsatp) == vsatp / 0x1000_0000_0000_0000
    ensures AtpPpn(vsatp) == vsatp % 0x1000_0000_0000
  {
    hide And;
    Pow2Table();
    AtpPpnMeaning(vsatp);
  }

  /** The layout of hgatp. */
  lemma FieldsOf(mode: nat, vmid: nat, ppn: nat)
    requires mode < 16 && vmid < 0x4000 && ppn < 0x1000_0000_0000
    ensures HgatpSet(mode, vmid, ppn) == (mode * 0x1_0000 + vmid) * 0x1000_0000_0000 + ppn
  {
    hide And, Or;
    Pow2Table();
    assert Pow2(4) == 16 && Pow2(14) == 0x4000;
    AndCommutes(0xF, mode);
    AndMask(mode, 4);
    AndCommutes(0x3FFF, vmid);
    AndMask(vmid, 14);
    AndCommutes(0x0FFF_FFFF_FFFF, ppn);
    AndMask(ppn, 44);
    assert Shl(mode, 60) == mode * 0x1000_0000_0000_0000;
    assert Shl(vmid, 44) == vmid * 0x1000_0000_0000;
    OrDisjoint(mode, 60, vmid * 0x1000_0000_0000);
    OrDisjoint(mode * 0x1_0000 + vmid, 44, ppn);
  }

  /** The mode and page number that `hgatp::set` stores are the ones read back. */
  lemma HgatpRoundTrip(mode: nat, vmid: nat, ppn: nat)
    requires mode < 16 && vmid < 0x4000 && ppn < 0x1000_0000_0000
    ensures HgatpMode(HgatpSet(mode, vmid, ppn)) == mode
    ensures AtpPpn(HgatpSet(mode, vmid, ppn)) == ppn
  {
    hide And, Or, HgatpSet;
    FieldsOf(mode, vmid, ppn);
    var h := HgatpSet(mode, vmid, ppn);
    Pow2Table();
    assert Pow2(4) == 16;
    AtpPpnMeaning(h);
    DivModUnique(h, 0x1000_0000_0000, mode * 0x1_0000 + vmid, ppn);
    DivModUnique(h, 0x1000_0000_0000_0000, mode, vmid * 0x1000_0000_0000 + ppn);
    AndMask(mode, 4);
  }
}
