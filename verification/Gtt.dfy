/** The i810 family's translation table (agp_i810.c): packed entries, and the page-wise bind and unbind. */
module Gtt {
  datatype Chip = I810 | I830 | I855 | I915 | I965 | G33 | G4X | SNB

  const AGP_PAGE_SIZE := 4096
  const EINVAL := 22
  const INTEL_COHERENT: bv64 := 0x6

  datatype Packed = None | Some(value: bv32)

  // ------------------------------------------------------------------ table entries

  predicate LowClear(v: bv64) { v & 0xff0 == 0 }
  predicate Below40(v: bv64) { v >> 40 == 0 }
  predicate Below36(v: bv64) { v >> 36 == 0 }
  predicate Below32(v: bv64) { v >> 32 == 0 }

  /** The table entry agp_i810_write_gtt_entry stores for v, or None where it returns EINVAL.
      `wide`: bus_addr_t is wider than 32 bits. */
  function Encode(chip: Chip, wide: bool, v: bv64): Packed {
    if !LowClear(v) then None
    else
      if !wide then Some(Pack32(v))
      else if chip.SNB? then
        if !Below40(v) then None else Some(Pack40(v))
      else if chip.I965? || chip.G33? || chip.G4X? then
        if !Below36(v) then None else Some(Pack36(v))
      else
        if !Below32(v) then None else Some(Pack32(v))
  }

  /** How many address bits the chip's entries hold. */
  function Reach(chip: Chip, wide: bool): nat {
    if !wide then 32 else if chip.SNB? then 40 else if chip.I965? || chip.G33? || chip.G4X? then 36 else 32
  }

  /** The address and flag bits an entry stands for. */
  function Decode(chip: Chip, wide: bool, pte: bv32): bv64 {
    if Reach(chip, wide) == 40 then Unpack40(pte)
    else if Reach(chip, wide) == 36 then Unpack36(pte)
    else pte as bv64
  }

  /** A bus address of a 32-bit bus_addr_t has no high bits. */
  predicate BusAddress(wide: bool, v: bv64) {
    !wide ==> v < 0x1_0000_0000
  }

  /** Accepted are exactly the values whose bits 11:4 are clear and that fit the address bits of the chip's entries;
      with a 32-bit bus_addr_t every value fits. */
  lemma AcceptedIff(chip: Chip, wide: bool, v: bv64)
    ensures Encode(chip, wide, v).Some? <==>
      && v & 0xff0 == 0
      && (wide ==> if chip.SNB? then v < 0x100_0000_0000
                   else if chip.I965? || chip.G33? || chip.G4X? then v < 0x10_0000_0000
                   else v < 0x1_0000_0000)
  {
    hide LowClear, Below40, Below36, Below32;
    LowClearIs(v);
    BelowIs(v);
  }

  lemma LowClearIs(v: bv64)
    ensures LowClear(v) <==> v & 0xff0 == 0
  {}

  lemma BelowIs(v: bv64)
    ensures Below40(v) <==> v < 0x100_0000_0000
    ensures Below36(v) <==> v < 0x10_0000_0000
    ensures Below32(v) <==> v < 0x1_0000_0000
  {}

  lemma Pack40Bits(v: bv64)
    requires v & 0xff0 == 0
    ensures (Pack40(v) & 0xffff_f00f) as bv64 == v & 0xffff_f00f && (Pack40(v) & 0xff0) as bv64 << 28 == v & 0xff_0000_0000
  {}

  lemma Pack36Bits(v: bv64)
    requires v & 0xff0 == 0
    ensures (Pack36(v) & 0xffff_f00f) as bv64 == v & 0xffff_f00f && (Pack36(v) & 0xff0) as bv64 << 28 == v & 0xf_0000_0000
  {}

  lemma Pack32Bits(v: bv64)
    ensures Pack32(v) as bv64 == v & 0xffff_ffff
  {}

  /** Where the bits go on a 40-bit chip: 31:12 and the flags 3:0 stay, bits 39:32 move to 11:4. */
  lemma EntryBits40(chip: Chip, v: bv64)
    requires Encode(chip, true, v).Some? && chip.SNB?
    ensures var pte := Encode(chip, true, v).value;
            (pte & 0xffff_f00f) as bv64 == v & 0xffff_f00f && (pte & 0xff0) as bv64 << 28 == v & 0xff_0000_0000
  {
    hide Pack40, Pack36, Pack32, LowClear, Below40, Below36, Below32;
    AcceptedIff(chip, true, v);
    Pack40Bits(v);
  }

  /** On a 36-bit chip bits 35:32 move to 7:4. */
  lemma EntryBits36(chip: Chip, v: bv64)
    requires Encode(chip, true, v).Some? && (chip.I965? || chip.G33? || chip.G4X?)
    ensures var pte := Encode(chip, true, v).value;
            (pte & 0xffff_f00f) as bv64 == v & 0xffff_f00f && (pte & 0xff0) as bv64 << 28 == v & 0xf_0000_0000
  {
    hide Pack40, Pack36, Pack32, LowClear, Below40, Below36, Below32;
    AcceptedIff(chip, true, v);
    assert Encode(chip, true, v) == Some(Pack36(v));
    Pack36Bits(v);
  }

  /** On the others, and wherever bus_addr_t has 32 bits, the entry is the low half. */
  lemma EntryBits32(chip: Chip, wide: bool, v: bv64)
    requires Encode(chip, wide, v).Some? && (wide ==> !chip.SNB? && !chip.I965? && !chip.G33? && !chip.G4X?)
    ensures Encode(chip, wide, v).value as bv64 == v & 0xffff_ffff
  {
    hide Pack40, Pack36, Pack32, LowClear, Below40, Below36, Below32;
    AcceptedIff(chip, wide, v);
    Pack32Bits(v);
  }

  function Pack32(v: bv64): bv32 { (v & 0xffff_ffff) as bv32 }
  function High40(v: bv64): bv32 { ((v >> 28) & 0xff0) as bv32 }
  function High36(v: bv64): bv32 { ((v >> 28) & 0xf0) as bv32 }
  function Or(a: bv32, b: bv32): bv32 { a | b }
  function Pack40(v: bv64): bv32 { Or(Pack32(v), High40(v)) }
  function Pack36(v: bv64): bv32 { Or(Pack32(v), High36(v)) }
  function Unpack40(pte: bv32): bv64 { (pte & 0xffff_f00f) as bv64 | ((pte & 0xff0) as bv64 << 28) }
  function Unpack36(pte: bv32): bv64 { (pte & 0xffff_f00f) as bv64 | ((pte & 0xf0) as bv64 << 28) }

  lemma Unpack40Pack(v: bv64)
    requires LowClear(v) && Below40(v)
    ensures Unpack40(Pack40(v)) == v
  {}

  lemma Unpack36Pack(v: bv64)
    requires LowClear(v) && Below36(v)
    ensures Unpack36(Pack36(v)) == v
  {}

  lemma Unpack32Pack(v: bv64)
    requires Below32(v)
    ensures Pack32(v) as bv64 == v
  {}

  lemma Pack40Unpack(pte: bv32)
    ensures var v := Unpack40(pte); LowClear(v) && Below40(v) && Pack40(v) == pte
  {}

  lemma Pack36Unpack(pte: bv32)
    ensures var v := Unpack36(pte); LowClear(v) && Below36(v) && (Pack36(v) == pte <==> pte & 0xf00 == 0)
  {}

  lemma Pack32Unpack(pte: bv32)
    ensures var v := pte as bv64; (LowClear(v) <==> pte & 0xff0 == 0) && Below32(v) && Pack32(v) == pte
  {}

  /** Lossless: what was accepted is recovered from the 32-bit entry, low flag bits included. */
  lemma DecodeEncode(chip: Chip, wide: bool, v: bv64)
    requires BusAddress(wide, v) && Encode(chip, wide, v).Some?
    ensures Decode(chip, wide, Encode(chip, wide, v).value) == v
  {
    hide Pack40, Pack36, Pack32, Unpack40, Unpack36, LowClear, Below40, Below36, Below32;
    if Reach(chip, wide) == 40 {
      Unpack40Pack(v);
    } else if Reach(chip, wide) == 36 {
      Unpack36Pack(v);
    } else {
      if !wide { Narrow(v); }
      Unpack32Pack(v);
    }
  }

  lemma Narrow(v: bv64)
    ensures v < 0x1_0000_0000 <==> Below32(v)
  {}

  /** Which entries can occur: bits 11:8 clear for 36-bit chips, 11:4 for 32-bit ones. */
  predicate Canonical(chip: Chip, wide: bool, pte: bv32) {
    if Reach(chip, wide) == 40 then true
    else if Reach(chip, wide) == 36 then pte & 0xf00 == 0
    else pte & 0xff0 == 0
  }

  /** The other way: an entry is the packing of its own decoding iff it is canonical. */
  lemma EncodeDecode(chip: Chip, wide: bool, pte: bv32)
    ensures Encode(chip, wide, Decode(chip, wide, pte)) == Some(pte) <==> Canonical(chip, wide, pte)
  {
    hide Pack40, Pack36, Pack32, Unpack40, Unpack36, LowClear, Below40, Below36, Below32;
    if Reach(chip, wide) == 40 {
      Pack40Unpack(pte);
    } else if Reach(chip, wide) == 36 {
      Pack36Unpack(pte);
    } else {
      Pack32Unpack(pte);
    }
  }

  // ------------------------------------------------------------------ the table

  /** What stays fixed about a chip: `first` is where the scribble loop of agp_i810_init starts, as a page number. */
  datatype Device = Device(chip: Chip, wide: bool, entries: nat, stolen: nat, dcache: nat, scribble: bv64)

  /** bind_page's tests: the offset is in the table, outside stolen memory, and the value can be packed. */
  predicate InTable(d: Device, off: int) {
    0 <= off < d.entries * AGP_PAGE_SIZE && (d.chip.I810? || d.stolen <= off / AGP_PAGE_SIZE)
  }

  /** The valid bit, and the snoop bits of a coherent mapping. */
  function Present(v: bv64): bv64 { v | 1 }
  function Snooped(v: bv64): bv64 { v | INTEL_COHERENT }

  lemma ValidBit(p: bv64)
    requires p & 0xfff == 0
    ensures Present(p) == p + 1
  {}

  lemma SnoopBits(p: bv64)
    requires p & 0xfff == 0
    ensures Present(Snooped(p)) == p + 7
  {}

  lemma ExtensionClear(p: bv64)
    requires p & 0xfff == 0
    ensures LowClear(Present(p))
  {}

  lemma FlagsFit40(p: bv64)
    ensures Below40(Present(p)) <==> Below40(p)
  {}

  lemma FlagsFit36(p: bv64)
    ensures Below36(Present(p)) <==> Below36(p)
  {}

  lemma FlagsFit32(p: bv64)
    ensures Below32(Present(p)) <==> Below32(p)
  {}

  /** The address of a page can be entered iff it is in the chip's reach. */
  lemma PageFits(d: Device, p: bv64)
    requires p & 0xfff == 0
    ensures Entry(d, p).Some? <==> d.wide ==> if d.chip.SNB? then p < 0x100_0000_0000
                                              else if d.chip.I965? || d.chip.G33? || d.chip.G4X? then p < 0x10_0000_0000
                                              else p < 0x1_0000_0000
  {
    hide Present, LowClear, Below40, Below36, Below32, Pack40, Pack36, Pack32;
    ExtensionClear(p);
    FlagsFit40(p);
    FlagsFit36(p);
    FlagsFit32(p);
    BelowIs(p);
  }

  lemma ValidStays(wide: bool, v: bv64)
    requires BusAddress(wide, v)
    ensures BusAddress(wide, Present(v))
  {}

  lemma SnoopStays(wide: bool, v: bv64)
    requires BusAddress(wide, v)
    ensures BusAddress(wide, Snooped(v))
  {}

  lemma EntryDecodes(d: Device, v: bv64)
    requires BusAddress(d.wide, v) && Entry(d, v).Some?
    ensures Decode(d.chip, d.wide, Entry(d, v).value) == Present(v)
  {
    hide Encode, Decode, BusAddress, Present;
    ValidStays(d.wide, v);
    DecodeEncode(d.chip, d.wide, Present(v));
  }

  /** And the chip then reads it back with the valid bit ... */
  lemma PageReads(d: Device, p: bv64)
    requires p & 0xfff == 0 && BusAddress(d.wide, p) && Entry(d, p).Some?
    ensures Decode(d.chip, d.wide, Entry(d, p).value) == p + 1
  {
    hide Entry, Decode, BusAddress, Present;
    EntryDecodes(d, p);
    ValidBit(p);
  }

  /** ... and, in a coherent mapping, the snoop bits. */
  lemma CoherentReads(d: Device, p: bv64)
    requires p & 0xfff == 0 && BusAddress(d.wide, p) && Entry(d, Snooped(p)).Some?
    ensures Decode(d.chip, d.wide, Entry(d, Snooped(p)).value) == p + 7
  {
    hide Entry, Decode, BusAddress, Present, Snooped;
    SnoopStays(d.wide, p);
    EntryDecodes(d, Snooped(p));
    SnoopBits(p);
  }

  function Entry(d: Device, v: bv64): Packed {
    Encode(d.chip, d.wide, Present(v))
  }

  /** The scribble page's address can be packed (it comes from the chip's own DMA tag). */
  predicate GoodDevice(d: Device) {
    Entry(d, d.scribble).Some?
  }

  function Scribble(d: Device): bv32
    requires GoodDevice(d)
  {
    Entry(d, d.scribble).value
  }

  /** The scribble page's entry reads back as its address with the valid bit. */
  lemma ScribbleReads(d: Device)
    requires GoodDevice(d) && d.scribble & 0xfff == 0 && (!d.wide ==> d.scribble < 0x1_0000_0000)
    ensures Decode(d.chip, d.wide, Scribble(d)) == d.scribble + 1
  {
    hide Entry, Decode;
    PageReads(d, d.scribble);
  }

  /** The entry, built up by |= on a 32-bit local. */
  method Massage(chip: Chip, wide: bool, v: bv64) returns (error: int, pte: bv32)
    ensures match Encode(chip, wide, v)
            case None => error == EINVAL
            case Some(packed) => error == 0 && pte == packed
  {
    hide Or, Pack32, High40, High36, LowClear, Below40, Below36, Below32;
    pte := 0;
    if !LowClear(v) { return EINVAL, pte; }
    pte := Pack32(v);
    if wide {
      if chip == SNB {
        if !Below40(v) { return EINVAL, pte; }
        pte := Or(pte, High40(v));
      } else if chip == I965 || chip == G33 || chip == G4X {
        if !Below36(v) { return EINVAL, pte; }
        pte := Or(pte, High36(v));
      } else {
        if !Below32(v) { return EINVAL, pte; }
      }
    }
    return 0, pte;
  }

  class Table {
    const d: Device
    var gtt: seq<bv32>

    predicate Valid()
      reads this
    {
      GoodDevice(d) && |gtt| == d.entries
    }

    constructor (d: Device, gtt: seq<bv32>)
      requires GoodDevice(d) && |gtt| == d.entries
      ensures Valid() && this.d == d && this.gtt == gtt
    {
      this.d, this.gtt := d, gtt;
    }

    /** agp_i810_bind_page: 0 exactly when the tests pass; one entry changes or none does. */
    method BindPage(offset: int, physical: bv64, coherent: bool) returns (error: int)
      requires Valid()
      modifies this
      ensures var v := if coherent then Snooped(physical) else physical;
              Valid() && if InTable(d, offset) && Entry(d, v).Some?
              then error == 0 && gtt == old(gtt)[offset / AGP_PAGE_SIZE := Entry(d, v).value]
              else error == EINVAL && gtt == old(gtt)
    {
      hide Encode, Scribble, GoodDevice, Present, Snooped;
      if offset < 0 || offset >= d.entries * AGP_PAGE_SIZE { return EINVAL; }
      if d.chip != I810 {
        if offset / AGP_PAGE_SIZE < d.stolen { return EINVAL; }
      }
      var v := physical;
      if coherent { v := Snooped(v); }
      error := WriteEntry(offset, Present(v));
    }

    /** agp_i810_unbind_page. */
    method UnbindPage(offset: int) returns (error: int)
      requires Valid()
      modifies this
      ensures Valid()
      ensures if InTable(d, offset) then error == 0 && gtt == old(gtt)[offset / AGP_PAGE_SIZE := Scribble(d)]
              else error == EINVAL && gtt == old(gtt)
    {
      hide Encode, Present;
      if offset < 0 || offset >= d.entries * AGP_PAGE_SIZE { return EINVAL; }
      if d.chip != I810 {
        if offset / AGP_PAGE_SIZE < d.stolen { return EINVAL; }
      }
      error := WriteEntry(offset, Present(d.scribble));
    }

    /** agp_i810_write_gtt_entry: pack, then one 32-bit write. */
    method WriteEntry(off: int, v: bv64) returns (error: int)
      requires Valid() && 0 <= off < d.entries * AGP_PAGE_SIZE
      modifies this
      ensures Valid()
      ensures match Encode(d.chip, d.wide, v)
              case None => error == EINVAL && gtt == old(gtt)
              case Some(pte) => error == 0 && gtt == old(gtt)[off / AGP_PAGE_SIZE := pte]
    {
      hide Encode, Entry, Scribble, GoodDevice;
      var pte: bv32;
      error, pte := Massage(d.chip, d.wide, v);
      if error == 0 { gtt := gtt[off / AGP_PAGE_SIZE := pte]; }
    }

    /** The scribble loop of agp_i810_init: every entry it can reach from the start on, and no other. */
    method ScribbleAll(apsize: nat)
      requires Valid() && d.dcache % AGP_PAGE_SIZE == 0
      modifies this
      ensures Valid()
      ensures forall i :: 0 <= i < d.entries ==>
        gtt[i] == if (if d.chip.I810? then d.dcache / AGP_PAGE_SIZE else d.stolen) <= i && i * AGP_PAGE_SIZE < apsize
                  then Scribble(d) else old(gtt[i])
    {
      hide Encode, Entry, Scribble, GoodDevice;
      var tmp := if d.chip == I810 then d.dcache else d.stolen * AGP_PAGE_SIZE;
      while tmp < apsize
        invariant Valid() && tmp % AGP_PAGE_SIZE == 0 && First(d) <= tmp / AGP_PAGE_SIZE
        invariant forall i :: 0 <= i < d.entries ==>
          gtt[i] == if First(d) <= i < tmp / AGP_PAGE_SIZE && i * AGP_PAGE_SIZE < apsize then Scribble(d) else old(gtt[i])
      {
        var error := UnbindPage(tmp);
        tmp := tmp + AGP_PAGE_SIZE;
      }
    }
  }
  /** Where the scribble loop starts, as a page number. */
  function First(d: Device): nat {
    if d.chip.I810? then d.dcache / AGP_PAGE_SIZE else d.stolen
  }
}
