/** Page table entries of the graphics translation table: the driver's encoder against the
    documented layout of the entry. */
module Pte {
  import opened Bits

  const PAGE_SIZE: nat := 4096
  const PTE_VALID: nat := 1

  /** Cacheability bits 2..0 go to bits 3..1, bit 3 goes to bit 11. */
  function CacheabilityControl(bits: nat): nat {
    Or(Shl(And(bits, 0x7), 1), Shl(And(bits, 0x8), 8))
  }

  /** Address bits 38..32 are folded into bits 10..4. */
  function PteAddrEncode(addr: nat, valid: bool): nat {
    Or(if valid then PTE_VALID else 0, Or(addr, And(Shr(addr, 28), 0x7f0)))
  }

  function PteEncode(addr: nat, level: U32, valid: bool): U32 {
    var pte: U32 := if valid then PTE_VALID else 0;
    var pte' := Trunc32(Or(pte, PteAddrEncode(addr, valid)));
    if level != 0 then Trunc32(Or(pte', CacheabilityControl(0x2))) else pte'
  }

  // The entry as the hardware reads it, from the layout table in the header.

  function PteAddress(pte: U32): nat {
    Field(pte, 31, 12) * PAGE_SIZE + Field(pte, 10, 4) * TWO_32
  }

  predicate PteIsValid(pte: U32) {
    Field(pte, 0, 0) == 1
  }

  function PteCacheability(pte: U32): nat {
    Field(pte, 3, 1) + 8 * Field(pte, 11, 11)
  }

  lemma FlagBits()
    ensures CacheabilityControl(2) == 4
    ensures Or(1, 0) == 1 && Or(1, 1) == 1 && Or(0, 0) == 0 && Or(0, 1) == 1
    ensures Or(0, 4) == 4 && Or(1, 4) == 5
  {
    Powers();
    hide Pow2;
  }

  /** The folded address bits, as arithmetic. */
  lemma FoldedBits(addr: nat)
    ensures And(Shr(addr, 28), 0x7f0) == 16 * (addr / TWO_32 % 128)
  {
    Powers();
    AndShifted(4, Shr(addr, 28), 127, 0x7f0);
    AndSizeMask(7, Shr(Shr(addr, 28), 4));
    assert addr / 0x1000_0000 / 16 == addr / TWO_32;
  }

  function Flag(valid: bool): nat {
    if valid then 1 else 0
  }

  /** Flag bits below bit 4 sit beside an address part that is a multiple of 16. */
  lemma OrFlags(v: nat, w: nat, y: nat)
    requires v < 16 && w < 16
    ensures Or(v, w + 16 * y) == Or(v, w) + 16 * y
  {
    Powers();
    OrSplit(4, v, w, 0, y, 0, 16 * y);
    assert Or(0, y) == y;
  }

  lemma AddrEncodeFields(addr: nat, valid: bool)
    requires addr % PAGE_SIZE == 0
    ensures PteAddrEncode(addr, valid) == Flag(valid) + 16 * (addr / TWO_32 % 128) + addr
  {
    FlagBits();
    FoldedBits(addr);
    hide Or, And, Shr;
    var folded, page := addr / TWO_32 % 128, addr / PAGE_SIZE;
    OrPage(16 * folded, page);
    assert addr == 4096 * page;
    OrFlags(Flag(valid), 0, folded + 256 * page);
  }

  /** Bits below the page number do not meet it. */
  lemma OrPage(low: nat, page: nat)
    requires low < PAGE_SIZE
    ensures Or(4096 * page, low) == low + 4096 * page
  {
    hide Or, Pow2;
    Powers();
    OrDisjoint(12, low, page, 4096 * page);
  }

  /** For a page address no two fields of the entry overlap, so every `|` is an addition. */
  lemma EncodedFields(addr: nat, level: U32, valid: bool)
    requires addr % PAGE_SIZE == 0
    ensures PteEncode(addr, level, valid)
         == Flag(valid) + (if level != 0 then 4 else 0) + 16 * (addr / TWO_32 % 128) + addr % TWO_32
  {
    hide PteEncode, PteAddrEncode, Flag;
    var y := addr / TWO_32 % 128 + addr / 16;
    AddrEncodeFields(addr, valid);
    EncodedWord(addr, level, valid, y);
    FoldedFits(addr);
  }

  lemma EncodedWord(addr: nat, level: U32, valid: bool, y: nat)
    requires PteAddrEncode(addr, valid) == Flag(valid) + 16 * y
    ensures PteEncode(addr, level, valid)
         == Flag(valid) + (if level != 0 then 4 else 0) + 16 * (y % 0x1000_0000)
  {
    hide Or, And, PteAddrEncode;
    var v, low := Flag(valid), y % 0x1000_0000;
    OrFlags(v, v, y);
    FlagBits();
    TruncFlags(v, y);
    OrCacheability(v, low);
    TruncFlags(v + 4, low);
  }

  lemma TruncFlags(v: nat, y: nat)
    requires v < 16
    ensures Trunc32(v + 16 * y) == v + 16 * (y % 0x1000_0000)
  {
  }

  lemma FoldedFits(addr: nat)
    requires addr % PAGE_SIZE == 0
    ensures 16 * ((addr / TWO_32 % 128 + addr / 16) % 0x1000_0000)
         == 16 * (addr / TWO_32 % 128) + addr % TWO_32
  {
    var f, p := addr / TWO_32 % 128, addr / PAGE_SIZE;
    FoldedPage(f, p);
    assert addr == 4096 * p && addr / 16 == 256 * p;
  }

  lemma FoldedPage(f: nat, p: nat)
    requires f < 128
    ensures (f + 256 * p) % 0x1000_0000 == f + 256 * (p % 0x10_0000)
    ensures 4096 * p % TWO_32 == 4096 * (p % 0x10_0000)
  {
    var low, high := DivMod(p, 0x10_0000);
    ModUnique(f + 256 * p, 0x1000_0000, high, f + 256 * low);
    ModUnique(4096 * p, TWO_32, high, 4096 * low);
  }

  lemma OrCacheability(v: nat, low: nat)
    requires v <= 1
    ensures Or(v + 16 * low, 4) == v + 4 + 16 * low
  {
    OrSymmetric(v + 16 * low, 4);
    OrFlags(4, v, low);
    assert Or(4, 0) == 4 && Or(4, 1) == 5;
  }

  lemma OrSymmetric(a: nat, b: nat)
    ensures Or(a, b) == Or(b, a)
  {
  }

  /** The documented fields of an entry, as plain divisions. */
  lemma DecodedFields(pte: U32)
    ensures PteAddress(pte) == pte / 4096 % 0x10_0000 * 4096 + pte / 16 % 128 * TWO_32
    ensures PteIsValid(pte) == (pte % 2 == 1)
    ensures PteCacheability(pte) == pte / 2 % 8 + 8 * (pte / 2048 % 2)
  {
    Powers();
  }

  /** The cacheability macro places all sixteen levels where the layout has them, and touches
      neither address nor validity. */
  lemma CacheabilityRoundTrip(bits: nat)
    requires bits < 16
    ensures CacheabilityControl(bits) < TWO_32
    ensures PteCacheability(CacheabilityControl(bits)) == bits
    ensures PteAddress(CacheabilityControl(bits)) == 0 && !PteIsValid(CacheabilityControl(bits))
  {
    hide CacheabilityControl, PteCacheability, PteAddress, PteIsValid, And;
    var low, high := DivMod(bits, 8);
    LevelBits(low, high);
    PlacedBits(bits, low, high);
    CacheabilityDecoded(CacheabilityControl(bits), low, high);
  }

  lemma CacheabilityDecoded(pte: U32, low: nat, high: nat)
    requires low < 8 && high < 2 && pte == 2 * low + 2048 * high
    ensures PteCacheability(pte) == low + 8 * high && PteAddress(pte) == 0 && !PteIsValid(pte)
  {
    DecodedFields(pte);
    hide PteCacheability, PteAddress, PteIsValid;
    assert pte / 2 == low + 8 * (128 * high) && pte / 16 % 128 == 0 && pte / 4096 == 0;
  }

  lemma PlacedBits(bits: nat, low: nat, high: nat)
    requires low < 8 && And(bits, 7) == low && And(bits, 8) == 8 * high
    ensures CacheabilityControl(bits) == 2 * low + 2048 * high
  {
    hide Or, And, Shl;
    ShiftedLevel(low, high);
    OrLevel(low, high);
  }

  lemma LevelBits(low: nat, high: nat)
    requires low < 8 && high < 2
    ensures And(low + 8 * high, 7) == low && And(low + 8 * high, 8) == 8 * high
  {
    Powers();
    hide And, Pow2;
    AndSizeMask(3, low + 8 * high);
    AndShifted(3, low + 8 * high, 1, 8);
    AndSizeMask(1, high);
  }

  lemma ShiftedLevel(low: nat, high: nat)
    ensures Shl(low, 1) == 2 * low && Shl(8 * high, 8) == 2048 * high
  {
    Powers();
    hide Pow2;
  }

  lemma OrLevel(low: nat, high: nat)
    requires low < 8
    ensures Or(2 * low, 2048 * high) == 2 * low + 2048 * high
  {
    Powers();
    hide Or, Pow2;
    OrDisjoint(11, 2 * low, high, 2048 * high);
  }

  lemma Unpack(v: nat, c: nat, f: nat, p: nat, pte: nat)
    requires v < 2 && c < 8 && f < 128 && p < 0x10_0000
    requires pte == v + 2 * c + 16 * f + 4096 * p
    ensures pte / 4096 == p && pte / 16 % 128 == f && pte % 2 == v && pte / 2 % 8 == c
    ensures pte / 2048 % 2 == 0
  {
    assert pte / 16 == f + 256 * p;
    assert pte / 2 == c + 8 * (f + 256 * p);
    assert pte / 2048 == 2 * p;
  }

  lemma SplitAddress(addr: nat)
    requires addr % PAGE_SIZE == 0
    ensures addr % TWO_39 == addr / TWO_32 % 128 * TWO_32 + addr % TWO_32
    ensures addr % TWO_32 == addr / 4096 % 0x10_0000 * 4096
  {
  }

  lemma DecodeLayout(pte: U32, addr: nat, v: nat, c: nat)
    requires addr % PAGE_SIZE == 0 && v < 2 && c < 8
    requires pte == v + 2 * c + 16 * (addr / TWO_32 % 128) + addr % TWO_32
    ensures PteAddress(pte) == addr % TWO_39 && PteIsValid(pte) == (v == 1) && PteCacheability(pte) == c
  {
    hide PteAddress, PteIsValid, PteCacheability;
    SplitAddress(addr);
    DecodedFields(pte);
    Unpack(v, c, addr / TWO_32 % 128, addr / 4096 % 0x10_0000, pte);
  }

  lemma AddressRange(pte: U32)
    ensures PteAddress(pte) % PAGE_SIZE == 0 && PteAddress(pte) < TWO_39
  {
    DecodedFields(pte);
    AddressParts(pte / 4096 % 0x10_0000, pte / 16 % 128);
  }

  lemma AddressParts(p: nat, f: nat)
    requires p < 0x10_0000 && f < 128
    ensures (p * 4096 + f * TWO_32) % PAGE_SIZE == 0 && p * 4096 + f * TWO_32 < TWO_39
  {
    assert p * 4096 + f * TWO_32 == 4096 * (p + f * 0x10_0000);
  }

  lemma AddressKept(pte: U32, addr: nat)
    requires addr % PAGE_SIZE == 0 ==> PteAddress(pte) == addr % TWO_39
    ensures PteAddress(pte) == addr <==> addr % PAGE_SIZE == 0 && addr < TWO_39
  {
    hide PteAddress;
    AddressRange(pte);
  }

  /** Decoding an encoded page address gives back its low 39 bits, the validity and whether
      the cache level was non-zero: no field leaks into another. */
  lemma PteRoundTrip(addr: nat, level: U32, valid: bool)
    requires addr % PAGE_SIZE == 0
    ensures PteAddress(PteEncode(addr, level, valid)) == addr % TWO_39
    ensures PteIsValid(PteEncode(addr, level, valid)) == valid
    ensures PteCacheability(PteEncode(addr, level, valid)) == (if level != 0 then 2 else 0)
  {
    EncodedFields(addr, level, valid);
    DecodeLayout(PteEncode(addr, level, valid), addr, Flag(valid), if level != 0 then 2 else 0);
  }

  /** The entry can hold exactly the page addresses below 2^39. The 40-bit DMA mask the
      driver asks for is one bit wider. */
  lemma PteAddressExact(addr: nat, level: U32, valid: bool)
    ensures PteAddress(PteEncode(addr, level, valid)) == addr
       <==> addr % PAGE_SIZE == 0 && addr < TWO_39
  {
    hide PteEncode, PteAddress;
    if addr % PAGE_SIZE == 0 {
      PteRoundTrip(addr, level, valid);
    }
    AddressKept(PteEncode(addr, level, valid), addr);
  }

  /** The 40-bit mask lets such addresses through: from 2^39 on the entry leads to another page, 2^39
      below. */
  lemma HighAddressAliased(addr: nat, level: U32, valid: bool)
    requires addr % PAGE_SIZE == 0 && TWO_39 <= addr < 2 * TWO_39
    ensures PteAddress(PteEncode(addr, level, valid)) == addr - TWO_39
  {
    hide PteEncode, PteAddress;
    PteRoundTrip(addr, level, valid);
  }

  lemma SameLowBits(a: nat, b: nat)
    requires a % PAGE_SIZE == 0 && b % PAGE_SIZE == 0
    requires a % TWO_39 == b % TWO_39
    ensures a / TWO_32 % 128 == b / TWO_32 % 128 && a % TWO_32 == b % TWO_32
  {
    SplitAddress(a);
    SplitAddress(b);
  }

  /** Two page addresses share an entry exactly when they agree modulo 2^39. */
  lemma PteFibre(a: nat, b: nat, level: U32, valid: bool)
    requires a % PAGE_SIZE == 0 && b % PAGE_SIZE == 0
    ensures PteEncode(a, level, valid) == PteEncode(b, level, valid) <==> a % TWO_39 == b % TWO_39
  {
    hide PteEncode, PteAddress, PteIsValid, PteCacheability;
    PteRoundTrip(a, level, valid);
    PteRoundTrip(b, level, valid);
    if a % TWO_39 == b % TWO_39 {
      SameLowBits(a, b);
      EncodedFields(a, level, valid);
      EncodedFields(b, level, valid);
    }
  }
}
