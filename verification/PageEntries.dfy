/**
 Virtual addresses and page-table entries of 4-level paging: the address split, the
 canonical-address test, and how entries are built, widened and read.
 */
module PageEntries {
  import opened Words

  const PAGE_SIZE: nat := 4096
  const ENTRIES: nat := 512

  const PRESENT: u64 := 0x1
  const WRITABLE: u64 := 0x2
  const USER: u64 := 0x4
  const HUGE_PAGE: u64 := 0x80
  const ADDRESS_MASK: u64 := 0x000F_FFFF_FFFF_F000

  /** The four table indexes of a virtual address, outermost first. */
  datatype Indexes = Indexes(pml4: nat, pdpt: nat, pd: nat, pt: nat) {
    predicate Valid() {
      pml4 < ENTRIES && pdpt < ENTRIES && pd < ENTRIES && pt < ENTRIES
    }
  }

  function IndexesOf(va: u64): (ix: Indexes)
    ensures ix.Valid()
  {
    IndexRange(va, 39);
    IndexRange(va, 30);
    IndexRange(va, 21);
    IndexRange(va, 12);
    Indexes(And(Shr(va, 39), 0x1FF), And(Shr(va, 30), 0x1FF),
            And(Shr(va, 21), 0x1FF), And(Shr(va, 12), 0x1FF))
  }

  predicate IsCanonical(va: u64) {
    var upper := Shr(va, 48);
    var sign := And(Shr(va, 47), 1);
    if sign == 0 then upper == 0 else upper == 0xFFFF
  }

  predicate IsPresent(entry: u64) { And(entry, PRESENT) != 0 }
  predicate IsWritable(entry: u64) { And(entry, WRITABLE) != 0 }
  predicate IsUser(entry: u64) { And(entry, USER) != 0 }
  predicate IsHuge(entry: u64) { And(entry, HUGE_PAGE) != 0 }

  function EntryAddress(entry: u64): u64 {
    AndBound(entry, ADDRESS_MASK);
    And(entry, ADDRESS_MASK)
  }

  function MakeEntry(address: u64, writable: bool, user: bool): u64 {
    AndBound(address, ADDRESS_MASK);
    var e: u64 := And(address, ADDRESS_MASK);
    OrPresentFields(e);
    var e: u64 := Or(e, PRESENT);
    OrWritableFields(e);
    var e: u64 := if writable then Or(e, WRITABLE) else e;
    OrUserFields(e);
    if user then Or(e, USER) else e
  }

  /** An intermediate entry after `get_or_create_table` has or-ed in the requested rights. */
  function Widen(entry: u64, writable: bool, user: bool): u64 {
    OrUserFields(entry);
    var e: u64 := if user then Or(entry, USER) else entry;
    OrWritableFields(e);
    if writable then Or(e, WRITABLE) else e
  }

  // ---- What the bit tests mean arithmetically ----

  lemma Pow2Values()
    ensures Pow2(12) == 0x1000 && Pow2(21) == 0x20_0000 && Pow2(30) == 0x4000_0000
    ensures Pow2(39) == 0x80_0000_0000 && Pow2(40) == 0x100_0000_0000
    ensures Pow2(47) == 0x8000_0000_0000 && Pow2(48) == 0x1_0000_0000_0000
  {
    assert Pow2(12) == 0x1000;
    assert Pow2(21) == 0x20_0000;
    assert Pow2(30) == 0x4000_0000;
    assert Pow2(39) == 0x80_0000_0000;
    assert Pow2(47) == 0x8000_0000_0000;
  }

  lemma BitZero(e: nat)
    ensures And(e, 1) == e % 2
  {
    assert And(e / 2, 0) == 0;
  }

  lemma {:induction false} ShlZero(x: nat, k: nat)
    ensures Shl(x, k) == 0 <==> x == 0
  {
    if k > 0 {
      ShlZero(x, k - 1);
    }
  }

  /** Testing bit k of a word. */
  lemma BitTest(e: u64, k: nat)
    ensures And(e, Shl(1, k)) != 0 <==> Shr(e, k) % 2 == 1
  {
    hide And, Shl, Shr;
    AndShl(e, 1, k);
    BitZero(Shr(e, k));
    ShlZero(And(Shr(e, k), 1), k);
  }

  lemma PresentBit(e: u64)
    ensures IsPresent(e) <==> e % 2 == 1
  {
    BitZero(e);
  }

  lemma WritableBit(e: u64)
    ensures IsWritable(e) <==> e / 2 % 2 == 1
  {
    hide And;
    BitTest(e, 1);
    assert Shl(1, 1) == 2 && Shr(e, 1) == e / 2;
  }

  lemma UserBit(e: u64)
    ensures IsUser(e) <==> e / 4 % 2 == 1
  {
    hide And;
    BitTest(e, 2);
    assert Shl(1, 1) == 2 && Shl(1, 2) == 4;
    assert Shr(e / 2, 1) == e / 2 / 2 && Shr(e, 2) == Shr(e / 2, 1);
  }

  lemma HugeBit(e: u64)
    ensures IsHuge(e) <==> e / 0x80 % 2 == 1
  {
    hide And;
    BitTest(e, 7);
    assert Shl(1, 7) == 0x80;
    ShiftSeven(e);
  }

  lemma ShiftSeven(e: u64)
    ensures Shr(e, 7) == e / 0x80
  {
    hide Shr;
    ShrIsDiv(e, 7);
    assert Pow2(7) == 0x80;
  }

  lemma AddressBits(e: u64)
    ensures EntryAddress(e) == e / 4096 % 0x100_0000_0000 * 4096
  {
    Pow2Values();
    AddressField(e, 0xFF_FFFF_FFFF, 12, 40);
  }

  lemma AddressField(e: u64, ones: nat, k: nat, m: nat)
    requires ones == Pow2(m) - 1
    ensures And(e, ones * Pow2(k)) == e / Pow2(k) % Pow2(m) * Pow2(k)
  {
    AndShl(e, ones, k);
    ShrIsDiv(e, k);
    AndOnes(e / Pow2(k), m);
    LowIsMod(e / Pow2(k), m);
    ShlIsMul(ones, k);
    ShlIsMul(And(e / Pow2(k), ones), k);
  }

  lemma IndexRange(va: u64, k: nat)
    ensures And(Shr(va, k), 0x1FF) < ENTRIES
  {
    AndBound(Shr(va, k), 0x1FF);
  }

  lemma IndexField(va: u64, k: nat)
    ensures And(Shr(va, k), 0x1FF) == va / Pow2(k) % 512
  {
    ShrIsDiv(va, k);
    AndOnes(va / Pow2(k), 9);
    LowIsMod(va / Pow2(k), 9);
    assert Pow2(9) == 512;
  }

  /** The address split in arithmetic form. */
  lemma IndexesAre(va: u64)
    ensures IndexesOf(va) == Indexes(va / 0x80_0000_0000 % 512, va / 0x4000_0000 % 512,
                                     va / 0x20_0000 % 512, va / 0x1000 % 512)
  {
    IndexField(va, 39);
    IndexField(va, 30);
    IndexField(va, 21);
    IndexField(va, 12);
    Pow2Values();
  }

  lemma CanonicalParts(va: u64)
    ensures Shr(va, 48) == va / 0x1_0000_0000_0000
    ensures And(Shr(va, 47), 1) == va / 0x8000_0000_0000 % 2
  {
    Pow2Values();
    ShrIsDiv(va, 48);
    ShrIsDiv(va, 47);
    BitZero(va / 0x8000_0000_0000);
  }

  /** Canonical addresses are the lower and the upper 128 TiB of the 64-bit space. */
  lemma CanonicalHalves(va: u64)
    ensures IsCanonical(va) <==> va < 0x8000_0000_0000 || va >= 0xFFFF_8000_0000_0000
  {
    CanonicalParts(va);
  }

  // ---- What the entry constructors do, field by field ----

  /** Entries that agree above bit 2 have the same huge-page bit and the same address. */
  lemma HighFields(e: u64, e': u64)
    requires e / 8 == e' / 8
    ensures IsHuge(e') == IsHuge(e) && EntryAddress(e') == EntryAddress(e)
  {
    HugeBit(e);
    HugeBit(e');
    AddressBits(e);
    AddressBits(e');
    assert e / 0x80 == e / 8 / 16 && e' / 0x80 == e' / 8 / 16;
    assert e / 4096 == e / 8 / 512 && e' / 4096 == e' / 8 / 512;
  }

  lemma LowBits(q: nat, a: nat, b: nat, c: nat, v: nat)
    requires a < 2 && b < 2 && c < 2 && v == 8 * q + 4 * a + 2 * b + c
    ensures v / 8 == q && v / 4 % 2 == a && v / 2 % 2 == b && v % 2 == c
  {
    assert v / 4 == 2 * q + a;
    assert v / 2 == 4 * q + 2 * a + b;
  }

  lemma SetBitZero(e: nat, e': nat)
    requires e' == e / 2 * 2 + 1
    ensures e' / 8 == e / 8 && e' % 2 == 1 && e' / 2 % 2 == e / 2 % 2 && e' / 4 % 2 == e / 4 % 2
  {
    var h, f := e / 2, e / 2 / 2;
    LowBits(f / 2, f % 2, h % 2, e % 2, e);
    LowBits(f / 2, f % 2, h % 2, 1, e');
  }

  lemma SetBitOne(e: nat, e': nat)
    requires e' == 2 * (e / 2 / 2 * 2 + 1) + e % 2
    ensures e' / 8 == e / 8 && e' % 2 == e % 2 && e' / 2 % 2 == 1 && e' / 4 % 2 == e / 4 % 2
  {
    var h, f := e / 2, e / 2 / 2;
    LowBits(f / 2, f % 2, h % 2, e % 2, e);
    LowBits(f / 2, f % 2, 1, e % 2, e');
  }

  lemma SetBitTwo(e: nat, e': nat)
    requires e' == 2 * (2 * (e / 2 / 2 / 2 * 2 + 1) + e / 2 % 2) + e % 2
    ensures e' / 8 == e / 8 && e' % 2 == e % 2 && e' / 2 % 2 == e / 2 % 2 && e' / 4 % 2 == 1
  {
    var h, f := e / 2, e / 2 / 2;
    LowBits(f / 2, f % 2, h % 2, e % 2, e);
    LowBits(f / 2, 1, h % 2, e % 2, e');
  }

  /** The flag tests of two words that agree above bit 2, read off their three low bits. */
  lemma FlagsRead(e: u64, e': u64)
    requires e' / 8 == e / 8
    ensures IsPresent(e') == (e' % 2 == 1) && IsPresent(e) == (e % 2 == 1)
    ensures IsWritable(e') == (e' / 2 % 2 == 1) && IsWritable(e) == (e / 2 % 2 == 1)
    ensures IsUser(e') == (e' / 4 % 2 == 1) && IsUser(e) == (e / 4 % 2 == 1)
    ensures IsHuge(e') == IsHuge(e) && EntryAddress(e') == EntryAddress(e)
  {
    hide And;
    HighFields(e, e');
    PresentBit(e);
    PresentBit(e');
    WritableBit(e);
    WritableBit(e');
    UserBit(e);
    UserBit(e');
  }

  lemma OrPresentFields(e: u64)
    ensures Or(e, PRESENT) < TWO64
    ensures var e': u64 := Or(e, PRESENT);
            && IsPresent(e') && IsWritable(e') == IsWritable(e) && IsUser(e') == IsUser(e)
            && IsHuge(e') == IsHuge(e) && EntryAddress(e') == EntryAddress(e)
  {
    hide And, Or, IsPresent, IsWritable, IsUser, IsHuge, EntryAddress;
    OrOne(e);
    SetBitZero(e, Or(e, PRESENT));
    FlagsRead(e, Or(e, PRESENT));
  }

  lemma OrWritableFields(e: u64)
    ensures Or(e, WRITABLE) < TWO64
    ensures var e': u64 := Or(e, WRITABLE);
            && IsPresent(e') == IsPresent(e) && IsWritable(e') && IsUser(e') == IsUser(e)
            && IsHuge(e') == IsHuge(e) && EntryAddress(e') == EntryAddress(e)
  {
    hide And, Or, IsPresent, IsWritable, IsUser, IsHuge, EntryAddress;
    OrDouble(e, 1);
    OrOne(e / 2);
    SetBitOne(e, Or(e, WRITABLE));
    FlagsRead(e, Or(e, WRITABLE));
  }

  lemma OrUserFields(e: u64)
    ensures Or(e, USER) < TWO64
    ensures var e': u64 := Or(e, USER);
            && IsPresent(e') == IsPresent(e) && IsWritable(e') == IsWritable(e) && IsUser(e')
            && IsHuge(e') == IsHuge(e) && EntryAddress(e') == EntryAddress(e)
  {
    hide And, Or, IsPresent, IsWritable, IsUser, IsHuge, EntryAddress;
    OrDouble(e, 2);
    OrDouble(e / 2, 1);
    OrOne(e / 2 / 2);
    SetBitTwo(e, Or(e, USER));
    FlagsRead(e, Or(e, USER));
  }

  lemma AddressOnly(address: u64)
    requires address % PAGE_SIZE == 0 && address <= ADDRESS_MASK
    ensures And(address, ADDRESS_MASK) == address
    ensures !IsPresent(address) && !IsWritable(address) && !IsUser(address) && !IsHuge(address)
  {
    AddressBits(address);
    PresentBit(address);
    WritableBit(address);
    UserBit(address);
    HugeBit(address);
  }

  /** Masking leaves bits 12 to 51, which is nothing to lose for an aligned address in range. */
  lemma MaskedAddress(address: u64)
    ensures And(address, ADDRESS_MASK) == address / 4096 % 0x100_0000_0000 * 4096 <= ADDRESS_MASK
    ensures address % PAGE_SIZE == 0 && address <= ADDRESS_MASK ==> And(address, ADDRESS_MASK) == address
  {
    hide And;
    AddressBits(address);
    assert EntryAddress(address) == And(address, ADDRESS_MASK);
  }

  /**
   `make_entry` stores exactly the two rights it is given and bits 12 to 51 of the address, so an aligned
   address in range as it is.
   */
  lemma MakeEntryFields(address: u64, writable: bool, user: bool)
    ensures var e := MakeEntry(address, writable, user);
            && IsPresent(e) && !IsHuge(e)
            && IsWritable(e) == writable && IsUser(e) == user
            && EntryAddress(e) == address / 4096 % 0x100_0000_0000 * 4096
            && (address % PAGE_SIZE == 0 && address <= ADDRESS_MASK ==> EntryAddress(e) == address)
  {
    hide And, Or, IsPresent, IsWritable, IsUser, IsHuge;
    MaskedAddress(address);
    var masked: u64 := And(address, ADDRESS_MASK);
    AddressOnly(masked);
    assert EntryAddress(masked) == masked;
    OrPresentFields(masked);
    var e := Or(masked, PRESENT);
    OrWritableFields(e);
    OrUserFields(if writable then Or(e, WRITABLE) else e);
  }

  /** Widening adds rights and touches nothing else of the entry. */
  lemma WidenFields(entry: u64, writable: bool, user: bool)
    ensures var e := Widen(entry, writable, user);
            && IsPresent(e) == IsPresent(entry) && IsHuge(e) == IsHuge(entry)
            && IsWritable(e) == (IsWritable(entry) || writable)
            && IsUser(e) == (IsUser(entry) || user)
            && EntryAddress(e) == EntryAddress(entry)
  {
    OrUserFields(entry);
    OrWritableFields(if user then Or(entry, USER) else entry);
  }

  // ---- Pages ----

  predicate IsPage(va: nat) {
    va < TWO64 && va % PAGE_SIZE == 0 && IsCanonical(va)
  }

  /** The canonical page that a valid index tuple names. */
  function PageAt(ix: Indexes): (va: u64)
    requires ix.Valid()
  {
    var low := ix.pml4 * 0x80_0000_0000 + ix.pdpt * 0x4000_0000 + ix.pd * 0x20_0000 + ix.pt * 0x1000;
    if ix.pml4 < 256 then low else low + 0xFFFF_0000_0000_0000
  }

  /** The digits of an address in mixed radix: page offset, then four base-512 digits. */
  lemma Digits(va: u64)
    ensures var n := va / 0x1000;
            && va == 0x1000 * n + va % 0x1000
            && va / 0x20_0000 == n / 512
            && va / 0x4000_0000 == n / 512 / 512
            && va / 0x80_0000_0000 == n / 512 / 512 / 512
  {
  }

  lemma Rejoin(n: nat)
    ensures n == n % 512 + 0x200 * (n / 512 % 512) + 0x4_0000 * (n / 512 / 512 % 512)
                 + 0x800_0000 * (n / 512 / 512 / 512)
  {
    var n1 := n / 512;
    var n2 := n1 / 512;
    var n3 := n2 / 512;
    assert n == 512 * n1 + n % 512;
    assert n1 == 512 * n2 + n1 % 512;
    assert n2 == 512 * n3 + n2 % 512;
  }

  /** Splitting and rejoining are inverse, so pages and valid index tuples correspond one to one. */
  lemma PageAtIndexes(va: u64)
    requires IsCanonical(va)
    ensures PageAt(IndexesOf(va)) == va - va % PAGE_SIZE
  {
    IndexesAre(va);
    CanonicalHalves(va);
    Digits(va);
    Rejoin(va / 0x1000);
    TopDigit(va);
  }

  lemma TopDigit(va: u64)
    requires va < 0x8000_0000_0000 || va >= 0xFFFF_8000_0000_0000
    ensures var top := va / 0x80_0000_0000;
            if va < 0x8000_0000_0000 then top < 256 && top % 512 == top
            else top % 512 >= 256 && top == top % 512 + 0x1FF_FE00
  {
  }

  lemma Unjoin(top: nat, pdpt: nat, pd: nat, pt: nat, n: nat)
    requires pdpt < 512 && pd < 512 && pt < 512
    requires n == pt + 0x200 * pd + 0x4_0000 * pdpt + 0x800_0000 * top
    ensures n % 512 == pt && n / 512 % 512 == pd && n / 512 / 512 % 512 == pdpt
    ensures n / 512 / 512 / 512 == top
  {
    var n2 := 512 * top + pdpt;
    var n1 := 512 * n2 + pd;
    assert n == 512 * n1 + pt;
    assert n / 512 == n1 && n1 / 512 == n2;
  }

  lemma Halves(va: u64, top: nat)
    requires va / 0x80_0000_0000 == top
    ensures top < 256 ==> va < 0x8000_0000_0000
    ensures top >= 0x1FF_FF00 ==> va >= 0xFFFF_8000_0000_0000
  {
  }

  lemma TopIndex(i: nat, top: nat)
    requires i < 512 && top == if i < 256 then i else i + 0x1FF_FE00
    ensures top % 512 == i && (top < 256 || top >= 0x1FF_FF00)
  {
  }

  lemma PageAtDigits(ix: Indexes)
    requires ix.Valid()
    ensures var va := PageAt(ix);
            && va % 0x1000 == 0
            && (va < 0x8000_0000_0000 || va >= 0xFFFF_8000_0000_0000)
            && ix == Indexes(va / 0x80_0000_0000 % 512, va / 0x4000_0000 % 512,
                             va / 0x20_0000 % 512, va / 0x1000 % 512)
  {
    var va := PageAt(ix);
    var top := if ix.pml4 < 256 then ix.pml4 else ix.pml4 + 0x1FF_FE00;
    var n := ix.pt + 0x200 * ix.pd + 0x4_0000 * ix.pdpt + 0x800_0000 * top;
    assert va == 0x1000 * n;
    Unjoin(top, ix.pdpt, ix.pd, ix.pt, n);
    assert va / 0x1000 == n && va % 0x1000 == 0;
    Digits(va);
    TopIndex(ix.pml4, top);
    Halves(va, top);
  }

  lemma IndexesOfPageAt(ix: Indexes)
    requires ix.Valid()
    ensures IsPage(PageAt(ix)) && IndexesOf(PageAt(ix)) == ix
  {
    PageAtDigits(ix);
    IndexesAre(PageAt(ix));
    CanonicalHalves(PageAt(ix));
  }

  /** Canonical addresses with equal indexes and equal page offset are equal. */
  lemma IndexesDetermineAddress(va: u64, vb: u64)
    requires IsCanonical(va) && IsCanonical(vb)
    requires IndexesOf(va) == IndexesOf(vb) && va % PAGE_SIZE == vb % PAGE_SIZE
    ensures va == vb
  {
    PageAtIndexes(va);
    PageAtIndexes(vb);
  }
}
