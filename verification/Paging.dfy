/** The processor's view of vmm.c's tables: 4-level address translation on 64-bit entries. */
module Paging {

  type Word = bv64

  const PRESENT: Word := 0x1
  const HUGE_2M: Word := 0x80
  const PAGE_2M: Word := 0x20_0000
  const IDENTITY_SIZE: Word := 0x4000_0000

  /** Start of the region whose pages a program may be given: entry 1 of the top table. */
  const USER_START: Word := 0x80_0000_0000

  /** A table index. */
  type Nine = x: nat | x < 512

  /** The index in the low bits of a word. */
  function Low9(w: Word): (x: Nine)
    ensures x as Word == w & 0x1FF
  {
    LowWord(w);
    (w & 0x1FF) as int
  }

  lemma LowBound(w: Word)
    ensures 0 <= (w & 0x1FF) as int < 512
  {
  }

  lemma LowWord(w: Word)
    ensures 0 <= (w & 0x1FF) as int < 512 && ((w & 0x1FF) as int) as Word == w & 0x1FF
  {
    LowBound(w);
    WordBack(w & 0x1FF);
  }

  lemma WordBack(x: Word)
    ensures (x as int) as Word == x
  {
  }

  /** An address as translation sees it: bits 63 to 47 of a canonical address agree. */
  datatype Address = Address(canonical: bool, i4: Nine, i3: Nine, i2: Nine, i1: Nine, va: Word)

  function Split(va: Word): Address {
    Address(va < 0x8000_0000_0000 || va >= 0xFFFF_8000_0000_0000,
            Low9(va >> 39), Low9(va >> 30), Low9(va >> 21), Low9(va >> 12), va)
  }

  /** An entry as translation sees it; `Odd` entries set reserved bits. */
  datatype Pte =
    | Absent
    | Next(base: Word, user: bool, writable: bool)
    | Leaf(frame: Word, user: bool, writable: bool)
    | Odd

  /** An entry of a table at a level, 4 being the top; levels 2 and 3 may end the walk with a large page. */
  function Decode(level: nat, e: Word): Pte {
    if e & 0x1 == 0 then Absent
    else if level == 1 then Leaf(e & 0x000F_FFFF_FFFF_F000, e & 0x4 != 0, e & 0x2 != 0)
    else if e & 0x80 == 0 then Next(e & 0x000F_FFFF_FFFF_F000, e & 0x4 != 0, e & 0x2 != 0)
    else if level == 2 && e & 0x1F_E000 == 0 then Leaf(e & 0x000F_FFFF_FFE0_0000, e & 0x4 != 0, e & 0x2 != 0)
    else if level == 3 && e & 0x3FFF_E000 == 0 then Leaf(e & 0x000F_FFFF_C000_0000, e & 0x4 != 0, e & 0x2 != 0)
    else Odd
  }

  /** The byte of a large or small page an address selects. */
  function At(level: nat, frame: Word, va: Word): Word {
    if level == 1 then frame | (va & 0xFFF)
    else if level == 2 then frame | (va & 0x1F_FFFF)
    else frame | (va & 0x3FFF_FFFF)
  }

  /** A translation, a fault, or a walk that reads something that is not a table. */
  datatype Translation = Frame(physical: Word, user: bool, writable: bool) | Fault | Astray

  datatype Option = None | Some(pte: Pte)

  /** What reading an entry at a level yields, if there is a table at the physical address. */
  type Reader = (nat, Word, Nine) -> Option

  /**
   * Section "4-Level Paging and 5-Level Paging" of volume 3A of the Intel SDM, for 52-bit physical
   * addresses. User code may use a page if every entry on the way to it has the user bit.
   */
  function Walk(read: Reader, top: Word, a: Address): Translation {
    if !a.canonical then Fault
    else
      match read(4, top, a.i4)
      case None => Astray
      case Some(Next(base, u, w)) => Walk3(read, base, a, u, w)
      case Some(_) => Fault
  }

  function Walk3(read: Reader, table: Word, a: Address, user: bool, writable: bool): Translation {
    match read(3, table, a.i3)
    case None => Astray
    case Some(Next(base, u, w)) => Walk2(read, base, a, user && u, writable && w)
    case Some(Leaf(frame, u, w)) => Frame(At(3, frame, a.va), user && u, writable && w)
    case Some(_) => Fault
  }

  function Walk2(read: Reader, table: Word, a: Address, user: bool, writable: bool): Translation {
    match read(2, table, a.i2)
    case None => Astray
    case Some(Next(base, u, w)) => Walk1(read, base, a, user && u, writable && w)
    case Some(Leaf(frame, u, w)) => Frame(At(2, frame, a.va), user && u, writable && w)
    case Some(_) => Fault
  }

  function Walk1(read: Reader, table: Word, a: Address, user: bool, writable: bool): Translation {
    match read(1, table, a.i1)
    case None => Astray
    case Some(Leaf(frame, u, w)) => Frame(At(1, frame, a.va), user && u, writable && w)
    case Some(_) => Fault
  }

  // ----- The kernel's tables in memory -----

  type TableAddress = a: Word | a & 0xFFF == 0 && a < 0x10_0000_0000_0000

  /** Where the linker puts the kernel's five tables. */
  datatype RawPlaces = Places(pml4: TableAddress, pdpt: TableAddress, pd: TableAddress,
                              userPdpt: TableAddress, userPd: TableAddress)

  type Places = p: RawPlaces |
    && p.pml4 !in {p.pdpt, p.pd, p.userPdpt, p.userPd} && p.pdpt !in {p.pd, p.userPdpt, p.userPd}
    && p.pd !in {p.userPdpt, p.userPd} && p.userPdpt != p.userPd
    witness Places(0x1000, 0x2000, 0x3000, 0x4000, 0x5000)

  type Table = t: seq<Word> | |t| == 512 witness seq(512, _ => 0)

  datatype Tables = Tables(pml4: Table, pdpt: Table, pd: Table, userPdpt: Table, userPd: Table)

  /** Physical memory as far as translation reads it. */
  datatype Memory = Memory(t: Tables, p: Places)

  predicate IsTable(m: Memory, a: Word) {
    a == m.p.pml4 || a == m.p.pdpt || a == m.p.pd || a == m.p.userPdpt || a == m.p.userPd
  }

  function Entry(m: Memory, a: Word, x: Nine): Word
    requires IsTable(m, a)
  {
    if a == m.p.pml4 then m.t.pml4[x]
    else if a == m.p.pdpt then m.t.pdpt[x]
    else if a == m.p.pd then m.t.pd[x]
    else if a == m.p.userPdpt then m.t.userPdpt[x]
    else m.t.userPd[x]
  }

  function Reading(m: Memory): Reader {
    (level: nat, a: Word, x: Nine) => if IsTable(m, a) then Some(Decode(level, Entry(m, a, x))) else None
  }

  /** Translation of an address with the control register pointing to a top table. */
  function Translate(m: Memory, cr3: Word, va: Word): Translation {
    Walk(Reading(m), cr3 & 0x000F_FFFF_FFFF_F000, Split(va))
  }

  // ----- What the kernel sets up -----

  /** What a page of the user region is mapped to: the address asked for. */
  datatype Page = Unmapped | Mapped(frame: Word)

  /** The pages of the user region, from `USER_START` on. */
  type UserPages = u: seq<Page> | |u| == 512 witness seq(512, _ => Unmapped)

  function TopEntry(kernel: TableAddress, user: TableAddress, x: Nine): Word {
    if x == 0 then kernel | 0x3 else if x == 1 then user | 0x7 else 0
  }

  function KernelEntry(table: TableAddress, x: Nine): Word {
    if x == 0 then table | 0x3 else 0
  }

  function MiddleEntry(table: TableAddress): Word {
    table | 0x7
  }

  /** The first address of a page of the identity map. */
  function IdentityFrame(x: Nine): Word {
    x as Word << 21
  }

  function IdentityEntry(x: Nine): Word {
    IdentityFrame(x) | 0x83
  }

  function UserEntry(page: Page): Word {
    if page.Unmapped? then 0 else page.frame | 0x87
  }

  /** Row `x` of the kernel's own tables. */
  predicate LaidKernelAt(t: Tables, p: Places, x: Nine) {
    t.pml4[x] == TopEntry(p.pdpt, p.userPdpt, x) && t.pdpt[x] == KernelEntry(p.pd, x) && t.pd[x] == IdentityEntry(x)
  }

  predicate Aligned(page: Page) {
    page.Mapped? ==> page.frame & 0x1F_FFFF == 0
  }

  /** Row `x` of the user tables. The table of user pages is hung in, as `entry`, by the first mapping. */
  predicate LaidUserAt(t: Tables, entry: Word, user: UserPages, x: Nine) {
    && (t.userPdpt[x] == 0 || (x == 0 && t.userPdpt[x] == entry))
    && (t.userPdpt[0] == 0 ==> user[x].Unmapped?)
    && t.userPd[x] == UserEntry(user[x]) && Aligned(user[x])
  }

  predicate LaidAt(t: Tables, p: Places, user: UserPages, x: Nine) {
    LaidKernelAt(t, p, x) && LaidUserAt(t, MiddleEntry(p.userPd), user, x)
  }

  /** What `vmm_init` leaves behind, and every mapping keeps. */
  ghost predicate Laid(t: Tables, p: Places, user: UserPages) {
    forall x: Nine :: LaidAt(t, p, user, x)
  }

  function Frame52(frame: Word): Word {
    frame & 0x000F_FFFF_FFE0_0000
  }

  /** What translation should do: frames are 52 bits wide. */
  function Expected(user: UserPages, va: Word): Translation {
    if va < IDENTITY_SIZE then Frame(va, false, true)
    else if USER_START <= va < USER_START + IDENTITY_SIZE then
      match user[Split(va).i2]
      case Unmapped => Fault
      case Mapped(frame) => Frame(At(2, Frame52(frame), va), true, true)
    else Fault
  }

  /** The frame as the source computes it. */
  lemma FrameIsProduct(x: Nine)
    ensures x as Word * PAGE_2M == IdentityFrame(x)
  {
  }

  lemma EntryIsProduct(x: Nine)
    ensures (x as Word * PAGE_2M) | 0x83 == IdentityEntry(x)
  {
    FrameIsProduct(x);
  }

  // ----- Entries decoded -----

  lemma IdentityBits(i: Word, base: Word, e: Word)
    requires i < 512 && base == i << 21 && e == base | 0x83
    ensures Decode(2, e) == Leaf(base, false, true)
  {
  }

  lemma IdentityDecodes(x: Nine)
    ensures Decode(2, IdentityEntry(x)) == Leaf(IdentityFrame(x), false, true)
  {
    IdentityBits(x as Word, IdentityFrame(x), IdentityEntry(x));
  }

  lemma UserBits(frame: Word, e: Word)
    requires frame & 0x1F_FFFF == 0 && e == frame | 0x87
    ensures Decode(2, e) == Leaf(Frame52(frame), true, true)
  {
  }

  function PageDecoded(page: Page): Pte {
    match page
    case Unmapped => Absent
    case Mapped(frame) => Leaf(Frame52(frame), true, true)
  }

  lemma UserDecodes(page: Page)
    requires Aligned(page)
    ensures Decode(2, UserEntry(page)) == PageDecoded(page)
  {
    if page.Mapped? {
      UserBits(page.frame, UserEntry(page));
    }
  }

  function TopDecoded(kernel: TableAddress, user: TableAddress, x: Nine): Pte {
    if x == 0 then Next(kernel, false, true) else if x == 1 then Next(user, true, true) else Absent
  }

  lemma AbsentDecodes(level: nat)
    ensures Decode(level, 0) == Absent
  {
  }

  lemma KernelTable(level: nat, table: TableAddress)
    requires level == 3 || level == 4
    ensures Decode(level, table | 0x3) == Next(table, false, true)
  {
  }

  lemma UserTable(level: nat, table: TableAddress)
    requires level == 3 || level == 4
    ensures Decode(level, table | 0x7) == Next(table, true, true)
  {
  }

  lemma TopDecodes(kernel: TableAddress, user: TableAddress, x: Nine)
    ensures Decode(4, TopEntry(kernel, user, x)) == TopDecoded(kernel, user, x)
  {
    if x == 0 {
      KernelTable(4, kernel);
    } else if x == 1 {
      UserTable(4, user);
    } else {
      AbsentDecodes(4);
    }
  }

  function KernelDecoded(table: TableAddress, x: Nine): Pte {
    if x == 0 then Next(table, false, true) else Absent
  }

  lemma KernelDecodes(table: TableAddress, x: Nine)
    ensures Decode(3, KernelEntry(table, x)) == KernelDecoded(table, x)
  {
    if x == 0 {
      KernelTable(3, table);
    } else {
      AbsentDecodes(3);
    }
  }

  function MiddleDecoded(present: bool, table: TableAddress): Pte {
    if present then Next(table, true, true) else Absent
  }

  lemma MiddleDecodes(table: TableAddress, e: Word)
    requires e == 0 || e == MiddleEntry(table)
    ensures Decode(3, e) == MiddleDecoded(e != 0, table)
  {
    if e == 0 {
      AbsentDecodes(3);
    } else {
      UserTable(3, table);
    }
  }

  // ----- The walk over the kernel's tables -----

  /** Row `x` of the kernel's tables as the processor reads it; `used` says that the user pages are hung in. */
  predicate WiredAt(read: Reader, p: Places, user: UserPages, used: bool, x: Nine) {
    && read(4, p.pml4, x) == Some(TopDecoded(p.pdpt, p.userPdpt, x))
    && read(3, p.pdpt, x) == Some(KernelDecoded(p.pd, x))
    && read(2, p.pd, x) == Some(Leaf(IdentityFrame(x), false, true))
    && read(3, p.userPdpt, x) == Some(MiddleDecoded(used && x == 0, p.userPd))
    && read(2, p.userPd, x) == Some(PageDecoded(user[x]))
    && (!used ==> user[x].Unmapped?)
  }

  /** The walk in terms of indices. */
  function ExpectedAt(user: UserPages, a: Address): Translation {
    if a.canonical && a.i4 == 0 && a.i3 == 0 then Frame(At(2, IdentityFrame(a.i2), a.va), false, true)
    else if a.canonical && a.i4 == 1 && a.i3 == 0 && user[a.i2].Mapped? then
      Frame(At(2, Frame52(user[a.i2].frame), a.va), true, true)
    else Fault
  }

  lemma WalkWired(read: Reader, p: Places, user: UserPages, used: bool, a: Address)
    requires WiredAt(read, p, user, used, a.i4) && WiredAt(read, p, user, used, a.i3)
    requires WiredAt(read, p, user, used, a.i2)
    ensures Walk(read, p.pml4, a) == ExpectedAt(user, a)
  {
  }

  lemma ReadsEntry(m: Memory, level: nat, a: Word, x: Nine)
    requires IsTable(m, a)
    ensures Reading(m)(level, a, x) == Some(Decode(level, Entry(m, a, x)))
  {
  }

  lemma KernelIsWired(m: Memory, x: Nine)
    requires LaidKernelAt(m.t, m.p, x)
    ensures Reading(m)(4, m.p.pml4, x) == Some(TopDecoded(m.p.pdpt, m.p.userPdpt, x))
    ensures Reading(m)(3, m.p.pdpt, x) == Some(KernelDecoded(m.p.pd, x))
    ensures Reading(m)(2, m.p.pd, x) == Some(Leaf(IdentityFrame(x), false, true))
  {
    ReadsEntry(m, 4, m.p.pml4, x);
    ReadsEntry(m, 3, m.p.pdpt, x);
    ReadsEntry(m, 2, m.p.pd, x);
    TopDecodes(m.p.pdpt, m.p.userPdpt, x);
    KernelDecodes(m.p.pd, x);
    IdentityDecodes(x);
  }

  lemma UserIsWired(m: Memory, user: UserPages, x: Nine)
    requires LaidUserAt(m.t, MiddleEntry(m.p.userPd), user, x)
    ensures Reading(m)(3, m.p.userPdpt, x) == Some(MiddleDecoded(m.t.userPdpt[x] != 0, m.p.userPd))
    ensures Reading(m)(2, m.p.userPd, x) == Some(PageDecoded(user[x]))
  {
    ReadsEntry(m, 3, m.p.userPdpt, x);
    ReadsEntry(m, 2, m.p.userPd, x);
    MiddleDecodes(m.p.userPd, m.t.userPdpt[x]);
    UserDecodes(user[x]);
  }

  lemma LaidIsWired(m: Memory, user: UserPages, x: Nine)
    requires Laid(m.t, m.p, user)
    ensures WiredAt(Reading(m), m.p, user, m.t.userPdpt[0] != 0, x)
  {
    assert LaidAt(m.t, m.p, user, x);
    KernelIsWired(m, x);
    UserIsWired(m, user, x);
  }

  lemma Regions(va: Word)
    ensures var a := Split(va);
            && (va < IDENTITY_SIZE <==> a.canonical && a.i4 == 0 && a.i3 == 0)
            && (USER_START <= va < USER_START + IDENTITY_SIZE <==> a.canonical && a.i4 == 1 && a.i3 == 0)
  {
  }

  lemma JoinBits(i: Word, va: Word)
    requires va < IDENTITY_SIZE && i == (va >> 21) & 0x1FF
    ensures (i << 21) | (va & 0x1F_FFFF) == va
  {
  }

  lemma IdentityJoins(va: Word, x: Nine)
    requires va < IDENTITY_SIZE && x as Word == (va >> 21) & 0x1FF
    ensures At(2, IdentityFrame(x), va) == va
  {
    JoinBits(x as Word, va);
  }

  lemma ExpectedByIndex(user: UserPages, va: Word)
    ensures ExpectedAt(user, Split(va)) == Expected(user, va)
  {
    Regions(va);
    if va < IDENTITY_SIZE {
      IdentityJoins(va, Split(va).i2);
    }
  }

  lemma TopIsTable(a: TableAddress)
    ensures a & 0x000F_FFFF_FFFF_F000 == a
  {
  }

  /** The processor sees the identity below 1 GiB, the user pages in their region, and nothing else. */
  lemma TranslateIsExpected(m: Memory, user: UserPages, va: Word)
    requires Laid(m.t, m.p, user)
    ensures Translate(m, m.p.pml4, va) == Expected(user, va)
  {
    var a := Split(va);
    LaidIsWired(m, user, a.i4);
    LaidIsWired(m, user, a.i3);
    LaidIsWired(m, user, a.i2);
    WalkWired(Reading(m), m.p, user, m.t.userPdpt[0] != 0, a);
    ExpectedByIndex(user, va);
    TopIsTable(m.p.pml4);
  }
}
