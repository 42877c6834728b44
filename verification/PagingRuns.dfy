/** vmm_init and vmm_map_user_2m on table values, and what runs of them amount to. */
module PagingRuns {
  import opened Paging

  function NoPages(): UserPages { seq(512, _ => Unmapped) }

  /** A call of `vmm_map_user_2m`. */
  datatype Call = Call(va: Word, pa: Word)

  /** The arguments a call succeeds for. */
  predicate Acceptable(va: Word, pa: Word) {
    && va & 0x1F_FFFF == 0 && pa & 0x1F_FFFF == 0
    && va >= IDENTITY_SIZE && Low9(va >> 39) == 1 && Low9(va >> 30) == 0
  }

  predicate Accepts(c: Call) { Acceptable(c.va, c.pa) }

  function Hits(c: Call): Nine { Low9(c.va >> 21) }

  function Apply(user: UserPages, c: Call): UserPages {
    if Accepts(c) then user[Hits(c) := Mapped(c.pa)] else user
  }

  function Given(calls: seq<Call>): UserPages {
    if calls == [] then NoPages() else Apply(Given(calls[..|calls| - 1]), calls[|calls| - 1])
  }

  predicate IsHit(c: Call, x: Nine) {
    Accepts(c) && Hits(c) == x
  }

  lemma ApplyAt(user: UserPages, c: Call, x: Nine)
    ensures Apply(user, c)[x] == if IsHit(c, x) then Mapped(c.pa) else user[x]
  {
  }

  lemma GivenOneMore(calls: seq<Call>, c: Call)
    ensures Given(calls + [c]) == Apply(Given(calls), c)
  {
    assert (calls + [c])[..|calls|] == calls;
  }

  /** What a page is mapped to, and by which call: the last successful one for it. */
  predicate IsLastHit(calls: seq<Call>, i: nat, x: Nine, page: Page) {
    && i < |calls| && IsHit(calls[i], x) && page == Mapped(calls[i].pa)
    && forall j: nat :: i < j < |calls| ==> !IsHit(calls[j], x)
  }

  ghost predicate IsLast(calls: seq<Call>, x: Nine, page: Page) {
    if page.Unmapped? then forall j: nat :: j < |calls| ==> !IsHit(calls[j], x)
    else exists i: nat :: IsLastHit(calls, i, x, page)
  }

  lemma LastOfOneMore(front: seq<Call>, c: Call, x: Nine, before: Page)
    requires IsLast(front, x, before)
    ensures IsLast(front + [c], x, if IsHit(c, x) then Mapped(c.pa) else before)
  {
    var calls := front + [c];
    if IsHit(c, x) {
      assert IsLastHit(calls, |front|, x, Mapped(c.pa));
    } else if before.Mapped? {
      var i: nat :| IsLastHit(front, i, x, before);
      assert IsLastHit(calls, i, x, before);
    }
  }

  /** A page is mapped to the frame of the last successful call for it. */
  lemma {:induction false} GivenIsLast(calls: seq<Call>, x: Nine)
    ensures IsLast(calls, x, Given(calls)[x])
    decreases |calls|
  {
    if calls == [] {
      assert Given(calls)[x] == Unmapped;
    } else {
      var front, c := calls[..|calls| - 1], calls[|calls| - 1];
      GivenIsLast(front, x);
      ApplyAt(Given(front), c, x);
      LastOfOneMore(front, c, x, Given(front)[x]);
      assert calls == front + [c];
    }
  }

  // ----- Steps -----

  /** An entry that is absent or already what it will be. */
  predicate Usable(e: Word, entry: Word) {
    entry & PRESENT != 0 && (e == 0 || e == entry)
  }

  lemma TableEntryIsUsable(e: Word, table: TableAddress)
    requires e == 0 || e == MiddleEntry(table)
    ensures Usable(e, MiddleEntry(table)) && MiddleEntry(table) != 0
  {
  }

  lemma LaidTops(t: Tables, p: Places, user: UserPages)
    requires Laid(t, p, user)
    ensures t.pml4[1] == MiddleEntry(p.userPdpt) && (t.userPdpt[0] == 0 || t.userPdpt[0] == MiddleEntry(p.userPd))
  {
    assert LaidAt(t, p, user, 0) && LaidAt(t, p, user, 1);
  }

  /** The entries a successful call writes. */
  predicate EntriesFor(p: Places, pa: Word, top: Word, middle: Word, page: Word) {
    top == MiddleEntry(p.userPdpt) && middle == MiddleEntry(p.userPd) && page == pa | 0x87 && pa & 0x1F_FFFF == 0
  }

  /** The stores of a successful call. */
  predicate Stored(t: Tables, t': Tables, x: Nine, top: Word, middle: Word, page: Word) {
    && t'.pml4 == t.pml4[1 := top] && t'.pdpt == t.pdpt && t'.pd == t.pd
    && t'.userPdpt == t.userPdpt[0 := middle] && t'.userPd == t.userPd[x := page]
  }

  lemma TopsAreUsable(t: Tables, p: Places, user: UserPages, pa: Word, top: Word, middle: Word, page: Word)
    requires Laid(t, p, user) && EntriesFor(p, pa, top, middle, page)
    ensures Usable(t.pml4[1], top) && Usable(t.userPdpt[0], middle)
  {
    LaidTops(t, p, user);
    TableEntryIsUsable(t.pml4[1], p.userPdpt);
    TableEntryIsUsable(t.userPdpt[0], p.userPd);
  }

  lemma MapKeepsUserRow(t: Tables, t': Tables, entry: Word, user: UserPages, x: Nine, pa: Word, y: Nine)
    requires LaidUserAt(t, entry, user, y) && pa & 0x1F_FFFF == 0 && entry != 0
    requires t'.userPdpt == t.userPdpt[0 := entry] && t'.userPd == t.userPd[x := pa | 0x87]
    ensures LaidUserAt(t', entry, user[x := Mapped(pa)], y)
  {
  }

  /** The stores of a successful call keep every row laid out, for one page more. */
  lemma StoresMap(t: Tables, t': Tables, p: Places, user: UserPages, x: Nine, pa: Word, top: Word, middle: Word,
                  page: Word)
    requires Laid(t, p, user) && EntriesFor(p, pa, top, middle, page) && Stored(t, t', x, top, middle, page)
    ensures Laid(t', p, user[x := Mapped(pa)])
  {
    LaidTops(t, p, user);
    assert t'.pml4 == t.pml4;
    TableEntryIsUsable(0, p.userPd);
    var user' := user[x := Mapped(pa)];
    forall y: Nine ensures LaidAt(t', p, user', y) {
      assert LaidAt(t, p, user, y);
      MapKeepsUserRow(t, t', middle, user, x, pa, y);
    }
  }

  // ----- What a caller gets -----

  predicate InUserRegion(va: Word) {
    USER_START <= va < USER_START + IDENTITY_SIZE
  }

  lemma UserAddress(va: Word)
    requires InUserRegion(va)
    ensures va >= IDENTITY_SIZE && Split(va).canonical && Low9(va >> 39) == 1 && Low9(va >> 30) == 0
  {
    Regions(va);
  }

  lemma AcceptableAddress(va: Word)
    requires Split(va).canonical && Low9(va >> 39) == 1 && Low9(va >> 30) == 0
    ensures InUserRegion(va)
  {
    Regions(va);
  }

  /** The addresses of the user region are the canonical ones a call can succeed for. */
  lemma AcceptableAddresses(va: Word, pa: Word)
    requires va & 0x1F_FFFF == 0 && pa & 0x1F_FFFF == 0
    ensures Acceptable(va, pa) && Split(va).canonical <==> InUserRegion(va)
  {
    if InUserRegion(va) {
      UserAddress(va);
    } else if Acceptable(va, pa) && Split(va).canonical {
      AcceptableAddress(va);
    }
  }

  lemma SamePage(va: Word, offset: Word)
    requires va & 0x1F_FFFF == 0 && offset < PAGE_2M
    ensures Split(va | offset).i2 == Split(va).i2
    ensures Split(va).i4 == 1 && Split(va).i3 == 0 ==>
      (USER_START <= va | offset < USER_START + IDENTITY_SIZE <==> Split(va).canonical)
    ensures Split(va).i4 == 1 ==> va | offset >= IDENTITY_SIZE
  {
  }

  lemma Reaches(pa: Word, va: Word, offset: Word)
    requires pa & 0x1F_FFFF == 0 && va & 0x1F_FFFF == 0 && offset < PAGE_2M
    ensures At(2, Frame52(pa), va | offset) == pa | offset <==> pa < 0x10_0000_0000_0000
  {
  }

  /** What the walk makes of an address in the page of an accepted call. */
  predicate Reached(x: Translation, va: Word, pa: Word, offset: Word) {
    x == if Split(va).canonical then Frame(At(2, Frame52(pa), va | offset), true, true) else Fault
  }

  /** The address is mapped to where it was asked for. */
  predicate ReachedAsAsked(x: Translation, pa: Word, offset: Word) {
    x == Frame(pa | offset, true, true)
  }

  lemma ExpectedOfSuccess(user: UserPages, va: Word, pa: Word, offset: Word, x: Translation)
    requires Acceptable(va, pa) && offset < PAGE_2M && user[Low9(va >> 21)] == Mapped(pa)
    requires x == Expected(user, va | offset)
    ensures Reached(x, va, pa, offset)
  {
    SamePage(va, offset);
  }

  /** The frame reached is the frame asked for when its bits fit. */
  lemma SameFrame(x: Translation, va: Word, pa: Word, offset: Word)
    requires Acceptable(va, pa) && offset < PAGE_2M && Reached(x, va, pa, offset)
    ensures ReachedAsAsked(x, pa, offset) <==> Split(va).canonical && pa < 0x10_0000_0000_0000
  {
    Reaches(pa, va, offset);
  }

  lemma SuccessReaches(user: UserPages, va: Word, pa: Word, offset: Word, x: Translation)
    requires Acceptable(va, pa) && offset < PAGE_2M && user[Low9(va >> 21)] == Mapped(pa)
    requires x == Expected(user, va | offset)
    ensures ReachedAsAsked(x, pa, offset) <==> Split(va).canonical && pa < 0x10_0000_0000_0000
  {
    ExpectedOfSuccess(user, va, pa, offset, x);
    SameFrame(x, va, pa, offset);
  }

  lemma MappedReaches(m: Memory, user: UserPages, va: Word, pa: Word, offset: Word)
    requires Acceptable(va, pa) && offset < PAGE_2M && user[Low9(va >> 21)] == Mapped(pa) && Laid(m.t, m.p, user)
    ensures ReachedAsAsked(Translate(m, m.p.pml4, va | offset), pa, offset)
            <==> Split(va).canonical && pa < 0x10_0000_0000_0000
  {
    TranslateIsExpected(m, user, va | offset);
    SuccessReaches(user, va, pa, offset, Translate(m, m.p.pml4, va | offset));
  }

  /**
   * A successful call maps the whole page exactly when its address is canonical, which the code does
   * not check, and its frame has at most 52 bits, which it does not check either.
   */
  lemma SuccessMapsPage(m: Memory, calls: seq<Call>, va: Word, pa: Word, offset: Word)
    requires Acceptable(va, pa) && offset < PAGE_2M && Laid(m.t, m.p, Given(calls + [Call(va, pa)]))
    ensures ReachedAsAsked(Translate(m, m.p.pml4, va | offset), pa, offset)
            <==> Split(va).canonical && pa < 0x10_0000_0000_0000
  {
    GivenOneMore(calls, Call(va, pa));
    MappedReaches(m, Given(calls + [Call(va, pa)]), va, pa, offset);
  }

  /** Both cases occur: an address outside the canonical range, and a frame of 53 bits. */
  lemma UnsoundCallsSucceed()
    ensures Acceptable(0xFFFF_0080_0000_0000, 0) && !Split(0xFFFF_0080_0000_0000).canonical
    ensures Acceptable(USER_START, 0x10_0000_0000_0000) && Split(USER_START).canonical
  {
  }

  // ----- Identity translation -----

  lemma PagePlusOffset(va: Word, base: Word)
    requires va < IDENTITY_SIZE && base == va & 0x3FE0_0000
    ensures base + (va & (PAGE_2M - 1)) == va
  {
  }

  lemma IdentityBase(va: Word, e: Word)
    requires e == (va & 0x3FE0_0000) | 0x83
    ensures e & PRESENT != 0 && e & HUGE_2M != 0 && e & 0x000F_FFFF_FFFF_F000 == va & 0x3FE0_0000
  {
  }

  lemma EntryOfAddress(va: Word)
    requires va < IDENTITY_SIZE
    ensures IdentityEntry(Low9(va >> 21)) == (va & 0x3FE0_0000) | 0x83
  {
  }

  /** What `vmm_translate_identity` computes from a present large entry below 1 GiB is the address itself. */
  lemma IdentityAnswer(va: Word, e: Word)
    requires va < IDENTITY_SIZE && e == IdentityEntry(Low9(va >> 21))
    ensures e & PRESENT != 0 && e & HUGE_2M != 0
    ensures (e & 0x000F_FFFF_FFFF_F000) + (va & (PAGE_2M - 1)) == va
  {
    EntryOfAddress(va);
    IdentityBase(va, e);
    PagePlusOffset(va, e & 0x000F_FFFF_FFFF_F000);
  }

  // ----- The first tables -----

  /** All entries are absent, except that the first two may be given. */
  predicate OnlyFirst(table: Table, e0: Word, e1: Word) {
    table[0] == e0 && table[1] == e1 && forall i :: 2 <= i < 512 ==> table[i] == 0
  }

  lemma FirstRow(t: Tables, p: Places, user: UserPages, x: Nine)
    requires OnlyFirst(t.pml4, p.pdpt | 0x3, MiddleEntry(p.userPdpt)) && OnlyFirst(t.pdpt, p.pd | 0x3, 0)
    requires OnlyFirst(t.userPdpt, 0, 0) && OnlyFirst(t.userPd, 0, 0)
    requires t.pd[x] == IdentityEntry(x) && user[x].Unmapped?
    ensures LaidAt(t, p, user, x)
  {
  }

  lemma FirstTables(t: Tables, p: Places)
    requires OnlyFirst(t.pml4, p.pdpt | 0x3, MiddleEntry(p.userPdpt)) && OnlyFirst(t.pdpt, p.pd | 0x3, 0)
    requires OnlyFirst(t.userPdpt, 0, 0) && OnlyFirst(t.userPd, 0, 0)
    requires forall x: Nine :: t.pd[x] == IdentityEntry(x)
    ensures Laid(t, p, Given([]))
  {
    forall x: Nine ensures LaidAt(t, p, Given([]), x) {
      FirstRow(t, p, Given([]), x);
    }
  }
}
