/** vmm.c: the five static tables, written in place. */
module VirtualMemories {
  import opened Paging
  import opened PagingRuns

  class VirtualMemory {
    const places: Places
    const pml4: array<Word>
    const pdpt: array<Word>
    const pd: array<Word>
    const userPdpt: array<Word>
    const userPd: array<Word>
    /** Every call of `vmm_map_user_2m` since `vmm_init`. */
    ghost var calls: seq<Call>

    ghost predicate Shaped() {
      && pml4.Length == 512 && pdpt.Length == 512 && pd.Length == 512
      && userPdpt.Length == 512 && userPd.Length == 512
      && pml4 != pdpt && pml4 != pd && pml4 != userPdpt && pml4 != userPd
      && pdpt != pd && pdpt != userPdpt && pdpt != userPd
      && pd != userPdpt && pd != userPd && userPdpt != userPd
    }

    ghost function View(): Tables
      requires Shaped()
      reads pml4, pdpt, pd, userPdpt, userPd
    {
      Tables(pml4[..], pdpt[..], pd[..], userPdpt[..], userPd[..])
    }

    ghost predicate Valid()
      reads this, pml4, pdpt, pd, userPdpt, userPd
    {
      Shaped() && Laid(View(), places, Given(calls))
    }

    /** Memory as the processor sees it once the control register points to the top table. */
    ghost function AsMemory(): Memory
      requires Shaped()
      reads pml4, pdpt, pd, userPdpt, userPd
    {
      Memory(View(), places)
    }

    /** The tables as the boot loader leaves them. */
    constructor (p: Places)
      ensures Shaped() && places == p
      ensures fresh(pml4) && fresh(pdpt) && fresh(pd) && fresh(userPdpt) && fresh(userPd)
    {
      places := p;
      pml4, pdpt, pd := new Word[512], new Word[512], new Word[512];
      userPdpt, userPd := new Word[512], new Word[512];
    }

    static method Clear(table: array<Word>)
      modifies table
      ensures forall i :: 0 <= i < table.Length ==> table[i] == 0
    {
      for i := 0 to table.Length
        invariant forall k :: 0 <= k < i ==> table[k] == 0
      {
        table[i] := 0;
      }
    }

    /** Present, writable and large. */
    static method EntryOfPage(i: Nine) returns (e: Word)
      ensures e == IdentityEntry(i)
    {
      EntryIsProduct(i);
      e := (i as Word * PAGE_2M) | 0x83;
    }

    method FillIdentity()
      requires pd.Length == 512
      modifies pd
      ensures forall x: Nine :: pd[x] == IdentityEntry(x)
    {
      for i := 0 to 512
        invariant forall x: Nine :: x < i ==> pd[x] == IdentityEntry(x)
      {
        pd[i] := EntryOfPage(i);
      }
    }

    /** `vmm_init`. */
    method Init()
      requires Shaped()
      modifies this`calls, pml4, pdpt, pd, userPdpt, userPd
      ensures Valid() && calls == []
    {
      Clear(pml4);
      Clear(pdpt);
      Clear(pd);
      Clear(userPdpt);
      Clear(userPd);
      pml4[0] := places.pdpt | 0x3;
      pdpt[0] := places.pd | 0x3;
      pml4[1] := MiddleEntry(places.userPdpt);
      FillIdentity();
      calls := [];
      FirstTables(View(), places);
    }

    /** Hangs a table into an entry unless one is there. */
    static method HangIn(table: array<Word>, i: nat, entry: Word)
      requires i < table.Length && Usable(table[i], entry)
      modifies table
      ensures table[..] == old(table[..])[i := entry]
    {
      if table[i] & PRESENT == 0 {
        table[i] := entry;
      }
    }

    /** Writes the entry of a page, with the tables on the way. */
    method StorePage(pdIndex: Nine, top: Word, middle: Word, page: Word)
      requires Shaped() && Usable(pml4[1], top) && Usable(userPdpt[0], middle)
      modifies pml4, userPdpt, userPd
      ensures Stored(old(View()), View(), pdIndex, top, middle, page)
    {
      HangIn(pml4, 1, top);
      HangIn(userPdpt, 0, middle);
      userPd[pdIndex] := page;
    }

    /** The stores of a successful call, given the entries they write. */
    method Install(x: Nine, pa: Word, top: Word, middle: Word, page: Word)
      requires Valid() && EntriesFor(places, pa, top, middle, page)
      modifies pml4, userPdpt, userPd
      ensures Laid(View(), places, Given(calls)[x := Mapped(pa)])
    {
      ghost var before := View();
      TopsAreUsable(before, places, Given(calls), pa, top, middle, page);
      StorePage(x, top, middle, page);
      StoresMap(before, View(), places, Given(calls), x, pa, top, middle, page);
    }

    /** The tests of a call: both addresses start a 2 MiB page, and the page is in the user region. */
    static method IsAcceptable(va: Word, pa: Word) returns (ok: bool)
      ensures ok == Acceptable(va, pa)
    {
      if va & 0x1F_FFFF != 0 || pa & 0x1F_FFFF != 0 || va < IDENTITY_SIZE {
        return false;
      }
      var pml4Index, pdptIndex := Low9(va >> 39), Low9(va >> 30);
      return pml4Index == 1 && pdptIndex == 0;
    }

    /** 0 for success, -1 for a refusal, which changes nothing. */
    method MapUser2M(va: Word, pa: Word) returns (r: int)
      requires Valid()
      modifies this`calls, pml4, userPdpt, userPd
      ensures Valid() && calls == old(calls) + [Call(va, pa)]
      ensures r == if Acceptable(va, pa) then 0 else -1
    {
      ghost var c := Call(va, pa);
      GivenOneMore(calls, c);
      var ok := IsAcceptable(va, pa);
      if !ok {
        calls := calls + [c];
        return -1;
      }
      Install(Low9(va >> 21), pa, MiddleEntry(places.userPdpt), MiddleEntry(places.userPd), pa | 0x87);
      calls := calls + [c];
      return 0;
    }

    /** The processor's own translation below 1 GiB; 0 above. */
    method TranslateIdentity(va: Word) returns (r: Word)
      requires Valid()
      ensures if va < IDENTITY_SIZE then Translate(AsMemory(), places.pml4, va) == Frame(r, false, true) else r == 0
    {
      if va >= IDENTITY_SIZE {
        return 0;
      }
      ghost var m := AsMemory();
      TranslateIsExpected(m, Given(calls), va);
      var pdIndex := Low9(va >> 21);
      var e := pd[pdIndex];
      assert LaidAt(m.t, m.p, Given(calls), pdIndex);
      IdentityAnswer(va, e);
      if e & PRESENT == 0 || e & HUGE_2M == 0 {
        return 0;
      }
      return (e & 0x000F_FFFF_FFFF_F000) + (va & (PAGE_2M - 1));
    }
  }
}
