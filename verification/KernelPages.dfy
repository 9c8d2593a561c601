/** Pages taken from the physical allocator for the kernel's own use. */
module KernelPages {
  import opened Memory
  import P = PhysicalPages
  import A = AddressSpaces

  ghost function Kernel(pages: seq<P.Page>, usable: set<int>): set<int> {
    set i | i in usable && 0 <= i < |pages| && pages[i] == P.Page(true, A.Kernel, 0)
  }

  /** mm_phys_alloc_page(PU_KERNEL). */
  method TakePage(phys: P.Allocator) returns (r: Option<int>)
    requires phys.Valid()
    modifies phys
    ensures phys.Valid()
    ensures r.None? <==> old(phys.pagesFree) == 0
    ensures r.None? ==> phys.pages == old(phys.pages) && phys.pagesFree == old(phys.pagesFree)
    ensures r.Some? ==> r.value in P.FreeSet(old(phys.pages), phys.usable)
    ensures r.Some? ==> P.FreeSet(phys.pages, phys.usable) == P.FreeSet(old(phys.pages), phys.usable) - {r.value}
    ensures r.Some? ==> Kernel(phys.pages, phys.usable) == Kernel(old(phys.pages), phys.usable) + {r.value}
    ensures r.Some? ==> phys.pagesFree == old(phys.pagesFree) - 1
  {
    ghost var free := P.FreeSet(phys.pages, phys.usable);
    r := phys.AllocPage(A.Kernel);
    if r.Some? {
      assert P.FreeSet(phys.pages, phys.usable) == free - {r.value};
    }
  }

  /** mm_phys_free_page of a page taken for the kernel. */
  method GivePage(phys: P.Allocator, p: int)
    requires phys.Valid() && p in Kernel(phys.pages, phys.usable)
    modifies phys
    ensures phys.Valid()
    ensures P.FreeSet(phys.pages, phys.usable) == P.FreeSet(old(phys.pages), phys.usable) + {p}
    ensures Kernel(phys.pages, phys.usable) == Kernel(old(phys.pages), phys.usable) - {p}
    ensures phys.pagesFree == old(phys.pagesFree) + 1
  {
    ghost var free := P.FreeSet(phys.pages, phys.usable);
    phys.FreePage(p);
    assert P.FreeSet(phys.pages, phys.usable) == free + {p};
  }

  lemma KernelNotFree(pages: seq<P.Page>, usable: set<int>)
    ensures Kernel(pages, usable) !! P.FreeSet(pages, usable) && P.FreeSet(pages, usable) <= usable && Kernel(pages, usable) <= usable
  {
  }

  lemma FreeNat(phys: P.Allocator)
    requires phys.Valid()
    ensures phys.pagesFree >= 0
  {
  }
}
