/** kalloc.c and vm.c on physical memory: page tables, address spaces and their copies. */
module Vm {
  import opened Common
  import opened VmSpec

  const PGSIZE := 4096
  const KERNBASE := 0x8000_0000

  /** PGROUNDUP, as a page number. */
  function Ceil(a: nat): nat { (a + PGSIZE - 1) / PGSIZE }

  /** It is the first page that begins at `a` or behind it. */
  lemma CeilIs(a: nat, p: nat)
    ensures a <= p * PGSIZE <==> Ceil(a) <= p
  {
  }

  class Kernel {
    /** The first page behind the kernel. */
    const lo: nat
    var mem: seq<Page>
    /** kmem.freelist. */
    var free: seq<nat>
    ghost var owner: seq<Owner>

    ghost function View(): Vm
      reads this
    {
      Vm(lo, mem, free, owner)
    }

    /** At boot nothing is on the free list, and the pages behind the kernel are in hand. */
    constructor (end: nat)
      requires 0 < end <= NPAGES
      ensures Inv(View()) && lo == end && free == [] && forall p :: end <= p < NPAGES ==> owner[p] == Held
    {
      lo, mem, free := end, seq(NPAGES, _ => Fill(ZERO)), [];
      owner := seq(NPAGES, p => if p < end then Other else Held);
    }

    // ------------------------------------------------------------------- kalloc.c

    /** kalloc; 0 if there is no free page. */
    method Kalloc() returns (q: nat)
      requires Inv(View())
      modifies `free, `owner
      ensures Inv(View())
      ensures if old(free) == [] then q == 0 && View() == old(View())
              else q == old(free)[0] >= lo && View() == Pop(old(View()))
    {
      if |free| == 0 { return 0; }
      PopMoves(View());
      MovesInv(View(), Pop(View()));
      q := free[0];
      free := free[1..];
      owner := owner[q := Held];
    }

    /** kfree; panics for a page outside the range of memory it manages. */
    method Kfree(q: nat)
      requires Shape(View()) && lo <= q < NPAGES
      modifies `mem, `free, `owner
      ensures View() == Push(old(View()), q)
      ensures mem == old(mem)[q := Fill(JUNK)] && free == [q] + old(free) && owner == old(owner)[q := Free]
    {
      mem := mem[q := Fill(JUNK)];
      free := [q] + free;
      owner := owner[q := Free];
    }

    /** freerange: every page that lies in the range as a whole becomes free. */
    method Freerange(vstart: nat, vend: nat)
      requires Inv(View()) && lo * PGSIZE <= vstart && vend <= NPAGES * PGSIZE
      requires forall p :: lo <= p < NPAGES && vstart <= p * PGSIZE && (p + 1) * PGSIZE <= vend ==> owner[p] == Held
      modifies `mem, `free, `owner
      ensures Inv(View())
      ensures forall p :: 0 <= p < NPAGES ==>
        owner[p] == if vstart <= p * PGSIZE && (p + 1) * PGSIZE <= vend then Free else old(owner)[p]
    {
      var p := Ceil(vstart);
      while (p + 1) * PGSIZE <= vend
        invariant Inv(View()) && Ceil(vstart) <= p
        invariant forall q :: 0 <= q < NPAGES ==>
          owner[q] == if Ceil(vstart) <= q < p && (q + 1) * PGSIZE <= vend then Free else old(owner)[q]
        decreases NPAGES - p
      {
        PushMoves(View(), p);
        MovesInv(View(), Push(View(), p));
        Kfree(p);
        p := p + 1;
      }
    }

    // ----------------------------------------------------------------------- vm.c

    /** walkpgdir: the table that holds the entry for page `v`; 0 if there is none. */
    method Walk(d: nat, v: nat, alloc: bool) returns (t: nat)
      requires Inv(View()) && IsDir(View(), d) && v < NVPN
      modifies `mem, `free, `owner
      ensures Inv(View()) && IsDir(View(), d) && Within(old(View()), View(), d, NPAGES)
      ensures forall u :: 0 <= u < NVPN ==> Pte(View(), d, u) == Pte(old(View()), d, u)
      ensures t != 0 ==> HasTable(View(), d, v) && mem[d][v / NENT].page == t
      ensures t == 0 ==> !mem[d][v / NENT].p && (alloc ==> free == [])
      ensures (t == 0 || !alloc ==> View() == old(View())) && UsersKept(old(View()), View())
      ensures t != 0 ==> Charged(old(View()), d, v, v + 1, 0, View())
    {
      ghost var s := View();
      assert PdeOk(s, d, v / NENT);
      if mem[d][v / NENT].p {
        t := mem[d][v / NENT].page;
        assert PageOk(s, t);
        OneCharged(s, d, v, s);
        return;
      }
      if !alloc { return 0; }
      t := Kalloc();
      if t == 0 { return; }
      t := Attach(d, v / NENT, t);
      ghost var s1 := Pop(s);
      PopMoves(s);
      forall u | 0 <= u < NVPN ensures Pte(View(), d, u) == Pte(s, d, u) { MovesPte(s, s1, d, u); }
      forall p | 0 <= p < NPAGES ensures Kept(s, View(), d, p) {}
      OneCharged(s, d, v, View());
    }

    /** Clear the page `t` and enter it as table `i`. */
    method Attach(d: nat, i: nat, t: nat) returns (r: nat)
      requires Inv(View()) && IsDir(View(), d) && i < NENT && !mem[d][i].p && lo <= t < NPAGES && owner[t] == Held
      modifies `mem, `owner
      ensures Inv(View()) && IsDir(View(), d) && r == t && free == old(free)
      ensures mem == old(mem)[t := Fill(ZERO)][d := old(mem)[d][i := Word(t, PTE_W + PTE_U, true)]]
      ensures owner == old(owner)[t := Table(d, i)]
      ensures forall u :: 0 <= u < NVPN ==> Pte(View(), d, u) == Pte(old(View()), d, u)
    {
      ghost var s := View();
      WriteHeldMoves(s, t, Fill(ZERO));
      mem := mem[t := Fill(ZERO)];
      ghost var s1 := View();
      MovesInv(s, s1);
      NewTableInv(s1, d, i, t);
      forall u | 0 <= u < NVPN ensures Pte(NewTable(s1, d, i, t), d, u) == Pte(s, d, u) {
        MovesPte(s, s1, d, u);
        NewTablePte(s1, d, i, t, d, u);
      }
      mem := mem[d := mem[d][i := Word(t, PTE_W + PTE_U, true)]];
      owner := owner[t := Table(d, i)];
      r := t;
    }

    /** One page of mappages. A page of user memory comes from the caller's hands; the entry
        must not be in use already. `ok` is false if there was no page for a table. */
    method MapPage(d: nat, v: nat, pa: nat, perm: nat) returns (ok: bool)
      requires Inv(View()) && IsDir(View(), d) && v < NVPN && !Pte(View(), d, v).p
      requires v < KERNPAGE ==> pa < NPAGES && owner[pa] == Held
      modifies `mem, `free, `owner
      ensures Inv(View()) && IsDir(View(), d) && Within(old(View()), View(), d, if v < KERNPAGE then pa else NPAGES)
      ensures Mapped(old(View()), d, v, if ok then 1 else 0, pa, perm, View()) && UsersKept(old(View()), View())
      ensures v < KERNPAGE ==> owner[pa] == (if ok then User(d, v) else Held) && mem[pa] == old(mem)[pa]
      ensures if ok then Charged(old(View()), d, v, v + 1, 0, View())
              else free == [] && View() == old(View()) && Tables(mem[d], v, v + 1) == 1
    {
      ghost var s := View();
      var t := Walk(d, v, true);
      ok := t != 0;
      ghost var s1 := View();
      if v < KERNPAGE { assert Kept(s, s1, d, pa); }
      if ok {
        ghost var w := Word(pa, perm, true);
        assert PdeOk(s1, d, v / NENT);
        if v < KERNPAGE {
          MapUserInv(s1, d, v, w);
          SetWithin(s1, d, v, w, pa, User(d, v));
          forall u | 0 <= u < NVPN
            ensures Pte(SetPte(s1, d, v, w, pa, User(d, v)), d, u) == if u == v then w else Pte(s1, d, u)
          {
            SetPtePte(s1, d, v, w, pa, User(d, v), d, u);
          }
          owner := owner[pa := User(d, v)];
        } else {
          MapKernelInv(s1, d, v, w);
          SetWithin(s1, d, v, w, 0, owner[0]);
          forall u | 0 <= u < NVPN
            ensures Pte(SetPte(s1, d, v, w, 0, owner[0]), d, u) == if u == v then w else Pte(s1, d, u)
          {
            SetPtePte(s1, d, v, w, 0, owner[0], d, u);
          }
        }
        mem := mem[t := mem[t][v % NENT := Word(pa, perm, true)]];
        StillCharged(s, d, v, s1, View());
      } else {
        OneTable(mem[d], v);
      }
      WithinMore(s, s1, View(), d, if v < KERNPAGE then pa else NPAGES);
    }

    /** mappages of `size` bytes from `va` on. `k` pages are mapped: all, unless the free pages do
        not suffice for the tables that are missing. User memory is mapped a page at a time. */
    method MapPages(d: nat, va: nat, size: nat, pa: nat, perm: nat) returns (ok: bool, ghost k: nat)
      requires Inv(View()) && IsDir(View(), d) && 1 <= size && va + size <= NVPN * PGSIZE
      requires forall u :: va / PGSIZE <= u <= (va + size - 1) / PGSIZE ==> !Pte(View(), d, u).p
      requires va < KERNBASE ==> va % PGSIZE == 0 && size == PGSIZE && pa < NPAGES && owner[pa] == Held
      modifies `mem, `free, `owner
      ensures Inv(View()) && IsDir(View(), d) && Within(old(View()), View(), d, if va < KERNBASE then pa else NPAGES)
      ensures Mapped(old(View()), d, va / PGSIZE, k, pa, perm, View()) && UsersKept(old(View()), View())
      ensures k <= (va + size - 1) / PGSIZE - va / PGSIZE + 1
      ensures ok <==> k == (va + size - 1) / PGSIZE - va / PGSIZE + 1
      ensures va < KERNBASE ==> owner[pa] == (if ok then User(d, va / PGSIZE) else Held) && mem[pa] == old(mem)[pa]
      ensures ok <==> Tables(old(mem)[d], va / PGSIZE, (va + size - 1) / PGSIZE + 1) <= |old(free)|
      ensures if ok then Charged(old(View()), d, va / PGSIZE, (va + size - 1) / PGSIZE + 1, 0, View()) else free == []
    {
      ok, k := MapRange(d, va / PGSIZE, (va + size - 1) / PGSIZE, pa, perm);
    }

    /** The loop of mappages, from the page `first` to the page `last`. */
    method MapRange(d: nat, first: nat, last: nat, pa: nat, perm: nat) returns (ok: bool, ghost k: nat)
      requires Inv(View()) && IsDir(View(), d) && first <= last < NVPN
      requires forall u :: first <= u <= last ==> !Pte(View(), d, u).p
      requires first < KERNPAGE ==> last == first && pa < NPAGES && owner[pa] == Held
      modifies `mem, `free, `owner
      ensures Inv(View()) && IsDir(View(), d) && Within(old(View()), View(), d, if first < KERNPAGE then pa else NPAGES)
      ensures Mapped(old(View()), d, first, k, pa, perm, View()) && UsersKept(old(View()), View())
      ensures k <= last - first + 1 && (ok <==> k == last - first + 1)
      ensures first < KERNPAGE ==> owner[pa] == (if ok then User(d, first) else Held) && mem[pa] == old(mem)[pa]
      ensures ok <==> Tables(old(mem)[d], first, last + 1) <= |old(free)|
      ensures if ok then Charged(old(View()), d, first, last + 1, 0, View()) else free == []
    {
      var a, p := first, pa;
      ghost var s, m := View(), if first < KERNPAGE then pa else NPAGES;
      k := 0;
      ChargedNone(s, d, a);
      while true
        invariant a == first + k <= last && p == pa + k
        invariant Inv(View()) && IsDir(View(), d) && Within(s, View(), d, m) && Mapped(s, d, first, k, pa, perm, View())
        invariant UsersKept(s, View())
        invariant first < KERNPAGE ==> k == 0 && owner[pa] == Held && mem[pa] == s.mem[pa]
        invariant Charged(s, d, first, a, 0, View())
        decreases last - a
      {
        ok := MapNext(d, first, last, a, p, perm, s, k, pa);
        if !ok { return; }
        k := k + 1;
        if a == last { return; }
        a, p := a + 1, p + 1;
      }
    }

    /** A round of mappages: page `a`, the one behind the `k` mapped so far. */
    method MapNext(d: nat, ghost first: nat, ghost last: nat, a: nat, p: nat, perm: nat,
                   ghost s: Vm, ghost k: nat, ghost pa: nat) returns (ok: bool)
      requires Inv(View()) && IsDir(View(), d) && first <= a == first + k <= last < NVPN && p == pa + k
      requires Within(s, View(), d, if first < KERNPAGE then pa else NPAGES) && Mapped(s, d, first, k, pa, perm, View())
      requires UsersKept(s, View()) && !Pte(s, d, a).p && Charged(s, d, first, a, 0, View())
      requires first < KERNPAGE ==> k == 0 && pa < NPAGES && owner[pa] == Held && mem[pa] == s.mem[pa]
      modifies `mem, `free, `owner
      ensures Inv(View()) && IsDir(View(), d) && Within(s, View(), d, if first < KERNPAGE then pa else NPAGES)
      ensures Mapped(s, d, first, if ok then k + 1 else k, pa, perm, View()) && UsersKept(s, View())
      ensures first < KERNPAGE ==> owner[pa] == (if ok then User(d, first) else Held) && mem[pa] == s.mem[pa]
      ensures if ok then Charged(s, d, first, a + 1, 0, View())
              else free == [] && |s.free| < Tables(s.mem[d], first, last + 1)
    {
      ghost var s1 := View();
      assert Pte(s1, d, a) == Pte(s, d, a);
      ok := MapPage(d, a, p, perm);
      WithinTrans(s, s1, View(), d, if first < KERNPAGE then pa else NPAGES);
      MappedMore(s, s1, d, first, k, ok, pa, perm, View());
      if ok {
        ChargedMore(s, s1, View(), d, first, a, 0, 0);
      } else {
        ChargedShort(s, s1, d, first, a, 0, 0, last + 1);
      }
    }

    /** The body of deallocuvm's loop for a present entry: free the page, clear the entry. */
    method Unmap(d: nat, v: nat, t: nat)
      requires HasTable(View(), d, v) && v < KERNPAGE && mem[d][v / NENT].page == t && mem[t][v % NENT].p
      modifies `mem, `free, `owner
      ensures Inv(View()) && IsDir(View(), d) && Within(old(View()), View(), d, NPAGES)
      ensures Cleared(old(View()), d, v, v + 1, View())
    {
      ghost var s := View();
      UnmapUserInv(s, d, v);
      var q := mem[t][v % NENT].page;
      ghost var s1 := SetPte(s, d, v, ZERO, q, Held);
      assert PdeOk(s, d, v / NENT);
      PushMoves(s1, q);
      MovesInv(s1, Push(s1, q));
      Kfree(q);
      mem := mem[t := mem[t][v % NENT := ZERO]];
      assert View() == Push(s1, q);
      forall u | 0 <= u < NVPN ensures Pte(View(), d, u) == if u == v then ZERO else Pte(s, d, u) {
        SetPtePte(s, d, v, ZERO, q, Held, d, u);
        MovesPte(s1, View(), d, u);
      }
      forall p | 0 <= p < NPAGES ensures Kept(s, View(), d, p) {}
      assert forall p :: 0 <= p < NPAGES && s.owner[p] == User(d, v) ==> PageOk(s, p);
    }

    /** deallocuvm: where a whole table is missing the loop goes on behind it, and still the
        outcome is that of looking at every page. */
    method Deallocuvm(d: nat, oldsz: nat, newsz: nat) returns (sz: nat)
      requires Inv(View()) && IsDir(View(), d) && oldsz <= KERNBASE
      modifies `mem, `free, `owner
      ensures Inv(View()) && IsDir(View(), d) && Within(old(View()), View(), d, NPAGES)
      ensures sz == if newsz >= oldsz then oldsz else newsz
      ensures Cleared(old(View()), d, Ceil(newsz), Ceil(oldsz), View())
    {
      ghost var s := View();
      NothingCleared(s, d, Ceil(newsz));
      if newsz >= oldsz {
        CeilOrder(oldsz, newsz);
        return oldsz;
      }
      var a := Ceil(newsz);
      while a * PGSIZE < oldsz
        invariant Ceil(newsz) <= a && Inv(View()) && IsDir(View(), d) && Within(s, View(), d, NPAGES)
        invariant Cleared(s, d, Ceil(newsz), a, View())
        invariant forall u :: Ceil(oldsz) <= u < a && u < NVPN ==> !Pte(s, d, u).p
        decreases KERNPAGE - a
      {
        ghost var s1 := View();
        var t := Walk(d, a, false);
        if t == 0 {
          SkipTable(s, d, Ceil(newsz), a, s1);
          a := (a / NENT + 1) * NENT - 1;
        } else if mem[t][a % NENT].p {
          Unmap(d, a, t);
          WithinTrans(s, s1, View(), d, NPAGES);
          ClearedMore(s, s1, d, Ceil(newsz), a, View());
        } else {
          SkipOne(s, d, Ceil(newsz), a, s1);
        }
        a := a + 1;
      }
      ClearedTo(s, d, Ceil(newsz), a, Ceil(oldsz), View());
      sz := newsz;
    }

    /** freevm: all pages of the directory, and no others, become free. */
    method Freevm(d: nat)
      requires Inv(View()) && IsDir(View(), d)
      modifies `mem, `free, `owner
      ensures Inv(View()) && AllFreed(old(View()), d, View())
    {
      ghost var s := View();
      var sz := Deallocuvm(d, KERNBASE, 0);
      ghost var s1 := View();
      DetachedInv(s1, d);
      owner := Detached(s1, d).owner;
      var i := 0;
      while i < NENT
        invariant 0 <= i <= NENT && Inv(View()) && mem[d] == s1.mem[d] && Freeing(s1, d, i, View())
        decreases NENT - i
      {
        ghost var s2 := View();
        assert PdeOk(s1, d, i);
        if mem[d][i].p {
          var q := mem[d][i].page;
          assert FreeingAt(s1, d, i, s2, q) && PageOk(s2, q);
          PushMoves(s2, q);
          MovesInv(s2, Push(s2, q));
          Kfree(q);
        }
        FreeingMore(s1, d, i, s2, View());
        i := i + 1;
      }
      ghost var s2 := View();
      assert FreeingAt(s1, d, i, s2, d) && PageOk(s2, d);
      PushMoves(s2, d);
      MovesInv(s2, Push(s2, d));
      Kfree(d);
      FreeingDone(s, s1, d, s2, View());
    }

    /** A fresh page with the given contents becomes virtual page `v`; both copyuvm and allocuvm
        do this for every page. Without a page for a table, `m` stays in the caller's hands. */
    method PutPage(d: nat, v: nat, page: Page, perm: nat) returns (r: Put, m: nat)
      requires Inv(View()) && IsDir(View(), d) && v < KERNPAGE && !Pte(View(), d, v).p && |page| == NENT
      modifies `mem, `free, `owner
      ensures Inv(View()) && IsDir(View(), d) && UsersKept(old(View()), View())
      ensures r.NoPage? ==> View() == old(View()) && free == []
      ensures !r.NoPage? ==> lo <= m < NPAGES && old(owner)[m] == Free
      ensures r.Done? ==> owner[m] == User(d, v) && mem[m] == page && Within(old(View()), View(), d, NPAGES)
      ensures r.NoTable? ==> owner[m] == Held && Within(old(View()), View(), d, m)
      ensures Mapped(old(View()), d, v, if r.Done? then 1 else 0, m, perm, View())
      ensures if r.Done? then Charged(old(View()), d, v, v + 1, 1, View())
              else free == [] && |old(free)| < 1 + Tables(old(mem)[d], v, v + 1)
    {
      ghost var s := View();
      m := GetPage(page);
      if m == 0 { return NoPage, m; }
      ghost var s1 := View();
      GotPte(s, page, d);
      var ok := MapUser(d, v, m, perm);
      r := if ok then Done else NoTable;
      PutWithin(s, page, View(), d);
      PutMapped(s, s1, d, v, if ok then 1 else 0, m, perm, View());
      if ok { GotCharged(s, page, d, v, View()); }
    }

    /** Take a page and fill it. */
    method GetPage(page: Page) returns (m: nat)
      requires Inv(View()) && |page| == NENT
      modifies `mem, `free, `owner
      ensures Inv(View())
      ensures if old(free) == [] then m == 0 && View() == old(View())
              else m == old(free)[0] && lo <= m < NPAGES && View() == Got(old(View()), page)
    {
      ghost var s := View();
      m := Kalloc();
      if m != 0 {
        WriteHeldMoves(View(), m, page);
        MovesInv(View(), Got(s, page));
        mem := mem[m := page];
      }
    }

    /** mappages for one page of user memory. */
    method MapUser(d: nat, v: nat, m: nat, perm: nat) returns (ok: bool)
      requires Inv(View()) && IsDir(View(), d) && v < KERNPAGE && !Pte(View(), d, v).p && m < NPAGES && owner[m] == Held
      modifies `mem, `free, `owner
      ensures Inv(View()) && IsDir(View(), d) && UsersKept(old(View()), View()) && Within(old(View()), View(), d, m)
      ensures owner[m] == (if ok then User(d, v) else Held) && mem[m] == old(mem)[m]
      ensures Mapped(old(View()), d, v, if ok then 1 else 0, m, perm, View())
      ensures if ok then Charged(old(View()), d, v, v + 1, 0, View())
              else free == [] && |old(free)| < Tables(old(mem)[d], v, v + 1)
    {
      assert v * PGSIZE / PGSIZE == v && (v * PGSIZE + PGSIZE - 1) / PGSIZE == v;
      ghost var k;
      ok, k := MapPages(d, v * PGSIZE, PGSIZE, m, perm);
    }

    /** setupkvm: a directory with the kernel's mappings and nothing else. If pages run out on
        the way, everything is given back. `data` is the address of the kernel's data. */
    method Setupkvm(data: nat) returns (d: nat)
      requires Inv(View()) && DataOk(data)
      modifies `mem, `free, `owner
      ensures Inv(View())
      ensures d == 0 ==> Same(old(View()), View())
      ensures d != 0 ==>
        d < NPAGES && old(owner)[d] == Free && IsDir(View(), d) && Within(old(View()), View(), d, NPAGES)
      ensures d != 0 ==>
        UsersKept(old(View()), View()) && forall u :: 0 <= u < NVPN ==> Pte(View(), d, u) == KernelPte(data, 4, u)
      ensures d == 0 <==> |old(free)| < KERNELPAGES
      ensures d != 0 ==> Built(data, 4, old(View()), d, View())
    {
      ghost var s := View();
      d := GetPage(Fill(ZERO));
      if d == 0 { return; }
      StartDir(s, d);
      owner := owner[d := Dir];
      StartBuilt(data, s, d, View());
      var e := 0;
      while e < 4
        invariant 0 <= e <= 4 && Inv(View()) && IsDir(View(), d) && Within(s, View(), d, NPAGES) && UsersKept(s, View())
        invariant forall u :: 0 <= u < NVPN ==> Pte(View(), d, u) == KernelPte(data, e, u)
        invariant Built(data, e, s, d, View())
      {
        ghost var s1 := View();
        var ok := MapRow(data, e, d, s);
        WithinTrans(s, s1, View(), d, NPAGES);
        if !ok {
          ghost var s2 := View();
          Freevm(d);
          GaveBack(s, s2, d, View());
          return 0;
        }
        e := e + 1;
      }
    }

    /** mappages for one row of kmap. */
    method MapRow(data: nat, e: nat, d: nat, ghost s: Vm) returns (ok: bool)
      requires Inv(View()) && IsDir(View(), d) && DataOk(data) && e < 4 && Built(data, e, s, d, View())
      requires forall u :: 0 <= u < NVPN ==> Pte(View(), d, u) == KernelPte(data, e, u)
      modifies `mem, `free, `owner
      ensures Inv(View()) && IsDir(View(), d) && Within(old(View()), View(), d, NPAGES)
      ensures UsersKept(old(View()), View())
      ensures ok ==>
        Built(data, e + 1, s, d, View()) && forall u :: 0 <= u < NVPN ==> Pte(View(), d, u) == KernelPte(data, e + 1, u)
      ensures !ok ==> |s.free| < KERNELPAGES
    {
      ghost var s1 := View();
      var k := Kmap(data, e);
      KmapFree(data, e);
      KmapCost(data, e, s, d, s1);
      ghost var n;
      ok, n := MapPages(d, k.virt, (k.physEnd - k.physStart + NVPN * PGSIZE) % (NVPN * PGSIZE),
                        k.physStart / PGSIZE, k.perm);
      if ok {
        KmapDone(data, e, s1, d, View());
        KmapBuilt(data, e, s, d, s1, View());
      }
    }

    /** copyuvm: the child has the parent's bytes and flags below `sz`, on pages of its own. If
        pages run out on the way, everything is given back. */
    method Copyuvm(pgdir: nat, sz: nat, data: nat) returns (d: nat)
      requires Inv(View()) && IsDir(View(), pgdir) && DataOk(data) && sz <= KERNBASE
      requires forall v :: 0 <= v < Ceil(sz) ==> Pte(View(), pgdir, v).p
      modifies `mem, `free, `owner
      ensures Inv(View())
      ensures d == 0 ==> Same(old(View()), View())
      ensures d != 0 ==>
        d < NPAGES && old(owner)[d] == Free && IsDir(View(), d) && Within(old(View()), View(), d, NPAGES)
      ensures d != 0 ==> Child(old(View()), pgdir, d, Ceil(sz), data, View())
      ensures d == 0 <==> |old(free)| < ChildPages(Ceil(sz))
      ensures d != 0 ==> |free| + ChildPages(Ceil(sz)) == |old(free)|
    {
      ghost var s := View();
      d := Setupkvm(data);
      if d == 0 { return; }
      ghost var s0 := View();
      ChildTables(data, s, d, s0, Ceil(sz));
      ChargedNone(s0, d, 0);
      var i := 0;
      while i * PGSIZE < sz
        invariant 0 <= i <= Ceil(sz) && Inv(View()) && IsDir(View(), d) && d != pgdir && s.owner[d] == Free
        invariant Within(s, View(), d, NPAGES) && Child(s, pgdir, d, i, data, View()) && Charged(s0, d, 0, i, i, View())
        decreases Ceil(sz) - i
      {
        ghost var s1 := View();
        var r, m := CopyPage(pgdir, d, i, s);
        if !r.Done? {
          ChargedShort(s0, s1, d, 0, i, i, 1, Ceil(sz));
          if r.NoTable? { DropPage(m, d, s, s1); }
          ghost var s2 := View();
          Freevm(d);
          GaveBack(s, s2, d, View());
          return 0;
        }
        WithinTrans(s, s1, View(), d, NPAGES);
        ChildMore(s, pgdir, d, i, data, s1, m, View());
        ChargedMore(s0, s1, View(), d, 0, i, i, 1);
        i := i + 1;
      }
    }

    /** Copy virtual page `i` of the parent. */
    method CopyPage(pgdir: nat, d: nat, i: nat, ghost s: Vm) returns (r: Put, m: nat)
      requires Inv(View()) && IsDir(View(), d) && d != pgdir && i < KERNPAGE && !Pte(View(), d, i).p
      requires Inv(s) && IsDir(s, pgdir) && Within(s, View(), d, NPAGES) && Pte(s, pgdir, i).p
      modifies `mem, `free, `owner
      ensures Inv(View()) && IsDir(View(), d) && UsersKept(old(View()), View())
      ensures r.NoPage? ==> View() == old(View())
      ensures !r.NoPage? ==> lo <= m < NPAGES && old(owner)[m] == Free
      ensures r.Done? ==>
        Pte(s, pgdir, i).page < NPAGES && owner[m] == User(d, i) && mem[m] == s.mem[Pte(s, pgdir, i).page]
      ensures r.Done? ==> Within(old(View()), View(), d, NPAGES)
      ensures r.NoTable? ==> owner[m] == Held && Within(old(View()), View(), d, m)
      ensures Mapped(old(View()), d, i, if r.Done? then 1 else 0, m, Pte(s, pgdir, i).flags, View())
      ensures if r.Done? then Charged(old(View()), d, i, i + 1, 1, View())
              else free == [] && |old(free)| < 1 + Tables(old(mem)[d], i, i + 1)
    {
      OtherPte(s, View(), d, NPAGES, pgdir, i);
      assert PteOk(s, pgdir, i) && Kept(s, View(), d, Pte(s, pgdir, i).page);
      var t := Walk(pgdir, i, false);
      var e := mem[t][i % NENT];
      r, m := PutPage(d, i, mem[e.page], e.flags);
    }

    /** kfree a page in hand. */
    method DropPage(m: nat, ghost d: nat, ghost s: Vm, ghost s1: Vm)
      requires Inv(View()) && IsDir(View(), d) && lo <= m < NPAGES && owner[m] == Held
      requires Within(s, s1, d, NPAGES) && Within(s1, View(), d, m) && s1.owner[m] == Free
      modifies `mem, `free, `owner
      ensures Inv(View()) && IsDir(View(), d) && Within(s, View(), d, NPAGES) && View() == Push(old(View()), m)
    {
      ghost var s2 := View();
      PushMoves(s2, m);
      MovesInv(s2, Push(s2, m));
      Kfree(m);
      forall p | 0 <= p < NPAGES ensures Kept(s1, View(), d, p) { if p != m { assert Kept(s1, s2, d, p); } }
      WithinTrans(s, s1, View(), d, NPAGES);
    }

    /** allocuvm: grow from `oldsz` to `newsz` bytes with pages full of zeros, or not at all; only
        page tables may stay behind. */
    method Allocuvm(d: nat, oldsz: nat, newsz: nat) returns (sz: nat, ghost ok: bool)
      requires Inv(View()) && IsDir(View(), d)
      requires newsz < KERNBASE ==> forall u :: Ceil(oldsz) <= u < Ceil(newsz) ==> !Pte(View(), d, u).p
      modifies `mem, `free, `owner
      ensures Inv(View()) && IsDir(View(), d) && Within(old(View()), View(), d, NPAGES)
      ensures UsersKept(old(View()), View())
      ensures ok <==> sz == newsz && oldsz <= newsz < KERNBASE
      ensures newsz >= KERNBASE ==> sz == 0 && View() == old(View())
      ensures newsz < KERNBASE && newsz < oldsz ==> sz == oldsz && View() == old(View())
      ensures ok ==> Grown(old(View()), d, Ceil(oldsz), Ceil(newsz), View())
      ensures !ok && oldsz <= newsz ==> sz == 0 && TablesOnly(old(View()), d, View())
      ensures oldsz <= newsz < KERNBASE ==> (ok <==> GrowPages(old(mem)[d], Ceil(oldsz), Ceil(newsz)) <= |old(free)|)
      ensures ok ==> |free| + GrowPages(old(mem)[d], Ceil(oldsz), Ceil(newsz)) == |old(free)|
    {
      ok := false;
      if newsz >= KERNBASE { return 0, ok; }
      if newsz < oldsz { return oldsz, ok; }
      CeilOrder(oldsz, newsz);
      var done := Grow(d, oldsz, newsz);
      sz, ok := if done then newsz else 0, done;
    }

    /** The loop of allocuvm. */
    method Grow(d: nat, oldsz: nat, newsz: nat) returns (ok: bool)
      requires Inv(View()) && IsDir(View(), d) && Ceil(oldsz) <= Ceil(newsz) && oldsz <= newsz < KERNBASE
      requires forall u :: Ceil(oldsz) <= u < Ceil(newsz) ==> !Pte(View(), d, u).p
      modifies `mem, `free, `owner
      ensures Inv(View()) && IsDir(View(), d) && Within(old(View()), View(), d, NPAGES)
      ensures UsersKept(old(View()), View())
      ensures ok ==> Grown(old(View()), d, Ceil(oldsz), Ceil(newsz), View())
      ensures ok ==> Charged(old(View()), d, Ceil(oldsz), Ceil(newsz), Ceil(newsz) - Ceil(oldsz), View())
      ensures !ok ==>
        TablesOnly(old(View()), d, View()) && |old(free)| < GrowPages(old(mem)[d], Ceil(oldsz), Ceil(newsz))
    {
      ghost var s := View();
      var a := Ceil(oldsz);
      ChargedNone(s, d, a);
      while a * PGSIZE < newsz
        invariant Ceil(oldsz) <= a <= Ceil(newsz) && Inv(View()) && IsDir(View(), d)
        invariant Within(s, View(), d, NPAGES) && UsersKept(s, View()) && Grown(s, d, Ceil(oldsz), a, View())
        invariant Charged(s, d, Ceil(oldsz), a, a - Ceil(oldsz), View())
        decreases Ceil(newsz) - a
      {
        ok := GrowPage(d, oldsz, newsz, a, s);
        if !ok { return; }
        a := a + 1;
      }
      ok := true;
    }

    /** A round of the loop: page `a` comes in, or the loop is undone. */
    method GrowPage(d: nat, oldsz: nat, newsz: nat, a: nat, ghost s: Vm) returns (ok: bool)
      requires Inv(View()) && IsDir(View(), d) && oldsz <= newsz < KERNBASE && Ceil(oldsz) <= a < Ceil(newsz)
      requires Inv(s) && IsDir(s, d) && forall u :: Ceil(oldsz) <= u < Ceil(newsz) ==> !Pte(s, d, u).p
      requires Within(s, View(), d, NPAGES) && UsersKept(s, View()) && Grown(s, d, Ceil(oldsz), a, View())
      requires Charged(s, d, Ceil(oldsz), a, a - Ceil(oldsz), View())
      modifies `mem, `free, `owner
      ensures Inv(View()) && IsDir(View(), d) && Within(s, View(), d, NPAGES) && UsersKept(s, View())
      ensures ok ==> Grown(s, d, Ceil(oldsz), a + 1, View())
      ensures ok ==> Charged(s, d, Ceil(oldsz), a + 1, a + 1 - Ceil(oldsz), View())
      ensures !ok ==> TablesOnly(s, d, View()) && |s.free| < GrowPages(s.mem[d], Ceil(oldsz), Ceil(newsz))
    {
      ghost var s1 := View();
      assert Pte(s1, d, a) == Pte(s, d, a);
      var r, m := PutPage(d, a, Fill(ZERO), PTE_W + PTE_U);
      ok := r.Done?;
      if ok {
        WithinTrans(s, s1, View(), d, NPAGES);
        GrownMore(s, s1, d, Ceil(oldsz), a, m, View());
        ChargedMore(s, s1, View(), d, Ceil(oldsz), a, a - Ceil(oldsz), 1);
      } else {
        ChargedShort(s, s1, d, Ceil(oldsz), a, a - Ceil(oldsz), 1, Ceil(newsz));
        Undo(d, oldsz, newsz, r, m, s, s1, a);
      }
    }

    /** The way out of allocuvm when a page or a table could not be had. */
    method Undo(d: nat, oldsz: nat, newsz: nat, r: Put, m: nat, ghost s: Vm, ghost s1: Vm, ghost a: nat)
      requires Inv(View()) && IsDir(View(), d) && oldsz <= newsz < KERNBASE && Ceil(oldsz) <= a <= Ceil(newsz)
      requires !r.Done?
      requires Inv(s) && IsDir(s, d) && forall u :: Ceil(oldsz) <= u < Ceil(newsz) ==> !Pte(s, d, u).p
      requires Grown(s, d, Ceil(oldsz), a, s1) && Within(s, s1, d, NPAGES) && UsersKept(s, s1)
      requires UsersKept(s1, View()) && Mapped(s1, d, a, 0, m, PTE_W + PTE_U, View())
      requires Within(s1, View(), d, if r.NoTable? then m else NPAGES)
      requires r.NoTable? ==> lo <= m < NPAGES && s1.owner[m] == Free && owner[m] == Held
      modifies `mem, `free, `owner
      ensures Inv(View()) && IsDir(View(), d) && Within(s, View(), d, NPAGES) && UsersKept(s, View())
      ensures TablesOnly(s, d, View())
    {
      ghost var s2 := View();
      var z := Deallocuvm(d, newsz, oldsz);
      ghost var s3 := View();
      Undone(s, s1, d, Ceil(oldsz), a, Ceil(newsz), if r.NoTable? then m else NPAGES, s2, s3);
      if r.NoTable? {
        PushMoves(s3, m);
        MovesInv(s3, Push(s3, m));
        Kfree(m);
        UndoneLast(s, d, m, s3);
      }
    }
  }

  ghost predicate NewPageAt(s: Vm, d: nat, s': Vm, u: nat)
    requires Shape(s) && Shape(s') && d < NPAGES && u < NVPN
  {
    var e := Pte(s', d, u);
    && e.p && e.flags == PTE_W + PTE_U && e.page < NPAGES
    && s.owner[e.page] == Free && s'.owner[e.page] == User(d, u) && s'.mem[e.page] == Fill(ZERO)
  }

  /** Virtual pages `lo` to `hi` of `d` are new, writable and zero; the others are as before. */
  ghost predicate Grown(s: Vm, d: nat, lo: nat, hi: nat, s': Vm) {
    match s'
    case Vm(_, _, _, _) =>
      && Shape(s) && Shape(s') && d < NPAGES && hi <= KERNPAGE
      && (forall u {:trigger NewPageAt(s, d, s', u)} :: lo <= u < hi ==> NewPageAt(s, d, s', u))
      && (forall u {:trigger Pte(s', d, u)} :: 0 <= u < NVPN && !(lo <= u < hi) ==> Pte(s', d, u) == Pte(s, d, u))
  }

  /** The entry is as before, or absent as before. */
  ghost predicate BackAt(s: Vm, d: nat, s': Vm, u: nat)
    requires Shape(s) && Shape(s') && d < NPAGES && u < NVPN
  {
    Pte(s', d, u) == Pte(s, d, u) || (!Pte(s', d, u).p && !Pte(s, d, u).p)
  }

  ghost predicate TableOnlyAt(s: Vm, d: nat, s': Vm, p: nat)
    requires Shape(s) && Shape(s') && p < NPAGES
  {
    s'.owner[p] == s.owner[p] || (s.owner[p].Free? && s'.owner[p].Table? && s'.owner[p].d == d)
  }

  /** The address space is as before, and all that was taken is tables for it; page `m` aside. */
  ghost predicate TablesOnlyBut(s: Vm, d: nat, m: nat, s': Vm) {
    && Shape(s) && Shape(s') && d < NPAGES
    && (forall u :: 0 <= u < NVPN ==> BackAt(s, d, s', u))
    && (forall p :: 0 <= p < NPAGES && p != m ==> TableOnlyAt(s, d, s', p))
  }

  ghost predicate TablesOnly(s: Vm, d: nat, s': Vm) { TablesOnlyBut(s, d, NPAGES, s') }

  /** deallocuvm takes back what a failed allocuvm had added. */
  lemma Undone(s: Vm, s1: Vm, d: nat, lo: nat, a: nat, hi: nat, m: nat, s2: Vm, s3: Vm)
    requires Inv(s) && IsDir(s, d) && lo <= a <= hi <= KERNPAGE && forall u :: lo <= u < hi ==> !Pte(s, d, u).p
    requires Grown(s, d, lo, a, s1) && Within(s, s1, d, NPAGES) && UsersKept(s, s1)
    requires Inv(s2) && IsDir(s2, d) && UsersKept(s1, s2) && Within(s1, s2, d, m) && Mapped(s1, d, a, 0, 0, 0, s2)
    requires m < NPAGES ==> s1.owner[m] == Free && s2.owner[m] == Held
    requires Cleared(s2, d, lo, hi, s3) && Within(s2, s3, d, NPAGES)
    ensures TablesOnlyBut(s, d, m, s3) && UsersKept(s, s3) && Within(s, s3, d, m)
    ensures m < NPAGES ==> s.owner[m] == Free && s3.owner[m] == Held
  {
    forall u | 0 <= u < NVPN ensures BackAt(s, d, s3, u) {
      assert Pte(s2, d, u) == Pte(s1, d, u);
      if lo <= u < a { assert NewPageAt(s, d, s1, u); }
    }
    forall p | 0 <= p < NPAGES && p != m ensures TableOnlyAt(s, d, s3, p) && Kept(s, s3, d, p) {
      UndonePage(s, s1, d, lo, a, hi, m, s2, s3, p);
    }
    if m < NPAGES { assert Kept(s, s1, d, m); }
    UndoneUsers(s, d, lo, hi, s2, s3);
  }

  lemma UndonePage(s: Vm, s1: Vm, d: nat, lo: nat, a: nat, hi: nat, m: nat, s2: Vm, s3: Vm, p: nat)
    requires Inv(s) && IsDir(s, d) && lo <= a <= hi <= KERNPAGE && forall u :: lo <= u < hi ==> !Pte(s, d, u).p
    requires Grown(s, d, lo, a, s1) && Within(s, s1, d, NPAGES) && UsersKept(s, s1)
    requires Inv(s2) && IsDir(s2, d) && UsersKept(s1, s2) && Within(s1, s2, d, m) && Mapped(s1, d, a, 0, 0, 0, s2)
    requires Cleared(s2, d, lo, hi, s3) && Within(s2, s3, d, NPAGES) && p < NPAGES && p != m
    ensures TableOnlyAt(s, d, s3, p) && Kept(s, s3, d, p)
  {
    assert Kept(s, s1, d, p) && Kept(s1, s2, d, p) && Kept(s2, s3, d, p) && PageOk(s, p) && PageOk(s2, p);
    if s2.owner[p].User? && s2.owner[p].d == d {
      var u := s2.owner[p].v;
      assert Pte(s2, d, u) == Pte(s1, d, u);
      if lo <= u < a { assert NewPageAt(s, d, s1, u); } else { assert PteOk(s, d, u); }
    }
  }

  lemma UndoneUsers(s: Vm, d: nat, lo: nat, hi: nat, s2: Vm, s3: Vm)
    requires Inv(s) && IsDir(s, d) && hi <= KERNPAGE && forall u :: lo <= u < hi ==> !Pte(s, d, u).p
    requires UsersKept(s, s2) && Cleared(s2, d, lo, hi, s3)
    ensures UsersKept(s, s3)
  {
    forall p | 0 <= p < NPAGES && !s.owner[p].Free? && !s.owner[p].Held?
      ensures s3.owner[p] == s.owner[p] && (s.owner[p].User? ==> s3.mem[p] == s.mem[p])
    {
      assert PageOk(s, p);
    }
  }

  lemma UndoneLast(s: Vm, d: nat, m: nat, s3: Vm)
    requires TablesOnlyBut(s, d, m, s3) && UsersKept(s, s3) && Within(s, s3, d, m) && m < NPAGES
    requires Inv(s3) && IsDir(s3, d) && s3.owner[m] == Held && s.owner[m] == Free && s3.lo <= m
    ensures var s4 := Push(s3, m); TablesOnly(s, d, s4) && UsersKept(s, s4) && Within(s, s4, d, NPAGES) && IsDir(s4, d)
  {
    var s4 := Push(s3, m);
    PushMoves(s3, m);
    forall u | 0 <= u < NVPN ensures BackAt(s, d, s4, u) {
      MovesPte(s3, s4, d, u);
      assert BackAt(s, d, s3, u);
    }
    forall p | 0 <= p < NPAGES ensures TableOnlyAt(s, d, s4, p) && Kept(s, s4, d, p) {
      if p != m { assert TableOnlyAt(s, d, s3, p) && Kept(s, s3, d, p); }
    }
  }

  lemma GrownMore(s: Vm, s1: Vm, d: nat, lo: nat, a: nat, m: nat, s2: Vm)
    requires Inv(s) && IsDir(s, d) && Grown(s, d, lo, a, s1) && lo <= a < KERNPAGE && UsersKept(s1, s2)
    requires m < NPAGES && s1.owner[m] == Free && s2.owner[m] == User(d, a) && s2.mem[m] == Fill(ZERO)
    requires Within(s, s1, d, NPAGES) && UsersKept(s, s1) && Mapped(s1, d, a, 1, m, PTE_W + PTE_U, s2)
    ensures Grown(s, d, lo, a + 1, s2)
  {
    assert Kept(s, s1, d, m);
    forall u | lo <= u < a + 1 ensures NewPageAt(s, d, s2, u) {
      assert Pte(s2, d, u) == if a <= u < a + 1 then Word(m, PTE_W + PTE_U, true) else Pte(s1, d, u);
      if u < a { assert NewPageAt(s, d, s1, u); }
    }
  }

  /** Virtual page `u` of the child is a copy of the parent's, on a page of its own. */
  ghost predicate CopiedAt(s: Vm, pgdir: nat, d: nat, s': Vm, u: nat)
    requires Shape(s) && Shape(s') && d < NPAGES && pgdir < NPAGES && u < NVPN
  {
    var e, e' := Pte(s, pgdir, u), Pte(s', d, u);
    && e'.p && e'.flags == e.flags && e.page < NPAGES && e'.page < NPAGES
    && s.owner[e'.page] == Free && s'.owner[e'.page] == User(d, u) && s'.mem[e'.page] == s.mem[e.page]
  }

  /** Below page `n` the child is a copy; above there are only the kernel's mappings. */
  ghost predicate Child(s: Vm, pgdir: nat, d: nat, n: nat, data: nat, s': Vm) {
    && Shape(s) && Shape(s') && d < NPAGES && pgdir < NPAGES && DataOk(data) && n <= KERNPAGE
    && (forall u {:trigger CopiedAt(s, pgdir, d, s', u)} :: 0 <= u < n ==> CopiedAt(s, pgdir, d, s', u))
    && (forall u {:trigger Pte(s', d, u)} :: n <= u < NVPN ==> Pte(s', d, u) == KernelPte(data, 4, u))
  }

  /** What a copy of `n` pages takes: the kernel's part, the pages and their tables. */
  function ChildPages(n: nat): nat { KERNELPAGES + n + (n + NENT - 1) / NENT }

  lemma ChildTables(data: nat, s: Vm, d: nat, s0: Vm, n: nat)
    requires DataOk(data) && Built(data, 4, s, d, s0) && n <= KERNPAGE
    ensures |s0.free| + KERNELPAGES == |s.free| && Tables(s0.mem[d], 0, n) == (n + NENT - 1) / NENT
  {
    var e := TablesEnd(0, n);
    forall i | 0 <= i < e ensures !s0.mem[d][i].p { assert HasPde(s0, d, i) == s0.mem[d][i].p; }
    AbsentIs(s0.mem[d], 0, 0, e);
  }

  lemma ChildMore(s: Vm, pgdir: nat, d: nat, i: nat, data: nat, s1: Vm, m: nat, s2: Vm)
    requires Inv(s) && IsDir(s, pgdir) && Child(s, pgdir, d, i, data, s1) && i < KERNPAGE && Pte(s, pgdir, i).p
    requires UsersKept(s1, s2) && m < NPAGES && s1.owner[m] == Free && Within(s, s1, d, NPAGES) && s.owner[d] == Free
    requires s2.owner[m] == User(d, i) && Pte(s, pgdir, i).page < NPAGES && s2.mem[m] == s.mem[Pte(s, pgdir, i).page]
    requires Mapped(s1, d, i, 1, m, Pte(s, pgdir, i).flags, s2)
    ensures Child(s, pgdir, d, i + 1, data, s2)
  {
    assert Kept(s, s1, d, m) && PageOk(s, m);
    forall u | 0 <= u < i + 1 ensures CopiedAt(s, pgdir, d, s2, u) {
      assert Pte(s2, d, u) == if i <= u < i + 1 then Word(m, Pte(s, pgdir, i).flags, true) else Pte(s1, d, u);
      if u < i { assert CopiedAt(s, pgdir, d, s1, u); }
    }
  }

  /** A row of kmap: addresses and permissions. */
  datatype KmapRow = KmapRow(virt: nat, physStart: nat, physEnd: nat, perm: nat)

  const EXTMEM := 0x10_0000
  const PHYSTOP := 0xE00_0000
  const DEVSPACE := 0xFE00_0000

  predicate DataOk(data: nat) {
    KERNBASE + EXTMEM < data < KERNBASE + PHYSTOP && data % PGSIZE == 0
  }

  function Kmap(data: nat, e: nat): KmapRow
    requires DataOk(data) && e < 4
  {
    match e
    case 0 => KmapRow(KERNBASE, 0, EXTMEM, PTE_W)
    case 1 => KmapRow(KERNBASE + EXTMEM, EXTMEM, data - KERNBASE, 0)
    case 2 => KmapRow(data, data - KERNBASE, PHYSTOP, PTE_W)
    case 3 => KmapRow(DEVSPACE, DEVSPACE, 0, PTE_W)
  }

  /** What the first `e` rows of kmap say about virtual page `u`. */
  ghost function KernelPte(data: nat, e: nat, u: nat): Word
    requires DataOk(data)
  {
    if e >= 1 && 0x8_0000 <= u < 0x8_0100 then Word(u - 0x8_0000, PTE_W, true)
    else if e >= 2 && 0x8_0100 <= u < data / PGSIZE then Word(u - 0x8_0000, 0, true)
    else if e >= 3 && data / PGSIZE <= u < 0x8_E000 then Word(u - 0x8_0000, PTE_W, true)
    else if e >= 4 && 0xF_E000 <= u < NVPN then Word(u, PTE_W, true)
    else ZERO
  }

  /** Everything in use is as before, and the same pages are free. */
  ghost predicate Same(s: Vm, s': Vm) {
    && Shape(s) && Shape(s') && s'.owner == s.owner
    && forall p :: 0 <= p < NPAGES && !s.owner[p].Free? ==> s'.mem[p] == s.mem[p]
  }

  lemma KmapFree(data: nat, e: nat)
    requires DataOk(data) && e < 4
    ensures var k := Kmap(data, e);
      var size := (k.physEnd - k.physStart + NVPN * PGSIZE) % (NVPN * PGSIZE);
      && 1 <= size && k.virt >= KERNBASE && k.virt + size <= NVPN * PGSIZE
      && forall u :: k.virt / PGSIZE <= u <= (k.virt + size - 1) / PGSIZE ==> !KernelPte(data, e, u).p
  {
  }

  lemma KmapDone(data: nat, e: nat, s: Vm, d: nat, s': Vm)
    requires DataOk(data) && e < 4 && Shape(s) && Shape(s') && d < NPAGES
    requires forall u :: 0 <= u < NVPN ==> Pte(s, d, u) == KernelPte(data, e, u)
    requires var k := Kmap(data, e);
      var size := (k.physEnd - k.physStart + NVPN * PGSIZE) % (NVPN * PGSIZE);
      Mapped(s, d, k.virt / PGSIZE, (k.virt + size - 1) / PGSIZE - k.virt / PGSIZE + 1,
             k.physStart / PGSIZE, k.perm, s')
    ensures forall u :: 0 <= u < NVPN ==> Pte(s', d, u) == KernelPte(data, e + 1, u)
  {
  }

  /** The directory, 56 tables for the memory and 8 for the devices. */
  const KERNELPAGES := 65

  /** The entry behind those that the first `e` rows of kmap need for the memory. */
  ghost function MemoryEnd(data: nat, e: nat): nat
    requires DataOk(data)
  {
    match e
    case 0 => 512
    case 1 => 513
    case 2 => (data / PGSIZE - 1) / NENT + 1
    case _ => 568
  }

  ghost function KernelCost(data: nat, e: nat): int
    requires DataOk(data)
  {
    1 + (MemoryEnd(data, e) - 512) + if e >= 4 then 8 else 0
  }

  /** `d` has the tables for the first `e` rows of kmap, and they and `d` came from the free list. */
  ghost predicate Built(data: nat, e: nat, s: Vm, d: nat, s': Vm) {
    match s'
    case Vm(_, _, free, _) =>
      && Shape(s') && d < NPAGES && DataOk(data) && |free| + KernelCost(data, e) == |s.free|
      && forall i :: 0 <= i < NENT ==> (HasPde(s', d, i) <==> 512 <= i < MemoryEnd(data, e) || (e >= 4 && 1016 <= i))
  }

  /** The virtual pages of row `e`. */
  ghost function RowFirst(data: nat, e: nat): nat
    requires DataOk(data) && e < 4
  {
    Kmap(data, e).virt / PGSIZE
  }

  ghost function RowEnd(data: nat, e: nat): nat
    requires DataOk(data) && e < 4
  {
    var k := Kmap(data, e);
    (k.virt + (k.physEnd - k.physStart + NVPN * PGSIZE) % (NVPN * PGSIZE) - 1) / PGSIZE + 1
  }

  lemma RowIs(data: nat, e: nat)
    requires DataOk(data) && e < 4
    ensures 512 <= MemoryEnd(data, e) <= MemoryEnd(data, e + 1) <= 568
    ensures RowFirst(data, e) < RowEnd(data, e) <= NVPN
    ensures e < 3 ==> MemoryEnd(data, e) - 1 <= RowFirst(data, e) / NENT <= MemoryEnd(data, e)
    ensures e == 3 ==> RowFirst(data, e) / NENT == 1016
    ensures TablesEnd(RowFirst(data, e), RowEnd(data, e)) == if e == 3 then NENT else MemoryEnd(data, e + 1)
  {
  }

  lemma {:induction false} AbsentIs(dir: Page, lo: nat, mid: nat, hi: nat)
    requires lo <= mid <= hi <= |dir| && forall i :: lo <= i < hi ==> (dir[i].p <==> i < mid)
    ensures Absent(dir, lo, hi) == hi - mid
  {
    if mid < hi {
      AbsentIs(dir, lo, mid, hi - 1);
    } else if lo < hi {
      AbsentIs(dir, lo, mid - 1, hi - 1);
    }
  }

  lemma KmapCost(data: nat, e: nat, s: Vm, d: nat, s1: Vm)
    requires DataOk(data) && e < 4 && Built(data, e, s, d, s1)
    ensures RowFirst(data, e) <= RowEnd(data, e) <= NVPN
    ensures Tables(s1.mem[d], RowFirst(data, e), RowEnd(data, e)) == KernelCost(data, e + 1) - KernelCost(data, e)
    ensures KernelCost(data, e + 1) <= KERNELPAGES
  {
    RowIs(data, e);
    var i0, i1 := RowFirst(data, e) / NENT, TablesEnd(RowFirst(data, e), RowEnd(data, e));
    var mid := if e == 3 then i0 else MemoryEnd(data, e);
    forall i | i0 <= i < i1 ensures s1.mem[d][i].p <==> i < mid { assert HasPde(s1, d, i) == s1.mem[d][i].p; }
    AbsentIs(s1.mem[d], i0, mid, i1);
  }

  lemma KmapBuilt(data: nat, e: nat, s: Vm, d: nat, s1: Vm, s2: Vm)
    requires DataOk(data) && e < 4 && Built(data, e, s, d, s1)
    requires Charged(s1, d, RowFirst(data, e), RowEnd(data, e), 0, s2)
    ensures Built(data, e + 1, s, d, s2)
  {
    RowIs(data, e);
    KmapCost(data, e, s, d, s1);
    forall i | 0 <= i < NENT
      ensures HasPde(s2, d, i) <==> 512 <= i < MemoryEnd(data, e + 1) || (e + 1 >= 4 && 1016 <= i)
    {
      assert HasPde(s1, d, i) <==> 512 <= i < MemoryEnd(data, e);
    }
  }

  lemma StartBuilt(data: nat, s: Vm, d: nat, s': Vm)
    requires DataOk(data) && Shape(s') && d < NPAGES && s'.mem[d] == Fill(ZERO) && |s'.free| + 1 == |s.free|
    ensures Built(data, 0, s, d, s')
  {
    forall i | 0 <= i < NENT ensures !HasPde(s', d, i) {}
  }

  lemma StartDir(s: Vm, d: nat)
    requires Inv(s) && s.free != [] && d == s.free[0]
    ensures var s' := Got(s, Fill(ZERO)).(owner := Got(s, Fill(ZERO)).owner[d := Dir]);
      && s.owner[d] == Free && Inv(s') && IsDir(s', d) && Within(s, s', d, NPAGES) && UsersKept(s, s')
      && forall u :: 0 <= u < NVPN ==> Pte(s', d, u) == ZERO
  {
    PopMoves(s);
    MovesInv(s, Pop(s));
    WriteHeldMoves(Pop(s), d, Fill(ZERO));
    MovesInv(Pop(s), Got(s, Fill(ZERO)));
    NewDirInv(Got(s, Fill(ZERO)), d);
    var s' := NewDir(Got(s, Fill(ZERO)), d);
    forall p | 0 <= p < NPAGES ensures Kept(s, s', d, p) {}
  }

  lemma GaveBack(s: Vm, s1: Vm, d: nat, s2: Vm)
    requires Inv(s) && d < NPAGES && s.owner[d] == Free && Within(s, s1, d, NPAGES) && AllFreed(s1, d, s2)
    ensures Same(s, s2)
  {
    forall p | 0 <= p < NPAGES ensures s2.owner[p] == s.owner[p] && (!s.owner[p].Free? ==> s2.mem[p] == s.mem[p]) {
      assert PageOk(s, p) && Kept(s, s1, d, p) && FreedAt(s1, d, s2, p);
    }
  }

  // --------------------------------------------------------------- pages for tables

  /** How many of the entries `lo` up to `hi` of a directory have no table. */
  ghost function Absent(dir: Page, lo: nat, hi: nat): nat
    requires hi <= |dir|
    decreases hi
  {
    if hi <= lo then 0 else Absent(dir, lo, hi - 1) + if dir[hi-1].p then 0 else 1
  }

  ghost predicate HasPde(s: Vm, d: nat, i: nat)
    requires Shape(s) && d < NPAGES && i < NENT
  {
    s.mem[d][i].p
  }

  /** The directory entry behind those of the virtual pages `a` up to `b`. */
  ghost function TablesEnd(a: nat, b: nat): nat {
    if b <= a then a / NENT else (b - 1) / NENT + 1
  }

  /** How many tables the virtual pages `a` up to `b` still need. */
  ghost function Tables(dir: Page, a: nat, b: nat): nat
    requires |dir| == NENT && a <= b <= NVPN
  {
    Absent(dir, a / NENT, TablesEnd(a, b))
  }

  /** What growing from page `a` to page `b` takes: the pages and the tables they still need. */
  ghost function GrowPages(dir: Page, a: nat, b: nat): nat
    requires |dir| == NENT && a <= b <= NVPN
  {
    b - a + Tables(dir, a, b)
  }

  /** The directory entries without a table that the virtual pages `a` up to `b` need. */
  ghost function Missing(dir: Page, a: nat, b: nat): set<nat>
    requires |dir| == NENT
  {
    set i: nat | i < NENT && a < b && a < (i + 1) * NENT && i * NENT < b && !dir[i].p
  }

  lemma TablesIs(dir: Page, a: nat, b: nat)
    requires |dir| == NENT && a <= b <= NVPN
    ensures Tables(dir, a, b) == |Missing(dir, a, b)|
  {
    var lo, hi := a / NENT, TablesEnd(a, b);
    AbsentSet(dir, lo, hi);
    forall i: nat | i < NENT ensures i in Missing(dir, a, b) <==> lo <= i < hi && !dir[i].p {
      assert a < (i + 1) * NENT <==> lo <= i;
      if a < b { assert i * NENT < b <==> i < hi; }
    }
    assert Missing(dir, a, b) == set i: nat | i < hi && lo <= i && !dir[i].p;
  }

  lemma {:induction false} AbsentSet(dir: Page, lo: nat, hi: nat)
    requires hi <= |dir|
    ensures Absent(dir, lo, hi) == |set i: nat | i < hi && lo <= i && !dir[i].p|
    decreases hi
  {
    var all := set i: nat | i < hi && lo <= i && !dir[i].p;
    if hi <= lo {
      assert all == {};
    } else {
      AbsentSet(dir, lo, hi - 1);
      var rest := set i: nat | i < hi - 1 && lo <= i && !dir[i].p;
      assert all == if dir[hi-1].p then rest else rest + {hi - 1};
    }
  }

  /** A growth takes its pages and a table for every directory entry that it needs and that
      has none. */
  lemma GrowthIs(dir: Page, a: nat, b: nat)
    requires |dir| == NENT && a <= b <= NVPN
    ensures GrowPages(dir, a, b) == b - a + |Missing(dir, a, b)|
  {
    TablesIs(dir, a, b);
  }

  /** A copy of `n` pages takes the kernel's 65, the pages, and a table for every directory
      entry of the pages. */
  lemma CopyIs(n: nat)
    requires n <= KERNPAGE
    ensures ChildPages(n) == 65 + n + |set i: nat | i < NENT && i * NENT < n|
  {
    var t := (n + NENT - 1) / NENT;
    forall i: nat | i < NENT ensures i * NENT < n <==> i < t {}
    RangeSize(0, t);
    assert (set i: nat | i < NENT && i * NENT < n) == Range(0, t);
  }

  /** `k` pages and the missing tables for the virtual pages `a` up to `b` came from the free list. */
  ghost predicate Charged(s: Vm, d: nat, a: nat, b: nat, k: nat, s': Vm) {
    match s'
    case Vm(_, _, free, _) =>
      && Shape(s) && Shape(s') && d < NPAGES && a <= b <= NVPN
      && |free| + k + Tables(s.mem[d], a, b) == |s.free|
      && forall i :: 0 <= i < NENT ==> (HasPde(s', d, i) <==> HasPde(s, d, i) || a / NENT <= i < TablesEnd(a, b))
  }

  lemma ChargedNone(s: Vm, d: nat, a: nat)
    requires Shape(s) && d < NPAGES && a <= NVPN
    ensures Charged(s, d, a, a, 0, s)
  {
  }

  lemma OneTable(dir: Page, v: nat)
    requires |dir| == NENT && v < NVPN
    ensures Tables(dir, v, v + 1) == if dir[v / NENT].p then 0 else 1
  {
    assert Absent(dir, v / NENT, v / NENT) == 0;
  }

  lemma OneCharged(s: Vm, d: nat, v: nat, s': Vm)
    requires Shape(s) && Shape(s') && d < NPAGES && v < NVPN
    requires if s.mem[d][v / NENT].p then s' == s
             else && |s'.free| + 1 == |s.free| && s'.mem[d][v / NENT].p
                  && s'.mem[d] == s.mem[d][v / NENT := s'.mem[d][v / NENT]]
    ensures Charged(s, d, v, v + 1, 0, s')
  {
    var i := v / NENT;
    OneTable(s.mem[d], v);
    forall j | 0 <= j < NENT ensures HasPde(s', d, j) <==> HasPde(s, d, j) || i <= j < i + 1 {}
  }

  lemma StillCharged(s: Vm, d: nat, v: nat, s1: Vm, s2: Vm)
    requires Charged(s, d, v, v + 1, 0, s1) && Shape(s2) && s2.free == s1.free && s2.mem[d] == s1.mem[d]
    ensures Charged(s, d, v, v + 1, 0, s2)
  {
    forall j | 0 <= j < NENT ensures HasPde(s2, d, j) <==> HasPde(s1, d, j) {}
  }

  lemma GotCharged(s: Vm, page: Page, d: nat, v: nat, s2: Vm)
    requires Inv(s) && s.free != [] && IsDir(s, d) && |page| == NENT && Shape(Got(s, page))
    requires Charged(Got(s, page), d, v, v + 1, 0, s2)
    ensures Charged(s, d, v, v + 1, 1, s2)
  {
    var s1 := Got(s, page);
    assert s1.mem[d] == s.mem[d];
    forall j | 0 <= j < NENT ensures HasPde(s1, d, j) <==> HasPde(s, d, j) {}
  }

  lemma {:induction false} AbsentMore(dir: Page, lo: nat, mid: nat, hi: nat)
    requires lo <= mid <= hi <= |dir|
    ensures Absent(dir, lo, hi) == Absent(dir, lo, mid) + Absent(dir, mid, hi)
  {
    if mid < hi { AbsentMore(dir, lo, mid, hi - 1); }
  }

  lemma ChargedMore(s: Vm, s1: Vm, s2: Vm, d: nat, a0: nat, a: nat, k: nat, j: nat)
    requires a0 <= a < NVPN && Charged(s, d, a0, a, k, s1) && Charged(s1, d, a, a + 1, j, s2)
    ensures Charged(s, d, a0, a + 1, k + j, s2)
  {
    var i0, e, i := a0 / NENT, TablesEnd(a0, a), a / NENT;
    assert HasPde(s1, d, i) <==> HasPde(s, d, i) || i0 <= i < e;
    OneTable(s1.mem[d], a);
    assert e == i || e == i + 1;
    forall x | 0 <= x < NENT ensures HasPde(s2, d, x) <==> HasPde(s, d, x) || i0 <= x < i + 1 {
      assert HasPde(s1, d, x) <==> HasPde(s, d, x) || i0 <= x < e;
    }
  }

  /** Too few pages for the next one are too few for them all. */
  lemma ChargedShort(s: Vm, s1: Vm, d: nat, a0: nat, a: nat, k: nat, j: nat, b: nat)
    requires a0 <= a < b <= NVPN && Charged(s, d, a0, a, k, s1)
    requires |s1.free| < j + Tables(s1.mem[d], a, a + 1)
    ensures |s.free| < k + j + Tables(s.mem[d], a0, b)
  {
    var i0, e, i := a0 / NENT, TablesEnd(a0, a), a / NENT;
    assert HasPde(s1, d, i) <==> HasPde(s, d, i) || i0 <= i < e;
    OneTable(s1.mem[d], a);
    assert e == i || e == i + 1;
    AbsentMore(s.mem[d], i0, i + 1, TablesEnd(a0, b));
  }

  datatype Put = Done | NoPage | NoTable

  /** Pages in use keep their place, and pages of user memory their contents. */
  ghost predicate UsersKept(s: Vm, s': Vm) {
    && Shape(s) && Shape(s')
    && forall p {:trigger s.owner[p]} :: 0 <= p < NPAGES && !s.owner[p].Free? && !s.owner[p].Held? ==>
         s'.owner[p] == s.owner[p] && (s.owner[p].User? ==> s'.mem[p] == s.mem[p])
  }

  /** The first free page, taken and filled. */
  ghost function Got(s: Vm, page: Page): Vm
    requires s.free != [] && s.free[0] < |s.owner| == |s.mem|
  {
    Pop(s).(mem := s.mem[s.free[0] := page])
  }

  lemma GotPte(s: Vm, page: Page, d: nat)
    requires Inv(s) && s.free != [] && |page| == NENT && IsDir(s, d)
    ensures Shape(Got(s, page)) && IsDir(Got(s, page), d) && UsersKept(s, Got(s, page))
    ensures forall u :: 0 <= u < NVPN ==> Pte(Got(s, page), d, u) == Pte(s, d, u)
  {
    PopMoves(s);
    MovesInv(s, Pop(s));
    WriteHeldMoves(Pop(s), s.free[0], page);
    forall u | 0 <= u < NVPN ensures Pte(Got(s, page), d, u) == Pte(s, d, u) {
      MovesPte(s, Pop(s), d, u);
      MovesPte(Pop(s), Got(s, page), d, u);
    }
  }

  lemma PutWithin(s: Vm, page: Page, s3: Vm, d: nat)
    requires Shape(s) && s.free != [] && s.free[0] < NPAGES && s.owner[s.free[0]] == Free
    requires Within(Got(s, page), s3, d, s.free[0])
    ensures Within(s, s3, d, s.free[0]) && (OwnedBy(s3.owner[s.free[0]], s.free[0], d) ==> Within(s, s3, d, NPAGES))
  {
    forall p | 0 <= p < NPAGES && p != s.free[0] ensures Kept(s, s3, d, p) { assert Kept(Got(s, page), s3, d, p); }
  }

  lemma PutMapped(s: Vm, s1: Vm, d: nat, v: nat, k: nat, m: nat, perm: nat, s2: Vm)
    requires Shape(s) && Shape(s1) && d < NPAGES && forall u :: 0 <= u < NVPN ==> Pte(s1, d, u) == Pte(s, d, u)
    requires Mapped(s1, d, v, k, m, perm, s2)
    ensures Mapped(s, d, v, k, m, perm, s2)
  {
  }

  /** From page `v` on, `k` entries now lead to the pages from `pa` on; all others are as before. */
  ghost predicate Mapped(s: Vm, d: nat, v: nat, k: nat, pa: nat, perm: nat, s': Vm) {
    && Shape(s) && Shape(s') && d < NPAGES
    && forall u {:trigger Pte(s', d, u)} :: 0 <= u < NVPN ==>
         Pte(s', d, u) == if v <= u < v + k then Word(pa + (u - v), perm, true) else Pte(s, d, u)
  }

  lemma SetWithin(s: Vm, d: nat, v: nat, w: Word, q: nat, o: Owner)
    requires HasTable(s, d, v) && q < NPAGES
    ensures Within(s, SetPte(s, d, v, w, q, o), d, q)
    ensures o == s.owner[q] ==> Within(s, SetPte(s, d, v, w, q, o), d, NPAGES)
  {
    assert PdeOk(s, d, v / NENT);
    var s' := SetPte(s, d, v, w, q, o);
    forall p | 0 <= p < NPAGES && (p != q || o == s.owner[q]) ensures Kept(s, s', d, p) {}
  }

  lemma WithinMore(s: Vm, s1: Vm, s2: Vm, d: nat, m: nat)
    requires Within(s, s1, d, NPAGES) && Within(s1, s2, d, m)
    ensures Within(s, s2, d, m)
  {
    forall p | 0 <= p < NPAGES && p != m ensures Kept(s, s2, d, p) { assert Kept(s, s1, d, p) && Kept(s1, s2, d, p); }
  }

  lemma MappedMore(s: Vm, s1: Vm, d: nat, v: nat, k: nat, ok: bool, pa: nat, perm: nat, s2: Vm)
    requires Mapped(s, d, v, k, pa, perm, s1) && Mapped(s1, d, v + k, if ok then 1 else 0, pa + k, perm, s2)
    ensures Mapped(s, d, v, if ok then k + 1 else k, pa, perm, s2)
  {
    var n := if ok then k + 1 else k;
    forall u | 0 <= u < NVPN
      ensures Pte(s2, d, u) == if v <= u < v + n then Word(pa + (u - v), perm, true) else Pte(s, d, u)
    {
      assert Pte(s1, d, u) == if v <= u < v + k then Word(pa + (u - v), perm, true) else Pte(s, d, u);
    }
  }

  // -------------------------------------------------------------------- unmapping

  /** The user pages of `d` from `lo` up to `hi` are gone: entries cleared, pages free. */
  ghost predicate Cleared(s: Vm, d: nat, lo: nat, hi: nat, s': Vm) {
    && Shape(s) && Shape(s') && d < NPAGES
    && (forall u {:trigger Pte(s', d, u)} :: 0 <= u < NVPN ==>
          Pte(s', d, u) == if lo <= u < hi && Pte(s, d, u).p then ZERO else Pte(s, d, u))
    && (forall p {:trigger s'.owner[p]} :: 0 <= p < NPAGES ==>
          && s'.owner[p] ==
             (if s.owner[p].User? && s.owner[p].d == d && lo <= s.owner[p].v < hi then Free else s.owner[p])
          && (s'.owner[p].User? ==> s'.mem[p] == s.mem[p]))
  }

  lemma NothingCleared(s: Vm, d: nat, lo: nat)
    requires Shape(s) && d < NPAGES
    ensures forall hi: nat :: hi <= lo ==> Cleared(s, d, lo, hi, s)
  {
  }

  lemma CeilOrder(a: nat, b: nat)
    requires a <= b
    ensures Ceil(a) <= Ceil(b)
  {
  }

  lemma ClearedMore(s: Vm, s1: Vm, d: nat, lo: nat, a: nat, s2: Vm)
    requires Cleared(s, d, lo, a, s1) && Cleared(s1, d, a, a + 1, s2) && lo <= a
    ensures Cleared(s, d, lo, a + 1, s2)
  {
    forall u | 0 <= u < NVPN ensures Pte(s2, d, u) == if lo <= u < a + 1 && Pte(s, d, u).p then ZERO else Pte(s, d, u) {
      assert Pte(s1, d, u) == if lo <= u < a && Pte(s, d, u).p then ZERO else Pte(s, d, u);
    }
    forall p | 0 <= p < NPAGES
      ensures s2.owner[p] ==
        if s.owner[p].User? && s.owner[p].d == d && lo <= s.owner[p].v < a + 1 then Free else s.owner[p]
      ensures s2.owner[p].User? ==> s2.mem[p] == s.mem[p]
    {
      assert s1.owner[p] == s.owner[p] || s1.owner[p] == Free;
    }
  }

  /** Pages without an entry need no work. */
  lemma ClearedTo(s: Vm, d: nat, lo: nat, a: nat, b: nat, s1: Vm)
    requires Inv(s) && IsDir(s, d) && Cleared(s, d, lo, a, s1)
    requires forall u :: (a <= u < b || b <= u < a) && u < NVPN ==> !Pte(s, d, u).p
    ensures Cleared(s, d, lo, b, s1)
  {
    forall p | 0 <= p < NPAGES
      ensures s1.owner[p] ==
        if s.owner[p].User? && s.owner[p].d == d && lo <= s.owner[p].v < b then Free else s.owner[p]
    {
      assert PageOk(s, p);
    }
  }

  lemma SkipOne(s: Vm, d: nat, lo: nat, a: nat, s1: Vm)
    requires Inv(s) && IsDir(s, d) && Cleared(s, d, lo, a, s1) && lo <= a < NVPN && !Pte(s1, d, a).p
    ensures Cleared(s, d, lo, a + 1, s1)
  {
    assert Pte(s1, d, a) == Pte(s, d, a);
    ClearedTo(s, d, lo, a, a + 1, s1);
  }

  /** A missing table has no present entry from `a` to its end. */
  lemma SkipTable(s: Vm, d: nat, lo: nat, a: nat, s1: Vm)
    requires Inv(s) && IsDir(s, d) && Cleared(s, d, lo, a, s1) && lo <= a < NVPN && !s1.mem[d][a / NENT].p
    ensures Cleared(s, d, lo, (a / NENT + 1) * NENT, s1)
    ensures forall u :: a <= u < (a / NENT + 1) * NENT && u < NVPN ==> !Pte(s, d, u).p
  {
    forall u | a <= u < (a / NENT + 1) * NENT && u < NVPN ensures !Pte(s, d, u).p {
      assert u / NENT == a / NENT;
      assert Pte(s1, d, u) == ZERO;
    }
    ClearedTo(s, d, lo, a, (a / NENT + 1) * NENT, s1);
  }

  // ---------------------------------------------------------- freeing a directory

  /** The pages of `d` are free, all others are what they were. */
  ghost predicate FreedAt(s: Vm, d: nat, s': Vm, p: nat)
    requires Shape(s) && Shape(s') && p < NPAGES
  {
    if InPlay(s, p, d) then s'.owner[p].Free? else s'.owner[p] == s.owner[p] && s'.mem[p] == s.mem[p]
  }

  ghost predicate AllFreed(s: Vm, d: nat, s': Vm) {
    Shape(s) && Shape(s') && s'.lo == s.lo && forall p :: 0 <= p < NPAGES ==> FreedAt(s, d, s', p)
  }

  /** The pages of `d` in the hands of freevm. */
  ghost function Detached(s: Vm, d: nat): (s': Vm)
    requires |s.owner| == NPAGES
    ensures |s'.owner| == NPAGES
  {
    s.(owner := seq(NPAGES, p requires 0 <= p < NPAGES => if OwnedBy(s.owner[p], p, d) then Held else s.owner[p]))
  }

  lemma DetachedInv(s: Vm, d: nat)
    requires Inv(s) && IsDir(s, d)
    ensures Inv(Detached(s, d)) && Freeing(s, d, 0, Detached(s, d))
  {
    var s' := Detached(s, d);
    forall p | 0 <= p < NPAGES ensures PageOk(s', p) { assert PageOk(s, p); }
    forall c, i | 0 <= c < NPAGES && 0 <= i < NENT ensures PdeOk(s', c, i) { assert PdeOk(s, c, i); }
    forall c, v | 0 <= c < NPAGES && 0 <= v < KERNPAGE ensures PteOk(s', c, v) { assert PteOk(s, c, v); }
    forall p | 0 <= p < NPAGES ensures FreeingAt(s, d, 0, s', p) {}
  }

  /** The first `i` tables of `d` are free. */
  ghost predicate FreeingAt(s: Vm, d: nat, i: nat, s': Vm, p: nat)
    requires Shape(s) && Shape(s') && p < NPAGES
  {
    if OwnedBy(s.owner[p], p, d) then s'.owner[p] == if s.owner[p].Table? && s.owner[p].i < i then Free else Held
    else s'.owner[p] == s.owner[p] && (s.owner[p].Free? || s'.mem[p] == s.mem[p])
  }

  ghost predicate Freeing(s: Vm, d: nat, i: nat, s': Vm) {
    Shape(s) && Shape(s') && s'.lo == s.lo && forall p :: 0 <= p < NPAGES ==> FreeingAt(s, d, i, s', p)
  }

  lemma FreeingMore(s: Vm, d: nat, i: nat, s1: Vm, s2: Vm)
    requires Inv(s) && IsDir(s, d) && i < NENT && Freeing(s, d, i, s1) && s1.mem[d] == s.mem[d]
    requires var e := s.mem[d][i]; if e.p then e.page < NPAGES && s2 == Push(s1, e.page) else s2 == s1
    ensures Freeing(s, d, i + 1, s2) && s2.mem[d] == s.mem[d]
  {
    assert PdeOk(s, d, i);
    var j := i + 1;
    forall p | 0 <= p < NPAGES ensures FreeingAt(s, d, j, s2, p) {
      assert FreeingAt(s, d, i, s1, p) && PageOk(s, p);
    }
  }

  lemma FreeingDone(s: Vm, s1: Vm, d: nat, s2: Vm, s3: Vm)
    requires Inv(s) && Inv(s1) && IsDir(s, d) && IsDir(s1, d) && Within(s, s1, d, NPAGES)
    requires Cleared(s, d, 0, KERNPAGE, s1)
    requires Freeing(s1, d, NENT, s2) && s3 == Push(s2, d)
    ensures AllFreed(s, d, s3)
  {
    forall p | 0 <= p < NPAGES ensures FreedAt(s, d, s3, p) {
      assert Kept(s, s1, d, p) && FreeingAt(s1, d, NENT, s2, p) && PageOk(s1, p) && PageOk(s, p);
      assert s1.owner[p] ==
        if s.owner[p].User? && s.owner[p].d == d && 0 <= s.owner[p].v < KERNPAGE then Free else s.owner[p];
    }
  }

  // ------------------------------------------------------------------ conservation

  lemma FreeIff(s: Vm, p: nat)
    requires Inv(s) && p < NPAGES
    ensures p in s.free <==> s.owner[p] == Free
  {
    assert PageOk(s, p);
  }

  /** freevm of a child gives back exactly the pages that copyuvm took. */
  lemma CopyThenFree(s: Vm, d: nat, s1: Vm, s2: Vm)
    requires Inv(s) && d < NPAGES && s.owner[d] == Free && Within(s, s1, d, NPAGES) && Inv(s2) && AllFreed(s1, d, s2)
    ensures Same(s, s2) && forall p :: 0 <= p < NPAGES ==> (p in s2.free <==> p in s.free)
  {
    GaveBack(s, s1, d, s2);
    forall p | 0 <= p < NPAGES ensures p in s2.free <==> p in s.free {
      FreeIff(s, p);
      FreeIff(s2, p);
    }
  }

  /** The parent keeps its address space, and shares no user page with the child. */
  lemma ChildApart(s: Vm, pgdir: nat, d: nat, n: nat, data: nat, s': Vm, u: nat, v: nat)
    requires Inv(s) && Inv(s') && IsDir(s, pgdir) && d < NPAGES && s.owner[d] == Free && Within(s, s', d, NPAGES)
    requires Child(s, pgdir, d, n, data, s') && u < n && v < KERNPAGE && Pte(s, pgdir, v).p
    ensures Pte(s', pgdir, v) == Pte(s, pgdir, v) && Pte(s', d, u).page != Pte(s', pgdir, v).page
  {
    OtherPte(s, s', d, NPAGES, pgdir, v);
    assert CopiedAt(s, pgdir, d, s', u) && PteOk(s, pgdir, v);
  }
}
