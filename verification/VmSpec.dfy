/** Physical pages, who owns each of them, and two-level page tables stored in them. */
module VmSpec {

  /** Entries of a page directory, a page table, and words of any other page. */
  const NENT := 1024
  /** Pages below PHYSTOP. */
  const NPAGES := 0xE000
  /** Virtual pages, and how many of them are below KERNBASE. */
  const NVPN := 0x10_0000
  const KERNPAGE := 0x8_0000

  /** A word of 32 bits, by the fields of a page table entry: the upper 20 bits, bits 1 to 11
      in place, and the present bit. */
  datatype Word = Word(page: nat, flags: nat, p: bool)

  const ZERO := Word(0, 0, false)
  const PTE_W := 2
  const PTE_U := 4

  type Page = seq<Word>

  function Fill(w: Word): (page: Page)
    ensures |page| == NENT && forall k :: 0 <= k < NENT ==> page[k] == w
  {
    seq(NENT, _ => w)
  }

  /** kfree fills a page with bytes 0x01. */
  const JUNK := Word(0x1010, 0x100, true)

  /** What a physical page is: on the free list, in the hands of a running call, a page
      directory, the table of entry `i` of directory `d`, the page behind virtual page `v` of
      directory `d`, or something else. */
  datatype Owner = Free | Held | Other | Dir | Table(d: nat, i: nat) | User(d: nat, v: nat)

  datatype Vm = Vm(lo: nat, mem: seq<Page>, free: seq<nat>, owner: seq<Owner>)

  ghost predicate Shape(s: Vm) {
    && 0 < s.lo <= NPAGES && |s.mem| == |s.owner| == NPAGES
    && forall p :: 0 <= p < NPAGES ==> |s.mem[p]| == NENT
  }

  predicate IsDir(s: Vm, d: nat) { d < |s.owner| && s.owner[d] == Dir }

  /** The entry for virtual page `v`, as the hardware walks to it. */
  ghost function Pte(s: Vm, d: nat, v: nat): Word
    requires Shape(s) && d < NPAGES && v < NVPN
  {
    var e := s.mem[d][v / NENT];
    if e.p && e.page < NPAGES then s.mem[e.page][v % NENT] else ZERO
  }

  /** The owner recorded for page `p` is where the tables say it is. */
  ghost predicate PageOk(s: Vm, p: nat)
    requires Shape(s) && p < NPAGES
  {
    match s.owner[p]
    case Other => true
    case Free => p >= s.lo && p in s.free
    case Held => p >= s.lo
    case Dir => p >= s.lo
    case Table(d, i) => p >= s.lo && i < NENT && IsDir(s, d) && s.mem[d][i].p && s.mem[d][i].page == p
    case User(d, v) => p >= s.lo && v < KERNPAGE && IsDir(s, d) && Pte(s, d, v).p && Pte(s, d, v).page == p
  }

  ghost predicate PdeOk(s: Vm, d: nat, i: nat)
    requires Shape(s) && i < NENT
  {
    IsDir(s, d) && s.mem[d][i].p ==>
      s.mem[d][i].page < NPAGES && s.owner[s.mem[d][i].page] == Table(d, i) && s.mem[d][i].flags == PTE_W + PTE_U
  }

  ghost predicate PteOk(s: Vm, d: nat, v: nat)
    requires Shape(s) && v < KERNPAGE
  {
    IsDir(s, d) && Pte(s, d, v).p ==> Pte(s, d, v).page < NPAGES && s.owner[Pte(s, d, v).page] == User(d, v)
  }

  ghost predicate FreeOk(s: Vm) {
    && (forall k :: 0 <= k < |s.free| ==> s.free[k] < |s.owner| && s.owner[s.free[k]] == Free)
    && (forall k, l :: 0 <= k < l < |s.free| ==> s.free[k] != s.free[l])
  }

  /** Every page has one owner, and the tables and the free list agree on it. */
  ghost predicate Inv(s: Vm) {
    && Shape(s) && FreeOk(s)
    && (forall p :: 0 <= p < NPAGES ==> PageOk(s, p))
    && (forall d, i :: 0 <= d < NPAGES && 0 <= i < NENT ==> PdeOk(s, d, i))
    && (forall d, v :: 0 <= d < NPAGES && 0 <= v < KERNPAGE ==> PteOk(s, d, v))
  }

  // ------------------------------------------------------------ pages come and go

  function Pop(s: Vm): Vm
    requires s.free != [] && s.free[0] < |s.owner|
  {
    s.(free := s.free[1..], owner := s.owner[s.free[0] := Held])
  }

  function Push(s: Vm, p: nat): Vm
    requires p < |s.mem| == |s.owner|
  {
    s.(free := [p] + s.free, mem := s.mem[p := Fill(JUNK)], owner := s.owner[p := Free])
  }

  /** Page `p` keeps its role and, if it is in use, its contents; or it moves between the free
      list and the hands of a call. */
  ghost predicate Moves(s: Vm, s': Vm, p: nat)
    requires Shape(s) && Shape(s') && p < NPAGES
  {
    || (s'.owner[p] == s.owner[p] && (s.owner[p].Held? || s'.mem[p] == s.mem[p]))
    || (p >= s.lo && (s.owner[p].Free? || s.owner[p].Held?) && (s'.owner[p].Free? || s'.owner[p].Held?))
  }

  ghost predicate OnlyMoves(s: Vm, s': Vm) {
    && Shape(s) && Shape(s') && s'.lo == s.lo && FreeOk(s')
    && (forall p :: 0 <= p < NPAGES ==> Moves(s, s', p))
    && (forall p :: 0 <= p < NPAGES && s'.owner[p] == Free ==> p in s'.free)
  }

  lemma MovesPte(s: Vm, s': Vm, d: nat, v: nat)
    requires Inv(s) && OnlyMoves(s, s') && IsDir(s, d) && v < NVPN
    ensures IsDir(s', d) && Pte(s', d, v) == Pte(s, d, v)
  {
    var e := s.mem[d][v / NENT];
    assert PdeOk(s, d, v / NENT) && Moves(s, s', d);
    if e.p { assert Moves(s, s', e.page); }
  }

  lemma MovesInv(s: Vm, s': Vm)
    requires Inv(s) && OnlyMoves(s, s')
    ensures Inv(s')
  {
    forall p | 0 <= p < NPAGES ensures PageOk(s', p) {
      assert PageOk(s, p) && Moves(s, s', p);
      if s'.owner[p].Table? { assert Moves(s, s', s'.owner[p].d); }
      if s'.owner[p].User? { MovesPte(s, s', s'.owner[p].d, s'.owner[p].v); }
    }
    forall d, i | 0 <= d < NPAGES && 0 <= i < NENT ensures PdeOk(s', d, i) {
      assert PdeOk(s, d, i) && Moves(s, s', d);
      if IsDir(s', d) && s'.mem[d][i].p { assert Moves(s, s', s'.mem[d][i].page); }
    }
    forall d, v | 0 <= d < NPAGES && 0 <= v < KERNPAGE ensures PteOk(s', d, v) {
      assert PteOk(s, d, v) && Moves(s, s', d);
      if IsDir(s', d) {
        MovesPte(s, s', d, v);
        if Pte(s, d, v).p { assert Moves(s, s', Pte(s, d, v).page); }
      }
    }
  }

  lemma PopMoves(s: Vm)
    requires Inv(s) && s.free != []
    ensures OnlyMoves(s, Pop(s)) && s.free[0] >= s.lo
  {
    var s', q := Pop(s), s.free[0];
    assert PageOk(s, q);
    forall p | 0 <= p < NPAGES && s'.owner[p] == Free ensures p in s'.free {
      assert PageOk(s, p);
      var k :| 0 <= k < |s.free| && s.free[k] == p;
      assert s'.free[k-1] == p;
    }
  }

  lemma PushMoves(s: Vm, q: nat)
    requires Inv(s) && s.lo <= q < NPAGES && s.owner[q] == Held
    ensures OnlyMoves(s, Push(s, q))
  {
    var s' := Push(s, q);
    forall p | 0 <= p < NPAGES && s'.owner[p] == Free ensures p in s'.free {
      if p == q { assert s'.free[0] == q; } else {
        assert PageOk(s, p);
        var k :| 0 <= k < |s.free| && s.free[k] == p;
        assert s'.free[k+1] == p;
      }
    }
  }

  lemma WriteHeldMoves(s: Vm, q: nat, page: Page)
    requires Inv(s) && q < NPAGES && s.owner[q] == Held && |page| == NENT
    ensures OnlyMoves(s, s.(mem := s.mem[q := page]))
  {
    forall p | 0 <= p < NPAGES && s.owner[p] == Free ensures p in s.free { assert PageOk(s, p); }
  }

  // -------------------------------------------------------------- building tables

  function NewDir(s: Vm, q: nat): Vm
    requires q < |s.owner|
  {
    s.(owner := s.owner[q := Dir])
  }

  lemma NewDirInv(s: Vm, q: nat)
    requires Inv(s) && q < NPAGES && s.owner[q] == Held && s.mem[q] == Fill(ZERO)
    ensures Inv(NewDir(s, q))
  {
    var s' := NewDir(s, q);
    forall p | 0 <= p < NPAGES ensures PageOk(s', p) { assert PageOk(s, p); }
    forall d, i | 0 <= d < NPAGES && 0 <= i < NENT ensures PdeOk(s', d, i) { assert PdeOk(s, d, i); }
    forall d, v | 0 <= d < NPAGES && 0 <= v < KERNPAGE ensures PteOk(s', d, v) { assert PteOk(s, d, v); }
  }

  /** Entry `i` of directory `d` gets the empty table `t`. */
  function NewTable(s: Vm, d: nat, i: nat, t: nat): Vm
    requires d < |s.mem| && i < |s.mem[d]| && t < |s.owner|
  {
    s.(mem := s.mem[d := s.mem[d][i := Word(t, PTE_W + PTE_U, true)]], owner := s.owner[t := Table(d, i)])
  }

  ghost predicate CanTable(s: Vm, d: nat, i: nat, t: nat) {
    && Inv(s) && IsDir(s, d) && i < NENT && !s.mem[d][i].p
    && t < NPAGES && s.owner[t] == Held && s.mem[t] == Fill(ZERO)
  }

  /** A new table shows nothing new. */
  lemma NewTablePte(s: Vm, d: nat, i: nat, t: nat, d': nat, v: nat)
    requires CanTable(s, d, i, t) && IsDir(s, d') && v < NVPN
    ensures Pte(NewTable(s, d, i, t), d', v) == Pte(s, d', v)
  {
    assert PdeOk(s, d', v / NENT);
  }

  lemma NewTableInv(s: Vm, d: nat, i: nat, t: nat)
    requires CanTable(s, d, i, t)
    ensures Inv(NewTable(s, d, i, t))
  {
    var s' := NewTable(s, d, i, t);
    forall p | 0 <= p < NPAGES ensures PageOk(s', p) {
      assert PageOk(s, p);
      if s'.owner[p].User? { NewTablePte(s, d, i, t, s.owner[p].d, s.owner[p].v); }
    }
    forall c, k | 0 <= c < NPAGES && 0 <= k < NENT ensures PdeOk(s', c, k) { assert PdeOk(s, c, k); }
    forall c, v | 0 <= c < NPAGES && 0 <= v < KERNPAGE ensures PteOk(s', c, v) {
      assert PteOk(s, c, v);
      if IsDir(s, c) { NewTablePte(s, d, i, t, c, v); }
    }
  }

  // -------------------------------------------------------------- setting entries

  /** Entry `v` becomes `w`, page `q` gets the owner `o`. */
  function SetPte(s: Vm, d: nat, v: nat, w: Word, q: nat, o: Owner): Vm
    requires Shape(s) && d < NPAGES && v < NVPN && s.mem[d][v / NENT].page < NPAGES && q < NPAGES
  {
    var t := s.mem[d][v / NENT].page;
    s.(mem := s.mem[t := s.mem[t][v % NENT := w]], owner := s.owner[q := o])
  }

  ghost predicate HasTable(s: Vm, d: nat, v: nat) {
    Inv(s) && IsDir(s, d) && v < NVPN && s.mem[d][v / NENT].p && s.mem[d][v / NENT].page < NPAGES
  }

  lemma SetPtePte(s: Vm, d: nat, v: nat, w: Word, q: nat, o: Owner, d': nat, v': nat)
    requires HasTable(s, d, v) && q < NPAGES && IsDir(s, d') && v' < NVPN
    ensures Pte(SetPte(s, d, v, w, q, o), d', v') == if d' == d && v' == v then w else Pte(s, d', v')
  {
    assert PdeOk(s, d, v / NENT) && PdeOk(s, d', v' / NENT);
  }

  /** A held page becomes user memory. */
  lemma MapUserInv(s: Vm, d: nat, v: nat, w: Word)
    requires HasTable(s, d, v) && v < KERNPAGE && !Pte(s, d, v).p && w.p && w.page < NPAGES && s.owner[w.page] == Held
    ensures Inv(SetPte(s, d, v, w, w.page, User(d, v)))
  {
    var s' := SetPte(s, d, v, w, w.page, User(d, v));
    SetPteRest(s, d, v, w, w.page, User(d, v));
    forall p | 0 <= p < NPAGES ensures PageOk(s', p) {
      assert PageOk(s, p);
      if s'.owner[p].User? { SetPtePte(s, d, v, w, w.page, User(d, v), s'.owner[p].d, s'.owner[p].v); }
    }
    forall c, u | 0 <= c < NPAGES && 0 <= u < KERNPAGE ensures PteOk(s', c, u) {
      assert PteOk(s, c, u);
      if IsDir(s, c) { SetPtePte(s, d, v, w, w.page, User(d, v), c, u); }
    }
  }

  lemma SetPteRest(s: Vm, d: nat, v: nat, w: Word, q: nat, o: Owner)
    requires HasTable(s, d, v) && q < NPAGES && !s.owner[q].Free? && !s.owner[q].Dir? && !s.owner[q].Table? && !o.Free?
    requires !o.Dir? && !o.Table?
    ensures var s' := SetPte(s, d, v, w, q, o);
      && Shape(s') && FreeOk(s') && forall c, i :: 0 <= c < NPAGES && 0 <= i < NENT ==> PdeOk(s', c, i)
  {
    var s' := SetPte(s, d, v, w, q, o);
    assert PdeOk(s, d, v / NENT);
    forall c, i | 0 <= c < NPAGES && 0 <= i < NENT ensures PdeOk(s', c, i) { assert PdeOk(s, c, i); }
  }

  /** A user page is taken back from its entry. */
  lemma UnmapUserInv(s: Vm, d: nat, v: nat)
    requires HasTable(s, d, v) && v < KERNPAGE && Pte(s, d, v).p
    ensures Pte(s, d, v).page < NPAGES && s.owner[Pte(s, d, v).page] == User(d, v) && Pte(s, d, v).page >= s.lo
    ensures Inv(SetPte(s, d, v, ZERO, Pte(s, d, v).page, Held))
  {
    assert PteOk(s, d, v);
    var q := Pte(s, d, v).page;
    assert PageOk(s, q);
    var s' := SetPte(s, d, v, ZERO, q, Held);
    SetPteRest(s, d, v, ZERO, q, Held);
    forall p | 0 <= p < NPAGES ensures PageOk(s', p) {
      assert PageOk(s, p);
      if s'.owner[p].User? { SetPtePte(s, d, v, ZERO, q, Held, s'.owner[p].d, s'.owner[p].v); }
    }
    forall c, u | 0 <= c < NPAGES && 0 <= u < KERNPAGE ensures PteOk(s', c, u) {
      assert PteOk(s, c, u);
      if IsDir(s, c) { SetPtePte(s, d, v, ZERO, q, Held, c, u); }
    }
  }

  /** Kernel entries own nothing. */
  lemma MapKernelInv(s: Vm, d: nat, v: nat, w: Word)
    requires HasTable(s, d, v) && v >= KERNPAGE
    ensures Inv(s.(mem := SetPte(s, d, v, w, 0, s.owner[0]).mem))
  {
    var s' := s.(mem := SetPte(s, d, v, w, 0, s.owner[0]).mem);
    assert s' == SetPte(s, d, v, w, 0, s.owner[0]);
    assert PdeOk(s, d, v / NENT);
    forall c, i | 0 <= c < NPAGES && 0 <= i < NENT ensures PdeOk(s', c, i) { assert PdeOk(s, c, i); }
    forall p | 0 <= p < NPAGES ensures PageOk(s', p) {
      assert PageOk(s, p);
      if s'.owner[p].User? { SetPtePte(s, d, v, w, 0, s.owner[0], s'.owner[p].d, s'.owner[p].v); }
    }
    forall c, u | 0 <= c < NPAGES && 0 <= u < KERNPAGE ensures PteOk(s', c, u) {
      assert PteOk(s, c, u);
      if IsDir(s, c) { SetPtePte(s, d, v, w, 0, s.owner[0], c, u); }
    }
  }

  // ------------------------------------------------- what a call on a directory changes

  ghost predicate OwnedBy(o: Owner, p: nat, d: nat) {
    (o.Dir? && p == d) || (o.Table? && o.d == d) || (o.User? && o.d == d)
  }

  ghost predicate InPlay(s: Vm, p: nat, d: nat)
    requires p < |s.owner|
  {
    s.owner[p].Free? || OwnedBy(s.owner[p], p, d)
  }

  /** A page that is not free and not of directory `d` stays what it is. */
  ghost predicate Kept(s: Vm, s': Vm, d: nat, p: nat)
    requires Shape(s) && Shape(s') && p < NPAGES
  {
    if InPlay(s, p, d) then InPlay(s', p, d) else s'.owner[p] == s.owner[p] && s'.mem[p] == s.mem[p]
  }

  /** Only free pages and pages of `d` change, and page `m` if it is one. */
  ghost predicate Within(s: Vm, s': Vm, d: nat, m: nat) {
    && Shape(s) && Shape(s') && s'.lo == s.lo
    && forall p :: 0 <= p < NPAGES && p != m ==> Kept(s, s', d, p)
  }

  lemma WithinTrans(s: Vm, s1: Vm, s2: Vm, d: nat, m: nat)
    requires Within(s, s1, d, m) && Within(s1, s2, d, m)
    ensures Within(s, s2, d, m)
  {
    forall p | 0 <= p < NPAGES && p != m ensures Kept(s, s2, d, p) { assert Kept(s, s1, d, p) && Kept(s1, s2, d, p); }
  }

  /** The address spaces of other directories are as before. */
  lemma OtherPte(s: Vm, s': Vm, d: nat, m: nat, c: nat, v: nat)
    requires Inv(s) && Within(s, s', d, m) && IsDir(s, c) && c != d && v < NVPN && (m < NPAGES ==> s.owner[m].Held?)
    ensures IsDir(s', c) && Pte(s', c, v) == Pte(s, c, v)
  {
    var e := s.mem[c][v / NENT];
    assert PdeOk(s, c, v / NENT) && Kept(s, s', d, c);
    if e.p { assert Kept(s, s', d, e.page); }
  }
}
