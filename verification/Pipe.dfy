/** Pipes: a ring buffer under one lock. What a call does between taking the lock and
    sleeping or returning is one step. */
module PipeSpec {
  import opened Common

  const PIPESIZE := 512

  /** A pipe, with all bytes that writers put in and readers took out, and who sleeps. */
  datatype Pipe = Pipe(buffered: seq<Byte>, accepted: seq<Byte>, delivered: seq<Byte>,
                       readopen: bool, writeopen: bool, sleepR: set<nat>, sleepW: set<nat>)

  datatype Outcome = Done | Failed | Asleep

  /** pipewrite, by process `p`, from where it takes the lock: the bytes that fit go in. */
  ghost function Written(s: Pipe, p: nat, bytes: seq<Byte>, killed: bool): (Pipe, Outcome)
    requires |s.buffered| <= PIPESIZE
  {
    var room := PIPESIZE - |s.buffered|;
    var now := if |bytes| <= room then bytes else bytes[..room];
    var s' := s.(buffered := s.buffered + now, accepted := s.accepted + now);
    if |bytes| <= room then (s'.(sleepR := {}), Done)
    else if !s.readopen || killed then (s', Failed)
    else (s'.(sleepR := {}, sleepW := s.sleepW + {p}), Asleep)
  }

  /** piperead of up to `n` bytes. */
  ghost function Read(s: Pipe, p: nat, n: nat, killed: bool): (Pipe, Outcome) {
    if s.buffered == [] && s.writeopen then
      if killed then (s, Failed) else (s.(sleepR := s.sleepR + {p}), Asleep)
    else
      var k := if n <= |s.buffered| then n else |s.buffered|;
      (s.(buffered := s.buffered[k..], delivered := s.delivered + s.buffered[..k], sleepW := {}), Done)
  }

  ghost function Closed(s: Pipe, writable: bool): Pipe {
    if writable then s.(writeopen := false, sleepR := {}) else s.(readopen := false, sleepW := {})
  }

  // ------------------------------------------------------------------------- runs

  /** A call, or the rest of one whose caller slept; a wakeup for another reason, as kill
      gives; the end of the last reference to one side. */
  datatype Step =
    | Write(p: nat, bytes: seq<Byte>, killed: bool)
    | ReadUpTo(p: nat, n: nat, killed: bool)
    | Wake(p: nat)
    | Close(writable: bool)

  const Fresh := Pipe([], [], [], true, true, {}, {})

  /** A caller is awake and holds its side open; so does a sleeper. */
  ghost predicate Enabled(s: Pipe, e: Step) {
    match e
    case Write(p, bytes, killed) => s.writeopen && p !in s.sleepR && p !in s.sleepW && |s.buffered| <= PIPESIZE
    case ReadUpTo(p, n, killed) => s.readopen && p !in s.sleepR && p !in s.sleepW
    case Wake(p) => true
    case Close(writable) => if writable then s.writeopen && s.sleepW == {} else s.readopen && s.sleepR == {}
  }

  ghost function Apply(s: Pipe, e: Step): Pipe
    requires Enabled(s, e)
  {
    match e
    case Write(p, bytes, killed) => Written(s, p, bytes, killed).0
    case ReadUpTo(p, n, killed) => Read(s, p, n, killed).0
    case Wake(p) => s.(sleepR := s.sleepR - {p}, sleepW := s.sleepW - {p})
    case Close(writable) => Closed(s, writable)
  }

  ghost predicate Run(s: Pipe, es: seq<Step>, s': Pipe)
    decreases |es|
  {
    if es == [] then s' == s else Enabled(s, es[0]) && Run(Apply(s, es[0]), es[1..], s')
  }

  ghost predicate Inv(s: Pipe) {
    && |s.buffered| <= PIPESIZE && s.accepted == s.delivered + s.buffered
    && (s.sleepW != {} ==> |s.buffered| == PIPESIZE && s.readopen && s.writeopen)
    && (s.sleepR != {} ==> s.readopen && s.writeopen)
  }

  lemma WriteInv(s: Pipe, p: nat, bytes: seq<Byte>, killed: bool)
    requires Inv(s) && s.writeopen
    ensures Inv(Written(s, p, bytes, killed).0)
  {
    var s' := Written(s, p, bytes, killed).0;
    var now := s'.accepted[|s.accepted|..];
    assert s.delivered + s.buffered + now == s.delivered + (s.buffered + now);
  }

  lemma StepInv(s: Pipe, e: Step)
    requires Inv(s) && Enabled(s, e)
    ensures Inv(Apply(s, e))
  {
    match e
    case Write(p, bytes, killed) => WriteInv(s, p, bytes, killed);
    case ReadUpTo(p, n, killed) =>
      forall k | 0 <= k <= |s.buffered|
        ensures s.delivered + s.buffered == s.delivered + s.buffered[..k] + s.buffered[k..]
      {
        assert s.buffered == s.buffered[..k] + s.buffered[k..];
      }
    case Wake(_) =>
    case Close(_) =>
  }

  lemma {:induction false} RunInv(s: Pipe, es: seq<Step>, s': Pipe)
    requires Inv(s) && Run(s, es, s')
    ensures Inv(s')
    decreases |es|
  {
    if es != [] {
      StepInv(s, es[0]);
      RunInv(Apply(s, es[0]), es[1..], s');
    }
  }

  /** First in, first out, over every interleaving: what was accepted is what was delivered
      and then what is buffered. A writer sleeps only while the buffer is full and someone
      can still read. */
  lemma Fifo(es: seq<Step>, s: Pipe)
    requires Run(Fresh, es, s)
    ensures s.accepted == s.delivered + s.buffered && |s.buffered| <= PIPESIZE
    ensures s.sleepW != {} ==> |s.buffered| == PIPESIZE && s.readopen
  {
    RunInv(Fresh, es, s);
  }

  // -------------------------------------------------------------------- end of file

  /** Over every run, a call for bytes that is done and gives none happens exactly on an empty
      pipe without a writer; all that was ever written has then been read. */
  lemma EndOfFile(es: seq<Step>, s: Pipe, p: nat, n: nat, killed: bool)
    requires Run(Fresh, es, s) && Enabled(s, ReadUpTo(p, n, killed)) && n > 0
    ensures var (t, r) := Read(s, p, n, killed);
      && (r.Done? && t.delivered == s.delivered <==> s.buffered == [] && !s.writeopen)
      && (r.Done? && t.delivered == s.delivered ==> s.delivered == s.accepted)
  {
    RunInv(Fresh, es, s);
    var t := Read(s, p, n, killed).0;
    assert t.delivered != s.delivered ==> |t.delivered| > |s.delivered|;
  }

  /** And it stays so: nobody can write any more. */
  lemma {:induction false} EndIsFinal(s: Pipe, es: seq<Step>, s': Pipe)
    requires s.buffered == [] && !s.writeopen && Run(s, es, s')
    ensures s'.buffered == [] && !s'.writeopen && s'.accepted == s.accepted && s'.delivered == s.delivered
    decreases |es|
  {
    if es != [] { EndIsFinal(Apply(s, es[0]), es[1..], s'); }
  }

  // --------------------------------------------------------------- sleeping readers

  /** A reader sleeps only while the buffer is empty and someone can still write. */
  ghost predicate ReadersOk(s: Pipe) {
    s.sleepR != {} ==> s.buffered == [] && s.writeopen
  }

  /** A killed writer with more than a bufferful returns without waking the readers. */
  ghost predicate LosesWakeup(s: Pipe, e: Step) {
    e.Write? && e.killed && |e.bytes| > PIPESIZE && s.sleepR != {}
  }

  /** Exactly these writes break the readers' condition. */
  lemma ReadersStep(s: Pipe, e: Step)
    requires Inv(s) && ReadersOk(s) && Enabled(s, e)
    ensures ReadersOk(Apply(s, e)) <==> !LosesWakeup(s, e)
  {
  }

  ghost predicate Careful(s: Pipe, es: seq<Step>)
    decreases |es|
  {
    es != [] ==> !LosesWakeup(s, es[0]) && (Enabled(s, es[0]) ==> Careful(Apply(s, es[0]), es[1..]))
  }

  lemma {:induction false} ReadersRun(s: Pipe, es: seq<Step>, s': Pipe)
    requires Inv(s) && ReadersOk(s) && Run(s, es, s') && Careful(s, es)
    ensures Inv(s') && ReadersOk(s')
    decreases |es|
  {
    if es != [] {
      StepInv(s, es[0]);
      ReadersStep(s, es[0]);
      ReadersRun(Apply(s, es[0]), es[1..], s');
    }
  }

  /** Without such a write, nobody sleeps through a chance: a sleeping reader finds the pipe
      empty, a sleeping writer finds it full, and never do both sleep. */
  lemma NoLostWakeup(es: seq<Step>, s: Pipe)
    requires Run(Fresh, es, s) && Careful(Fresh, es)
    ensures s.sleepR != {} ==> s.buffered == [] && s.writeopen
    ensures s.sleepR == {} || s.sleepW == {}
  {
    ReadersRun(Fresh, es, s);
  }

  /** With one, a reader can sleep on while the buffer is full. */
  lemma ReaderSleepsOn(bytes: seq<Byte>)
    requires |bytes| > PIPESIZE
    ensures exists s ::
      && Run(Fresh, [ReadUpTo(1, 1, false), Write(2, bytes, true)], s)
      && s.sleepR == {1} && s.buffered == bytes[..PIPESIZE] && s.writeopen
  {
    var es := [ReadUpTo(1, 1, false), Write(2, bytes, true)];
    var s1 := Apply(Fresh, es[0]);
    var s2 := Apply(s1, es[1]);
    assert es[1..] == [es[1]] && es[1..][1..] == [];
    assert Run(s2, [], s2);
    assert Run(s1, es[1..], s2);
    assert Run(Fresh, es, s2);
  }
}

/** The ring buffer itself, with its counters of 32 bits that wrap around. */
module PipeRing {
  import opened Common
  import opened PipeSpec

  lemma SameSlot(a: nat)
    ensures a % WORD % PIPESIZE == a % PIPESIZE
  {
    var q := a / WORD;
    assert a == q * WORD + a % WORD;
    assert WORD == 0x80_0000 * PIPESIZE;
    SlotShift(a % WORD, q * 0x80_0000);
  }

  lemma {:induction false} SlotShift(a: nat, q: nat)
    ensures (a + q * PIPESIZE) % PIPESIZE == a % PIPESIZE
  {
    if q > 0 { SlotShift(a, q - 1); }
  }

  /** Where the byte `i` places behind the reader lies. */
  function Slot(nread: nat, i: nat): (k: nat)
    ensures k < PIPESIZE
  {
    (nread + i) % PIPESIZE
  }

  /** Two places closer than the size of the buffer are different slots. */
  lemma OtherSlot(a: nat, i: nat, k: nat)
    requires i < k < i + PIPESIZE
    ensures Slot(a, i) != Slot(a, k)
  {
  }

  /** The wrapped counters are equal only at the same distance. */
  lemma SameCount(a: nat, i: nat, k: nat)
    requires i <= PIPESIZE && k <= PIPESIZE && (a + i) % WORD == (a + k) % WORD
    ensures i == k
  {
  }

  class Ring {
    const data: array<Byte>
    var nread: nat
    var nwrite: nat
    var readopen: bool
    var writeopen: bool
    /** Who sleeps on &nread and on &nwrite. */
    var sleepR: set<nat>
    var sleepW: set<nat>
    ghost var buffered: seq<Byte>
    ghost var accepted: seq<Byte>
    ghost var delivered: seq<Byte>

    ghost predicate Valid()
      reads this, data
    {
      && data.Length == PIPESIZE && nread < WORD && |buffered| <= PIPESIZE
      && nwrite == (nread + |buffered|) % WORD
      && forall i :: 0 <= i < |buffered| ==> buffered[i] == data[Slot(nread, i)]
    }

    ghost function View(): Pipe
      reads this
    {
      Pipe(buffered, accepted, delivered, readopen, writeopen, sleepR, sleepW)
    }

    constructor ()
      ensures Valid() && View() == Fresh && fresh(data)
    {
      data := new Byte[PIPESIZE](_ => 0);
      nread, nwrite, readopen, writeopen := 0, 0, true, true;
      sleepR, sleepW := {}, {};
      buffered, accepted, delivered := [], [], [];
    }

    /** The pipe is full. */
    predicate Full()
      reads this
    {
      nwrite == (nread + PIPESIZE) % WORD
    }

    lemma FullIs()
      requires Valid()
      ensures Full() <==> |buffered| == PIPESIZE
      ensures nread == nwrite <==> buffered == []
    {
      if Full() { SameCount(nread, |buffered|, PIPESIZE); }
      if nread == nwrite { SameCount(nread, |buffered|, 0); }
    }

    method Put(x: Byte)
      requires Valid() && |buffered| < PIPESIZE
      modifies data, `nwrite, `buffered, `accepted
      ensures Valid() && buffered == old(buffered) + [x] && accepted == old(accepted) + [x]
    {
      ghost var k := |buffered|;
      SameSlot(nread + k);
      data[nwrite % PIPESIZE] := x;
      assert nwrite % PIPESIZE == Slot(nread, k);
      forall i | 0 <= i < k ensures data[Slot(nread, i)] == buffered[i] { OtherSlot(nread, i, k); }
      NextCount(nread + k);
      nwrite := (nwrite + 1) % WORD;
      buffered, accepted := buffered + [x], accepted + [x];
    }

    method Take() returns (x: Byte)
      requires Valid() && buffered != []
      modifies `nread, `buffered, `delivered
      ensures Valid() && x == old(buffered)[0] && buffered == old(buffered)[1..] && delivered == old(delivered) + [x]
    {
      x := data[nread % PIPESIZE];
      assert nread % PIPESIZE == Slot(nread, 0);
      ghost var was := nread;
      nread := (nread + 1) % WORD;
      delivered, buffered := delivered + [buffered[0]], buffered[1..];
      WrapSlots(was, |buffered|);
    }

    /** pipewrite, from taking the lock to releasing it: on sleeping, on failing or when done. */
    method Write(p: nat, addr: seq<Byte>, killed: bool) returns (r: Outcome, i: nat)
      requires Valid()
      modifies this, data
      ensures Valid() && (View(), r) == Written(old(View()), p, addr, killed)
      ensures i == if |addr| <= PIPESIZE - |old(buffered)| then |addr| else PIPESIZE - |old(buffered)|
      ensures buffered == old(buffered) + addr[..i] && accepted == old(accepted) + addr[..i]
      ensures r == if i == |addr| then Done else if !readopen || killed then Failed else Asleep
      ensures sleepR == (if r.Failed? then old(sleepR) else {})
      ensures sleepW == (if r.Asleep? then old(sleepW) + {p} else old(sleepW))
      ensures delivered == old(delivered) && readopen == old(readopen) && writeopen == old(writeopen)
    {
      i := 0;
      while i < |addr|
        invariant 0 <= i <= |addr| && Valid() && |old(buffered)| + i <= PIPESIZE
        invariant View() == old(View()).(buffered := old(buffered) + addr[..i], accepted := old(accepted) + addr[..i])
      {
        FullIs();
        if Full() {
          if !readopen || killed { return Failed, i; }
          sleepR := {};
          sleepW := sleepW + {p};
          return Asleep, i;
        }
        Put(addr[i]);
        i := i + 1;
      }
      assert addr[..i] == addr;
      sleepR := {};
      r := Done;
    }

    /** piperead, from taking the lock to releasing it. */
    method ReadBytes(p: nat, n: nat, killed: bool) returns (r: Outcome, addr: seq<Byte>)
      requires Valid()
      modifies this
      ensures Valid() && (View(), r) == Read(old(View()), p, n, killed)
      ensures r == if old(buffered) != [] || !writeopen then Done else if killed then Failed else Asleep
      ensures |addr| == if n <= |old(buffered)| then n else |old(buffered)|
      ensures addr == old(buffered)[..|addr|] && buffered == old(buffered)[|addr|..]
      ensures delivered == old(delivered) + addr
      ensures sleepR == (if r.Asleep? then old(sleepR) + {p} else old(sleepR))
      ensures sleepW == (if r.Done? then {} else old(sleepW))
      ensures accepted == old(accepted) && readopen == old(readopen) && writeopen == old(writeopen)
    {
      FullIs();
      addr := [];
      if nread == nwrite && writeopen {
        if killed { return Failed, addr; }
        sleepR := sleepR + {p};
        return Asleep, addr;
      }
      var i := 0;
      while i < n
        invariant 0 <= i <= n && i <= |old(buffered)| && Valid() && addr == old(buffered)[..i]
        invariant View() ==
          old(View()).(buffered := old(buffered)[i..], delivered := old(delivered) + old(buffered)[..i])
      {
        FullIs();
        if nread == nwrite { break; }
        var x := Take();
        addr := addr + [x];
        i := i + 1;
      }
      FullIs();
      sleepW := {};
      r := Done;
    }

    /** pipeclose. */
    method CloseSide(writable: bool)
      requires Valid()
      modifies this
      ensures Valid() && View() == Closed(old(View()), writable)
      ensures readopen == (old(readopen) && writable) && writeopen == (old(writeopen) && !writable)
      ensures sleepR == (if writable then {} else old(sleepR)) && sleepW == (if writable then old(sleepW) else {})
    {
      if writable {
        writeopen := false;
        sleepR := {};
      } else {
        readopen := false;
        sleepW := {};
      }
    }
  }

  lemma NextCount(a: nat)
    ensures (a % WORD + 1) % WORD == (a + 1) % WORD
  {
  }

  /** Reading a byte moves the window by one slot, also where the counter wraps. */
  lemma WrapSlots(a: nat, k: nat)
    requires a < WORD && k < PIPESIZE
    ensures var b := (a + 1) % WORD;
      && (b + k) % WORD == (a + 1 + k) % WORD
      && forall i :: 0 <= i < k ==> Slot(b, i) == Slot(a, i + 1)
  {
    if a + 1 == WORD {
      forall i | 0 <= i < k ensures Slot(0, i) == Slot(a, i + 1) {
        SameSlot(WORD + i);
      }
    }
  }
}
