/**
  Reference-counted blobs shared between threads.  Each operation on a handle is a sequence of
  steps - note the new reference, release the old one, free the container, overwrite the pointer -
  and the steps of different threads interleave freely.
 */
module BlobRefs {

  datatype Pointer = Null | To(c: nat)

  /** What is being done to a handle. */
  datatype Job =
    | Create              // a constructor with content of its own
    | Copy(src: nat)      // the copy constructor
    | Assign(src: nat)
    | Clear
    | Destroy
  {
    predicate Reads() { Copy? || Assign? }

    predicate Builds() { Create? || Copy? }
  }

  /** The next step of a job. */
  datatype Stage = Ref | Unref | Free(c: nat) | Store

  /** A thread; taken is the reference it has noted and not yet stored. */
  datatype Task = Idle | Busy(job: Job, dst: nat, stage: Stage, taken: Pointer) {
    predicate WritesTo(h: nat) { Busy? && dst == h }

    predicate ReadsFrom(h: nat) { Busy? && job.Reads() && job.src == h }

    /** The old reference of dst is gone, but dst has not been overwritten. */
    predicate HasLetGo(h: nat) { WritesTo(h) && !job.Builds() && (stage.Free? || stage.Store?) }
  }

  datatype System = System(
    count: map<nat, int>,       // the containers in memory and their reference counts
    handle: map<nat, Pointer>,  // the blobs in being
    task: map<nat, Task>,       // the threads
    next: nat,                  // the next container to be allocated
    freed: seq<nat>,            // the containers deleted, in order
    fault: bool)                // a container not in memory has been touched

  datatype Step =
    | Start(t: nat, job: Job, dst: nat)
    | Advance(t: nat)

  /**
    Who may start what: a handle being written is used by one thread only, and a handle being read
    is not written meanwhile.
   */
  ghost predicate MayStart(y: System, t: nat, job: Job, dst: nat) {
    && t in y.task && y.task[t].Idle?
    && (dst in y.handle <==> !job.Builds())
    && (job.Reads() ==> job.src in y.handle)
    && forall o :: o in y.task ==>
         && !y.task[o].WritesTo(dst) && !y.task[o].ReadsFrom(dst)
         && (job.Reads() ==> !y.task[o].WritesTo(job.src))
  }

  ghost predicate CanStep(y: System, e: Step) {
    match e
    case Start(t, job, dst) => MayStart(y, t, job, dst)
    case Advance(t) =>
      && t in y.task && y.task[t].Busy?
      && (y.task[t].job.Reads() ==> y.task[t].job.src in y.handle)
      && (!y.task[t].job.Builds() ==> y.task[t].dst in y.handle)
  }

  function FirstStage(job: Job): Stage {
    if job.Clear? || job.Destroy? then Unref else Ref
  }

  /** ref(): one reference more. */
  function Noted(y: System, p: Pointer): System {
    if p.Null? then y
    else if p.c !in y.count then y.(fault := true)
    else y.(count := y.count[p.c := y.count[p.c] + 1])
  }

  /** The decrement of unref(). */
  function Unnoted(y: System, p: Pointer): System {
    if p.Null? then y
    else if p.c !in y.count then y.(fault := true)
    else y.(count := y.count[p.c := y.count[p.c] - 1])
  }

  function Put(y: System, t: nat, k: Task): System { y.(task := y.task[t := k]) }

  ghost function Next(y: System, e: Step): System
    requires CanStep(y, e)
  {
    match e
    case Start(t, job, dst) => Put(y, t, Busy(job, dst, FirstStage(job), Null))
    case Advance(t) =>
      var k := y.task[t];
      match k.stage
      case Ref =>
        if k.job.Create? then
          Put(y.(count := y.count[y.next := 1], next := y.next + 1), t, k.(stage := Store, taken := To(y.next)))
        else if k.job.Reads() then
          var p := y.handle[k.job.src];
          Put(Noted(y, p), t, k.(stage := if k.job.Copy? then Store else Unref, taken := p))
        else y
      case Unref =>
        if k.job.Builds() then y
        else
          var p := y.handle[k.dst];
          var z := Unnoted(y, p);
          var last := p.To? && p.c in z.count && z.count[p.c] == 0;
          Put(z, t, k.(stage := if last then Free(p.c) else Store))
      case Free(c) =>
        if c !in y.count then y.(fault := true)
        else Put(y.(count := y.count - {c}, freed := y.freed + [c]), t, k.(stage := Store))
      case Store =>
        var h :=
          match k.job
          case Create => y.handle[k.dst := k.taken]
          case Copy(src) => y.handle[k.dst := y.handle[src]]
          case Assign(src) => y.handle[k.dst := y.handle[src]]
          case Clear => y.handle[k.dst := Null]
          case Destroy => y.handle - {k.dst};
        Put(y.(handle := h), t, Idle)
  }

  /** Some threads, and nothing yet. */
  function Birth(threads: set<nat>): System {
    System(map[], map[], map t | t in threads :: Idle, 0, [], false)
  }

  datatype Reached = Stuck | At(y: System)

  ghost function Run(threads: set<nat>, es: seq<Step>): Reached {
    if es == [] then At(Birth(threads))
    else
      match Run(threads, es[..|es|-1])
      case Stuck => Stuck
      case At(y) =>
        var e := es[|es|-1];
        if CanStep(y, e) then At(Next(y, e)) else Stuck
  }

  // ---------------------------------------------------------------- the books

  /** Some thread has released h's reference and has yet to overwrite h. */
  ghost predicate LetGo(y: System, h: nat) {
    exists t :: t in y.task && y.task[t].HasLetGo(h)
  }

  /** The handles in being that point at c. */
  ghost function Installed(y: System, c: nat): set<nat> {
    set h | h in y.handle && y.handle[h] == To(c)
  }

  /** Those of them whose reference has been released and which have not been overwritten. */
  ghost function Released(y: System, c: nat): set<nat> {
    set h | h in y.handle && y.handle[h] == To(c) && LetGo(y, h)
  }

  /** Those whose reference still counts. */
  ghost function Held(y: System, c: nat): set<nat> {
    set h | h in y.handle && y.handle[h] == To(c) && !LetGo(y, h)
  }

  /** The threads with a reference to c not yet stored. */
  ghost function Taken(y: System, c: nat): set<nat> {
    set t | t in y.task && y.task[t].Busy? && y.task[t].taken == To(c)
  }

  lemma HeldIsTheRest(y: System, c: nat)
    ensures |Held(y, c)| == |Installed(y, c)| - |Released(y, c)|
  {
    assert Installed(y, c) == Held(y, c) + Released(y, c);
    assert Held(y, c) !! Released(y, c);
  }

  // ---------------------------------------------------------------- the invariant

  /** No two threads write one handle, and none reads what another writes. */
  ghost predicate Exclusive(y: System) {
    forall t, u :: t in y.task && u in y.task && t != u && y.task[t].Busy? ==>
      !y.task[u].WritesTo(y.task[t].dst) && !y.task[u].ReadsFrom(y.task[t].dst)
  }

  /** A thread is where its job can be, and its handles are as the job wants them. */
  ghost predicate Shaped(y: System, k: Task) {
    k.Busy? ==>
      && (k.dst in y.handle <==> !k.job.Builds())
      && (k.job.Reads() ==> k.job.src in y.handle)
      && (k.job.Builds() ==> k.stage.Ref? || k.stage.Store?)
      && (k.job.Clear? || k.job.Destroy? ==> !k.stage.Ref?)
      && (k.stage.Free? ==> y.handle[k.dst] == To(k.stage.c))
      && k.taken == (if k.stage.Ref? || k.job.Clear? || k.job.Destroy? then Null
                     else if k.job.Reads() then y.handle[k.job.src]
                     else k.taken)
      && (k.job.Create? && k.stage.Store? ==> k.taken.To?)
  }

  ghost predicate AllShaped(y: System) { forall t :: t in y.task ==> Shaped(y, y.task[t]) }

  /** The references to c that count. */
  ghost function Refs(y: System, c: nat): nat { |Held(y, c)| + |Taken(y, c)| }

  function Count(y: System, c: nat): int { if c in y.count then y.count[c] else 0 }

  /** Counts are right, and whatever is referred to is in memory. */
  ghost predicate Balanced(y: System) { forall c: nat :: Count(y, c) == Refs(y, c) }

  ghost predicate Frees(y: System, t: nat, c: nat) {
    t in y.task && y.task[t].Busy? && y.task[t].stage == Free(c)
  }

  /** A container with no references left is being freed by exactly one thread, and no other is. */
  ghost predicate Freeing(y: System) {
    && (forall t, c :: Frees(y, t, c) ==> c in y.count && y.count[c] == 0)
    && (forall t, u, c :: Frees(y, t, c) && Frees(y, u, c) ==> t == u)
    && (forall c :: c in y.count && y.count[c] == 0 ==> exists t :: Frees(y, t, c))
  }

  /** Every container ever allocated is in memory or has been freed, once. */
  ghost predicate Numbered(y: System) {
    && (forall c: nat :: c < y.next <==> c in y.count || c in y.freed)
    && (forall c :: c in y.freed ==> c !in y.count)
    && (forall i, j :: 0 <= i < j < |y.freed| ==> y.freed[i] != y.freed[j])
  }

  ghost predicate Inv(y: System) {
    !y.fault && Exclusive(y) && AllShaped(y) && Balanced(y) && Freeing(y) && Numbered(y)
  }

  // ---------------------------------------------------------------- one thread moves

  /** Nobody but t writes h. */
  ghost predicate Alone(y: System, t: nat, h: nat) {
    forall u :: u in y.task && u != t ==> !y.task[u].WritesTo(h)
  }

  /** From y to z only thread t has moved, and only handle h may have changed with it. */
  ghost predicate Moves(y: System, z: System, t: nat, h: nat) {
    && t in y.task && t in z.task && z.task == y.task[t := z.task[t]]
    && (y.task[t].Busy? ==> y.task[t].dst == h) && (z.task[t].Busy? ==> z.task[t].dst == h)
    && Alone(y, t, h)
    && forall g :: g != h ==> (g in y.handle <==> g in z.handle) && (g in y.handle ==> y.handle[g] == z.handle[g])
  }

  /** What thread t and the handle it works on contribute to the references to c. */
  function Weight(y: System, t: nat, h: nat, c: nat): nat
    requires t in y.task
  {
    (if h in y.handle && y.handle[h] == To(c) && !y.task[t].HasLetGo(h) then 1 else 0) +
    (if y.task[t].Busy? && y.task[t].taken == To(c) then 1 else 0)
  }

  lemma LetGoAlone(y: System, t: nat, h: nat)
    requires t in y.task && Alone(y, t, h)
    ensures LetGo(y, h) == y.task[t].HasLetGo(h)
  {
  }

  lemma LetGoElsewhere(y: System, z: System, t: nat, h: nat, g: nat)
    requires Moves(y, z, t, h) && g != h
    ensures LetGo(z, g) == LetGo(y, g)
  {
    if LetGo(z, g) {
      var u :| u in z.task && z.task[u].HasLetGo(g);
      assert y.task[u].HasLetGo(g);
    }
    if LetGo(y, g) {
      var u :| u in y.task && y.task[u].HasLetGo(g);
      assert z.task[u].HasLetGo(g);
    }
  }

  lemma HeldAfter(y: System, z: System, t: nat, h: nat, c: nat)
    requires Moves(y, z, t, h)
    ensures Held(z, c) - {h} == Held(y, c) - {h}
    ensures h in Held(y, c) <==> h in y.handle && y.handle[h] == To(c) && !y.task[t].HasLetGo(h)
    ensures h in Held(z, c) <==> h in z.handle && z.handle[h] == To(c) && !z.task[t].HasLetGo(h)
  {
    forall g | g != h
      ensures g in Held(z, c) <==> g in Held(y, c)
    {
      LetGoElsewhere(y, z, t, h, g);
    }
    LetGoAlone(y, t, h);
    LetGoAlone(z, t, h);
  }

  lemma TakenAfter(y: System, z: System, t: nat, h: nat, c: nat)
    requires Moves(y, z, t, h)
    ensures Taken(z, c) - {t} == Taken(y, c) - {t}
  {
  }

  /** The references change by what the thread and its handle contribute. */
  lemma Tally(y: System, z: System, t: nat, h: nat, c: nat)
    requires Moves(y, z, t, h)
    ensures Refs(z, c) == Refs(y, c) - Weight(y, t, h, c) + Weight(z, t, h, c)
  {
    HeldAfter(y, z, t, h, c);
    TakenAfter(y, z, t, h, c);
    assert t in Taken(y, c) <==> y.task[t].Busy? && y.task[t].taken == To(c);
    assert t in Taken(z, c) <==> z.task[t].Busy? && z.task[t].taken == To(c);
    hide Held, Taken, Moves;
    LessOne(Held(y, c), h);
    LessOne(Held(z, c), h);
    LessOne(Taken(y, c), t);
    LessOne(Taken(z, c), t);
  }

  lemma LessOne(s: set<nat>, x: nat)
    ensures |s| == |s - {x}| + if x in s then 1 else 0
  {
  }

  lemma BalancedAfter(y: System, z: System, t: nat, h: nat)
    requires Balanced(y) && Moves(y, z, t, h)
    requires forall c: nat :: Count(z, c) - Count(y, c) == Weight(z, t, h, c) - Weight(y, t, h, c)
    ensures Balanced(z)
  {
    forall c: nat
      ensures Count(z, c) == Refs(z, c)
    {
      Tally(y, z, t, h, c);
      assert Count(z, c) - Count(y, c) == Weight(z, t, h, c) - Weight(y, t, h, c);
      hide Moves, Count, Refs, Weight;
      assert Count(y, c) == Refs(y, c);
    }
  }

  /** A handle whose reference counts points at a container in memory with references. */
  lemma HeldIsAlive(y: System, h: nat)
    requires Balanced(y) && h in y.handle && y.handle[h].To? && !LetGo(y, h)
    ensures y.handle[h].c in y.count && y.count[y.handle[h].c] >= 1
  {
    var c := y.handle[h].c;
    assert h in Held(y, c);
    assert Count(y, c) == Refs(y, c);
  }

  lemma BusyIsAlone(y: System, t: nat)
    requires Exclusive(y) && t in y.task && y.task[t].Busy?
    ensures Alone(y, t, y.task[t].dst)
  {
    forall u | u in y.task && u != t
      ensures !y.task[u].WritesTo(y.task[t].dst)
    {
    }
  }

  lemma ReadIsHeld(y: System, t: nat)
    requires Exclusive(y) && t in y.task && y.task[t].Busy? && y.task[t].job.Reads() && y.task[t].stage.Ref?
    ensures !LetGo(y, y.task[t].job.src)
  {
    forall u | u in y.task
      ensures !y.task[u].HasLetGo(y.task[t].job.src)
    {
    }
  }

  // ---------------------------------------------------------------- what every step keeps

  lemma ExclusiveKept(y: System, e: Step)
    requires Exclusive(y) && CanStep(y, e)
    ensures Exclusive(Next(y, e))
  {
    var z := Next(y, e);
    if e.Advance? {
      OneMoves(y, e);
      hide Next, CanStep;
      forall t, u | t in z.task && u in z.task && t != u && z.task[t].Busy?
        ensures !z.task[u].WritesTo(z.task[t].dst) && !z.task[u].ReadsFrom(z.task[t].dst)
      {
        assert u in y.task && t in y.task;
      }
    } else {
      forall t, u | t in z.task && u in z.task && t != u && z.task[t].Busy?
        ensures !z.task[u].WritesTo(z.task[t].dst) && !z.task[u].ReadsFrom(z.task[t].dst)
      {
        assert u in y.task && t in y.task;
      }
    }
  }

  /** Only the thread that takes the step moves, and it keeps to its job. */
  lemma OneMoves(y: System, e: Step)
    requires CanStep(y, e) && e.Advance?
    ensures var z := Next(y, e);
            && e.t in z.task && z.task == y.task[e.t := z.task[e.t]]
            && (z.task[e.t].Busy? ==> z.task[e.t].dst == y.task[e.t].dst && z.task[e.t].job == y.task[e.t].job)
  {
  }

  lemma StartKept(y: System, e: Step)
    requires Inv(y) && CanStep(y, e) && e.Start?
    ensures Inv(Next(y, e))
  {
    var z := Next(y, e);
    ExclusiveKept(y, e);
    hide Exclusive;
    assert Moves(y, z, e.t, e.dst);
    BalancedAfter(y, z, e.t, e.dst);
    hide Balanced;
    FreeingKept(y, z, e.t);
  }

  /** Nothing is being freed or becomes free. */
  lemma FreeingKept(y: System, z: System, t: nat)
    requires Freeing(y) && t in y.task && t in z.task && z.task == y.task[t := z.task[t]]
    requires !(y.task[t].Busy? && y.task[t].stage.Free?) && !(z.task[t].Busy? && z.task[t].stage.Free?)
    requires forall c :: c in z.count && z.count[c] == 0 <==> c in y.count && y.count[c] == 0
    ensures Freeing(z)
  {
    forall u, c
      ensures Frees(z, u, c) == Frees(y, u, c)
    {
    }
    forall c | c in z.count && z.count[c] == 0
      ensures exists u :: Frees(z, u, c)
    {
      var u :| Frees(y, u, c);
      assert Frees(z, u, c);
    }
  }

  lemma CreateKept(y: System, e: Step)
    requires Inv(y) && CanStep(y, e) && e.Advance? && y.task[e.t].stage.Ref? && y.task[e.t].job.Create?
    ensures Inv(Next(y, e))
  {
    var z, h := Next(y, e), y.task[e.t].dst;
    ExclusiveKept(y, e);
    BusyIsAlone(y, e.t);
    hide Exclusive;
    assert Moves(y, z, e.t, h);
    BalancedAfter(y, z, e.t, h);
    hide Balanced;
    FreeingKept(y, z, e.t);
  }

  lemma RefKept(y: System, e: Step)
    requires Inv(y) && CanStep(y, e) && e.Advance? && y.task[e.t].stage.Ref? && y.task[e.t].job.Reads()
    ensures Inv(Next(y, e))
  {
    var z, h, src := Next(y, e), y.task[e.t].dst, y.task[e.t].job.src;
    ExclusiveKept(y, e);
    BusyIsAlone(y, e.t);
    ReadIsHeld(y, e.t);
    if y.handle[src].To? {
      HeldIsAlive(y, src);
    }
    ShapeOf(y, e.t);
    OthersShaped(y, z, e.t);
    hide Exclusive, AllShaped;
    assert Moves(y, z, e.t, h);
    BalancedAfter(y, z, e.t, h);
    hide Balanced;
    FreeingKept(y, z, e.t);
  }

  lemma UnrefKept(y: System, e: Step)
    requires Inv(y) && CanStep(y, e) && e.Advance? && y.task[e.t].stage.Unref?
    ensures Inv(Next(y, e))
  {
    var z, h := Next(y, e), y.task[e.t].dst;
    ExclusiveKept(y, e);
    BusyIsAlone(y, e.t);
    LetGoAlone(y, e.t, h);
    if y.handle[h].To? {
      HeldIsAlive(y, h);
    }
    ShapeOf(y, e.t);
    OthersShaped(y, z, e.t);
    hide Exclusive, AllShaped;
    assert Moves(y, z, e.t, h);
    BalancedAfter(y, z, e.t, h);
    hide Balanced;
    if y.handle[h].To? && y.count[y.handle[h].c] == 1 {
      FreeingBegins(y, z, e.t, y.handle[h].c);
    } else {
      FreeingKept(y, z, e.t);
    }
  }

  lemma FreeingBegins(y: System, z: System, t: nat, d: nat)
    requires Freeing(y) && t in y.task && t in z.task && z.task == y.task[t := z.task[t]]
    requires !(y.task[t].Busy? && y.task[t].stage.Free?) && z.task[t].Busy? && z.task[t].stage == Free(d)
    requires d in y.count && y.count[d] == 1 && z.count == y.count[d := 0]
    ensures Freeing(z)
  {
    forall u, c
      ensures Frees(z, u, c) == (Frees(y, u, c) || (u == t && c == d))
    {
    }
    forall c | c in z.count && z.count[c] == 0
      ensures exists u :: Frees(z, u, c)
    {
      if c == d {
        assert Frees(z, t, c);
      } else {
        var u :| Frees(y, u, c);
        assert Frees(z, u, c);
      }
    }
  }

  lemma FreeKept(y: System, e: Step)
    requires Inv(y) && CanStep(y, e) && e.Advance? && y.task[e.t].stage.Free?
    ensures Inv(Next(y, e))
  {
    var z, h, c := Next(y, e), y.task[e.t].dst, y.task[e.t].stage.c;
    ExclusiveKept(y, e);
    BusyIsAlone(y, e.t);
    assert Frees(y, e.t, c);
    hide Exclusive;
    assert Moves(y, z, e.t, h);
    BalancedAfter(y, z, e.t, h);
    hide Balanced;
    FreeingEnds(y, z, e.t, c);
  }

  lemma FreeingEnds(y: System, z: System, t: nat, d: nat)
    requires Freeing(y) && Frees(y, t, d) && t in z.task && z.task == y.task[t := z.task[t]]
    requires z.task[t].Busy? && !z.task[t].stage.Free? && z.count == y.count - {d}
    ensures Freeing(z)
  {
    forall u, c
      ensures Frees(z, u, c) == (Frees(y, u, c) && u != t)
    {
    }
    forall c | c in z.count && z.count[c] == 0
      ensures exists u :: Frees(z, u, c)
    {
      var u :| Frees(y, u, c);
      assert Frees(z, u, c);
    }
  }

  lemma StoreKept(y: System, e: Step)
    requires Inv(y) && CanStep(y, e) && e.Advance? && y.task[e.t].stage.Store?
    ensures Inv(Next(y, e))
  {
    var z, h := Next(y, e), y.task[e.t].dst;
    ExclusiveKept(y, e);
    BusyIsAlone(y, e.t);
    StoreShaped(y, e);
    hide Exclusive, AllShaped;
    assert Shaped(y, y.task[e.t]) by {
      assert AllShaped(y);
      ShapeOf(y, e.t);
    }
    assert Moves(y, z, e.t, h);
    BalancedAfter(y, z, e.t, h);
    hide Balanced;
    FreeingKept(y, z, e.t);
  }

  lemma ShapeOf(y: System, t: nat)
    requires AllShaped(y) && t in y.task
    ensures Shaped(y, y.task[t])
  {
  }

  /** While the handles stay as they are, only the thread that moves needs looking at. */
  lemma OthersShaped(y: System, z: System, t: nat)
    requires AllShaped(y) && z.handle == y.handle && t in z.task && z.task == y.task[t := z.task[t]]
    requires Shaped(z, z.task[t])
    ensures AllShaped(z)
  {
    forall u | u in z.task
      ensures Shaped(z, z.task[u])
    {
      assert u != t ==> Shaped(y, y.task[u]);
    }
  }

  /** Nobody else's work is disturbed by a handle's being overwritten. */
  lemma StoreShaped(y: System, e: Step)
    requires Exclusive(y) && AllShaped(y) && CanStep(y, e) && e.Advance? && y.task[e.t].stage.Store?
    ensures AllShaped(Next(y, e))
  {
    var z := Next(y, e);
    forall u | u in z.task
      ensures Shaped(z, z.task[u])
    {
      assert Shaped(y, y.task[u]);
    }
  }

  lemma InvKept(y: System, e: Step)
    requires Inv(y) && CanStep(y, e)
    ensures Inv(Next(y, e))
  {
    if e.Start? {
      StartKept(y, e);
    } else {
      ShapeOf(y, e.t);
      hide Inv, Next, CanStep;
      var k := y.task[e.t];
      match k.stage
      case Ref => if k.job.Create? { CreateKept(y, e); } else { RefKept(y, e); }
      case Unref => UnrefKept(y, e);
      case Free(_) => FreeKept(y, e);
      case Store => StoreKept(y, e);
    }
  }

  lemma {:induction false} InvHolds(threads: set<nat>, es: seq<Step>)
    requires Run(threads, es).At?
    ensures Inv(Run(threads, es).y)
    decreases |es|
  {
    if es == [] {
      BirthIsSound(threads);
    } else {
      hide Inv, Next, CanStep;
      InvHolds(threads, es[..|es|-1]);
      InvKept(Run(threads, es[..|es|-1]).y, es[|es|-1]);
    }
  }

  lemma BirthIsSound(threads: set<nat>)
    ensures Inv(Birth(threads))
  {
    var y := Birth(threads);
    forall c: nat
      ensures Count(y, c) == Refs(y, c)
    {
      assert Held(y, c) == {} && Taken(y, c) == {};
    }
  }

  // ---------------------------------------------------------------- what holds of every run

  /**
    Each count equals the handles installed, plus the references taken and not yet stored, minus
    those released and not yet overwritten; and no step has touched a container not in memory.
   */
  lemma BooksBalance(threads: set<nat>, es: seq<Step>, c: nat)
    requires Run(threads, es).At?
    ensures var y := Run(threads, es).y;
            && !y.fault
            && (c in y.count ==> y.count[c] == |Installed(y, c)| + |Taken(y, c)| - |Released(y, c)|)
  {
    InvHolds(threads, es);
    var y := Run(threads, es).y;
    HeldIsTheRest(y, c);
    assert Count(y, c) == Refs(y, c);
  }

  /** No live handle dangles, and no reference taken does. */
  lemma NothingDangles(threads: set<nat>, es: seq<Step>)
    requires Run(threads, es).At?
    ensures var y := Run(threads, es).y;
            && (forall h :: h in y.handle && y.handle[h].To? && !LetGo(y, h) ==>
                  y.handle[h].c in y.count && y.count[y.handle[h].c] >= 1)
            && (forall t :: t in y.task && y.task[t].Busy? && y.task[t].taken.To? ==>
                  y.task[t].taken.c in y.count && y.count[y.task[t].taken.c] >= 1)
  {
    InvHolds(threads, es);
    var y := Run(threads, es).y;
    hide Run;
    forall h | h in y.handle && y.handle[h].To? && !LetGo(y, h)
      ensures y.handle[h].c in y.count && y.count[y.handle[h].c] >= 1
    {
      HeldIsAlive(y, h);
    }
    forall t | t in y.task && y.task[t].Busy? && y.task[t].taken.To?
      ensures y.task[t].taken.c in y.count && y.count[y.task[t].taken.c] >= 1
    {
      var c := y.task[t].taken.c;
      assert t in Taken(y, c);
      assert Count(y, c) == Refs(y, c);
    }
  }

  /** A container leaves memory once, when its count is zero, and it does so as soon as that is seen. */
  lemma FreedOnceAtZero(threads: set<nat>, es: seq<Step>, e: Step)
    requires Run(threads, es).At? && CanStep(Run(threads, es).y, e)
    ensures var y := Run(threads, es).y; var z := Next(y, e);
            && (forall i, j :: 0 <= i < j < |y.freed| ==> y.freed[i] != y.freed[j])
            && (forall c :: c in y.count && c !in z.count ==>
                  y.count[c] == 0 && Held(y, c) == {} && Taken(y, c) == {} && z.freed == y.freed + [c])
            && (forall c :: c in y.count && y.count[c] == 0 ==> exists t :: Frees(y, t, c))
  {
    InvHolds(threads, es);
    var y := Run(threads, es).y;
    hide Run;
    forall c | c in y.count && c !in Next(y, e).count
      ensures y.count[c] == 0 && Held(y, c) == {} && Taken(y, c) == {} && Next(y, e).freed == y.freed + [c]
    {
      assert Frees(y, e.t, c);
      assert Count(y, c) == Refs(y, c);
    }
  }

  /** When all threads are idle, the containers in memory are those that a handle points at. */
  lemma NothingLeaks(threads: set<nat>, es: seq<Step>, c: nat)
    requires Run(threads, es).At? && c < Run(threads, es).y.next
    requires forall t :: t in Run(threads, es).y.task ==> Run(threads, es).y.task[t].Idle?
    ensures var y := Run(threads, es).y;
            && (c in y.count <==> exists h :: h in y.handle && y.handle[h] == To(c))
            && (c in y.count <==> c !in y.freed)
  {
    InvHolds(threads, es);
    var y := Run(threads, es).y;
    hide Run;
    assert Count(y, c) == Refs(y, c);
    assert Taken(y, c) == {};
    forall h | h in y.handle && y.handle[h] == To(c)
      ensures h in Held(y, c)
    {
    }
    if c in y.count {
      var h :| h in Held(y, c);
    }
  }

  /** Assigning a handle to itself never brings its container's count to zero on the way. */
  lemma SelfAssignment(threads: set<nat>, es: seq<Step>, t: nat)
    requires Run(threads, es).At?
    requires var y := Run(threads, es).y;
             t in y.task && y.task[t].Busy? && y.task[t].job == Assign(y.task[t].dst) && y.task[t].stage.Unref?
    ensures var y := Run(threads, es).y;
            CanStep(y, Advance(t)) && Next(y, Advance(t)).task[t].stage.Store?
  {
    InvHolds(threads, es);
    var y := Run(threads, es).y;
    hide Run;
    assert Shaped(y, y.task[t]);
    var h := y.task[t].dst;
    if y.handle[h].To? {
      var c := y.handle[h].c;
      BusyIsAlone(y, t);
      LetGoAlone(y, t, h);
      assert h in Held(y, c) && t in Taken(y, c);
      assert Count(y, c) == Refs(y, c) >= 2;
    }
  }

  /** A thread with work to do can always go on, whatever the others have done. */
  lemma NobodyIsStuck(threads: set<nat>, es: seq<Step>, t: nat)
    requires Run(threads, es).At?
    requires t in Run(threads, es).y.task && Run(threads, es).y.task[t].Busy?
    ensures CanStep(Run(threads, es).y, Advance(t))
    ensures Run(threads, es).y.task[t] != Next(Run(threads, es).y, Advance(t)).task[t]
  {
    InvHolds(threads, es);
    var y := Run(threads, es).y;
    hide Run;
    assert Shaped(y, y.task[t]);
    assert y.task[t].stage.Free? ==> Frees(y, t, y.task[t].stage.c);
  }

  /** What a thread reads and writes is left alone by the others until it is done. */
  lemma OthersKeepOff(threads: set<nat>, es: seq<Step>, e: Step, t: nat)
    requires Run(threads, es).At? && CanStep(Run(threads, es).y, e) && e.t != t
    requires t in Run(threads, es).y.task && Run(threads, es).y.task[t].Busy?
    ensures var y := Run(threads, es).y; var z := Next(y, e); var k := y.task[t];
            && t in z.task && z.task[t] == k
            && (k.dst in z.handle <==> k.dst in y.handle)
            && (k.dst in y.handle ==> z.handle[k.dst] == y.handle[k.dst])
            && (k.job.Reads() ==>
                  k.job.src in y.handle && k.job.src in z.handle &&
                  z.handle[k.job.src] == y.handle[k.job.src])
            && (k.taken.To? ==> k.taken.c in z.count)
  {
    InvHolds(threads, es);
    var y := Run(threads, es).y;
    InvKept(y, e);
    ShapeOf(y, t);
    Untouched(y, e);
    hide Run, Balanced, Freeing, Next, CanStep;
    if y.task[t].taken.To? {
      TakenIsAlive(Next(y, e), t);
    }
  }

  /** A step changes no handle but the one its thread writes, and no task but its thread's. */
  lemma Untouched(y: System, e: Step)
    requires CanStep(y, e)
    ensures var z := Next(y, e);
            && e.t in y.task && (e.Advance? ==> y.task[e.t].Busy?)
            && (forall u :: u in y.task && u != e.t ==> u in z.task && z.task[u] == y.task[u])
            && forall h :: e.Start? || h != y.task[e.t].dst ==>
                 (h in z.handle <==> h in y.handle) && (h in y.handle ==> z.handle[h] == y.handle[h])
  {
  }

  lemma TakenIsAlive(y: System, t: nat)
    requires Inv(y) && t in y.task && y.task[t].Busy? && y.task[t].taken.To?
    ensures y.task[t].taken.c in y.count
  {
    var c := y.task[t].taken.c;
    assert t in Taken(y, c);
    assert Count(y, c) == Refs(y, c);
  }

  /** What becomes of the handle a job is about: made, shared, emptied or gone. */
  lemma JobEnds(threads: set<nat>, es: seq<Step>, t: nat)
    requires Run(threads, es).At?
    requires var y := Run(threads, es).y; t in y.task && y.task[t].Busy? && y.task[t].stage.Store?
    ensures var y := Run(threads, es).y; var k := y.task[t];
            && CanStep(y, Advance(t))
            && var z := Next(y, Advance(t));
               && z.task[t].Idle? && z.count == y.count
               && (k.dst in z.handle <==> k.job != Destroy)
               && (k.job == Create ==> z.handle[k.dst] == k.taken && k.taken.To?)
               && (k.job == Clear ==> z.handle[k.dst] == Null)
  {
    InvHolds(threads, es);
    hide Run, Balanced, Freeing;
    ShapeOf(Run(threads, es).y, t);
  }

  /** A copy or an assignment ends with both handles on the container the source had all along. */
  lemma BothShare(threads: set<nat>, es: seq<Step>, t: nat)
    requires Run(threads, es).At?
    requires var y := Run(threads, es).y;
             t in y.task && y.task[t].Busy? && y.task[t].stage.Store? && y.task[t].job.Reads()
    ensures var y := Run(threads, es).y; var k := y.task[t];
            && CanStep(y, Advance(t))
            && var z := Next(y, Advance(t));
               z.handle[k.dst] == z.handle[k.job.src] == k.taken && z.count == y.count
  {
    InvHolds(threads, es);
    var y := Run(threads, es).y;
    hide Run, Balanced, Freeing;
    ShapeOf(y, t);
  }
}
