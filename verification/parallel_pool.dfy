/** The parallel buffer pool manager: a fixed set of independent buffer pool instances,
    each owning the page ids congruent to its index; page-keyed calls are routed to the
    owner and new pages are requested from the instances in round-robin order. The
    instances themselves (frames, page table, replacer, disk I/O) are not part of this
    model: each is an abstract state `S`, and what it answers is given by an oracle. */
module ParallelBufferPoolManager {
  import opened Config

  /** One buffer pool instance: the arguments it was constructed with and its state. */
  datatype Instance<S> = Instance(poolSize: nat, numInstances: nat, instanceIndex: nat, state: S)

  /** A page-keyed call forwarded to an instance, with the caller's arguments. */
  datatype Request =
    | FetchPage(pageId: PageId)
    | UnpinPage(pageId: PageId, isDirty: bool)
    | FlushPage(pageId: PageId)
    | DeletePage(pageId: PageId)

  /** The manager: `instances[i]` was built as instance `i` of `numInstances`, each with
      `poolSize` frames; `nextBufferIndex` is where the next allocation starts. */
  datatype ParallelPool<S> = ParallelPool(
    numInstances: nat,
    poolSize: nat,
    instances: seq<Instance<S>>,
    nextBufferIndex: nat)
  {
    predicate Valid() {
      && |instances| == numInstances
      && (forall i :: 0 <= i < |instances| ==>
            && instances[i].instanceIndex == i
            && instances[i].numInstances == numInstances
            && instances[i].poolSize == poolSize)
      && (if numInstances == 0 then nextBufferIndex == 0 else nextBufferIndex < numInstances)
    }
  }

  /** Builds `numInstances` instances; instance `i` gets index `i`, the shared count and
      the pool size, and starts in state `initial`. Allocation starts at instance 0. */
  function Create<S>(numInstances: nat, poolSize: nat, initial: S): (p: ParallelPool<S>)
    ensures p.Valid() && p.numInstances == numInstances && p.nextBufferIndex == 0
    ensures forall i :: 0 <= i < numInstances ==> p.instances[i] == Instance(poolSize, numInstances, i, initial)
  {
    var instances := seq(numInstances, (i: nat) => Instance(poolSize, numInstances, i, initial));
    ParallelPool(numInstances, poolSize, instances, 0)
  }

  /** The sum of the instances' pool sizes. */
  function TotalPoolSize<S>(instances: seq<Instance<S>>): nat {
    if |instances| == 0 then 0
    else TotalPoolSize(instances[..|instances| - 1]) + instances[|instances| - 1].poolSize
  }

  /** The width of `size_t`, the type of the instance count, the pool sizes and their sum. */
  const SIZE_T_MODULUS: int := 0x1_0000_0000_0000_0000

  /** A page id converted to `size_t`, as the usual arithmetic conversions do before the
      remainder by `num_instances_` is taken (taking that member to be a `size_t`, like the
      constructor parameter it is initialised from): non-negative ids keep their value,
      negative ones wrap around. */
  function AsSizeT(x: PageId): (u: nat)
    ensures u < SIZE_T_MODULUS
    ensures 0 <= x < SIZE_T_MODULUS ==> u == x
    ensures -SIZE_T_MODULUS <= x < 0 ==> u == x + SIZE_T_MODULUS
  {
    WrapSmall(x, SIZE_T_MODULUS);
    x % SIZE_T_MODULUS
  }

  /** The total number of frames: the `size_t` sum of the instances' pool sizes, which
      for a valid manager is the instance count times the per-instance pool size. */
  method GetPoolSize<S>(p: ParallelPool<S>) returns (total: nat)
    ensures total == TotalPoolSize(p.instances) % SIZE_T_MODULUS
    ensures p.Valid() ==> total == (p.numInstances * p.poolSize) % SIZE_T_MODULUS
  {
    total := 0;
    var i := 0;
    while i < |p.instances|
      invariant 0 <= i <= |p.instances|
      invariant total == TotalPoolSize(p.instances[..i]) % SIZE_T_MODULUS
    {
      assert p.instances[..i + 1][..i] == p.instances[..i];
      AddMod(TotalPoolSize(p.instances[..i]), p.instances[i].poolSize, SIZE_T_MODULUS);
      total := (total + p.instances[i].poolSize) % SIZE_T_MODULUS;
      i := i + 1;
    }
    assert p.instances[..i] == p.instances;
    if p.Valid() {
      UniformTotal(p.instances, p.poolSize);
    }
  }

  /** The instance owning a page: the one whose index is congruent to the page id, taken
      as a `size_t`. */
  function GetBufferPoolManager<S>(p: ParallelPool<S>, pageId: PageId): (k: nat)
    requires p.Valid() && p.numInstances > 0
    ensures k < |p.instances| && p.instances[k].instanceIndex == k
    ensures (AsSizeT(pageId) - k) % p.numInstances == 0
  {
    ModCongruent(AsSizeT(pageId), p.numInstances);
    AsSizeT(pageId) % p.numInstances
  }

  /** Instance `k` alone answered `req`: its state is the one the oracle returned, every
      other instance and the allocation cursor are unchanged, and `result` is the
      oracle's answer, unmodified. */
  ghost predicate ServedOnlyBy<S, R>(
      p: ParallelPool<S>, q: ParallelPool<S>, k: nat, req: Request,
      serve: (Instance<S>, Request) -> (S, R), result: R)
    requires k < |p.instances|
  {
    && q.numInstances == p.numInstances && q.poolSize == p.poolSize
    && q.nextBufferIndex == p.nextBufferIndex
    && |q.instances| == |p.instances|
    && q.instances[k] == p.instances[k].(state := serve(p.instances[k], req).0)
    && (forall j :: 0 <= j < |p.instances| && j != k ==> q.instances[j] == p.instances[j])
    && result == serve(p.instances[k], req).1
  }

  /** Hands a request to the owner of its page id. */
  function Forward<S, R>(
      p: ParallelPool<S>, req: Request, serve: (Instance<S>, Request) -> (S, R)): (r: (ParallelPool<S>, R))
    requires p.Valid() && p.numInstances > 0
    ensures r.0.Valid()
    ensures ServedOnlyBy(p, r.0, GetBufferPoolManager(p, req.pageId), req, serve, r.1)
  {
    var k := GetBufferPoolManager(p, req.pageId);
    var (s, result) := serve(p.instances[k], req);
    (p.(instances := p.instances[k := p.instances[k].(state := s)]), result)
  }

  function FetchPgImp<S, R>(
      p: ParallelPool<S>, pageId: PageId, serve: (Instance<S>, Request) -> (S, R)): (r: (ParallelPool<S>, R))
    requires p.Valid() && p.numInstances > 0
    ensures r.0.Valid()
    ensures ServedOnlyBy(p, r.0, GetBufferPoolManager(p, pageId), FetchPage(pageId), serve, r.1)
  {
    Forward(p, FetchPage(pageId), serve)
  }

  function UnpinPgImp<S, R>(
      p: ParallelPool<S>, pageId: PageId, isDirty: bool, serve: (Instance<S>, Request) -> (S, R))
    : (r: (ParallelPool<S>, R))
    requires p.Valid() && p.numInstances > 0
    ensures r.0.Valid()
    ensures ServedOnlyBy(p, r.0, GetBufferPoolManager(p, pageId), UnpinPage(pageId, isDirty), serve, r.1)
  {
    Forward(p, UnpinPage(pageId, isDirty), serve)
  }

  function FlushPgImp<S, R>(
      p: ParallelPool<S>, pageId: PageId, serve: (Instance<S>, Request) -> (S, R)): (r: (ParallelPool<S>, R))
    requires p.Valid() && p.numInstances > 0
    ensures r.0.Valid()
    ensures ServedOnlyBy(p, r.0, GetBufferPoolManager(p, pageId), FlushPage(pageId), serve, r.1)
  {
    Forward(p, FlushPage(pageId), serve)
  }

  function DeletePgImp<S, R>(
      p: ParallelPool<S>, pageId: PageId, serve: (Instance<S>, Request) -> (S, R)): (r: (ParallelPool<S>, R))
    requires p.Valid() && p.numInstances > 0
    ensures r.0.Valid()
    ensures ServedOnlyBy(p, r.0, GetBufferPoolManager(p, pageId), DeletePage(pageId), serve, r.1)
  {
    Forward(p, DeletePage(pageId), serve)
  }

  /* ------------------------------------------------------------------ */
  /* Round-robin allocation                                              */
  /* ------------------------------------------------------------------ */

  /** The instance tried at attempt `t` of an allocation that starts at `start`. */
  function Slot(start: nat, t: nat, n: nat): (s: nat)
    requires n > 0
    ensures s < n
  {
    (start + t) % n
  }

  /** What instance `Slot(start, t, n)` answers to a new-page request, from its state before
      the allocation began. */
  function Attempt<S, P>(
      p: ParallelPool<S>, newPage: Instance<S> -> (S, Option<P>), t: nat): (S, Option<P>)
    requires p.Valid() && p.numInstances > 0
  {
    newPage(p.instances[Slot(p.nextBufferIndex, t, p.numInstances)])
  }

  /** The first attempt, from `t` on, at which an instance succeeds; `numInstances` if
      none does. */
  ghost function FirstSuccess<S, P>(
      p: ParallelPool<S>, newPage: Instance<S> -> (S, Option<P>), t: nat): (k: nat)
    requires p.Valid() && p.numInstances > 0 && t <= p.numInstances
    ensures t <= k <= p.numInstances
    ensures forall u :: t <= u < k ==> Attempt(p, newPage, u).1.None?
    ensures k < p.numInstances ==> Attempt(p, newPage, k).1.Some?
    decreases p.numInstances - t
  {
    if t == p.numInstances then t
    else if Attempt(p, newPage, t).1.Some? then t
    else FirstSuccess(p, newPage, t + 1)
  }

  /** `attempts` are the first `|attempts|` slots from `start`, in order. */
  ghost predicate CyclicFrom(start: nat, n: nat, attempts: seq<nat>)
    requires n > 0
  {
    forall t :: 0 <= t < |attempts| ==> attempts[t] == Slot(start, t, n)
  }

  /** `instances` is `p.instances` after each instance in `attempts` has answered one
      new-page request, the others untouched. */
  ghost predicate AnsweredOnce<S, P>(
      p: ParallelPool<S>, newPage: Instance<S> -> (S, Option<P>), instances: seq<Instance<S>>,
      attempts: seq<nat>)
  {
    && |instances| == |p.instances|
    && (forall t :: 0 <= t < |attempts| && attempts[t] < |p.instances| ==>
          instances[attempts[t]] == p.instances[attempts[t]].(state := newPage(p.instances[attempts[t]]).0))
    && (forall j :: 0 <= j < |p.instances| && j !in attempts ==> instances[j] == p.instances[j])
  }

  /** Allocates a page on the first instance, in cyclic order from the cursor, that can
      provide one. Each instance is asked at most once; the cursor moves one place per
      attempt, so it ends just past the successful instance, or back where it started
      when every instance fails. `attempts` lists the instances asked, in order. */
  method NewPgImp<S, P>(p: ParallelPool<S>, newPage: Instance<S> -> (S, Option<P>))
    returns (q: ParallelPool<S>, page: Option<P>, ghost attempts: seq<nat>)
    requires p.Valid() && p.numInstances > 0
    ensures q.Valid() && q.numInstances == p.numInstances && q.poolSize == p.poolSize
    ensures var k := FirstSuccess(p, newPage, 0);
      && (page.Some? <==> k < p.numInstances)
      && (k < p.numInstances ==>
            && page == Attempt(p, newPage, k).1
            && q.nextBufferIndex == Slot(p.nextBufferIndex, k + 1, p.numInstances)
            && |attempts| == k + 1)
      && (k == p.numInstances ==> q.nextBufferIndex == p.nextBufferIndex && |attempts| == p.numInstances)
    ensures q.nextBufferIndex == CursorAfter(p, newPage)
    ensures CyclicFrom(p.nextBufferIndex, p.numInstances, attempts)
    ensures forall t, u :: 0 <= t < u < |attempts| ==> attempts[t] != attempts[u]
    ensures AnsweredOnce(p, newPage, q.instances, attempts)
  {
    var n := p.numInstances;
    var startPos := p.nextBufferIndex;
    var cursor := startPos;
    var instances := p.instances;
    attempts := [];
    while true
      invariant |attempts| < n
      invariant cursor == Slot(startPos, |attempts|, n)
      invariant CyclicFrom(startPos, n, attempts)
      invariant forall t :: 0 <= t < |attempts| ==> Attempt(p, newPage, t).1.None?
      invariant AnsweredOnce(p, newPage, instances, attempts)
      decreases n - |attempts|
    {
      AllocationStep(p, newPage, instances, attempts, cursor);
      var (s, result) := newPage(instances[cursor]);
      instances := instances[cursor := instances[cursor].(state := s)];
      attempts := attempts + [cursor];
      cursor := (cursor + 1) % n;
      if result.Some? {
        AllocationExit(p, newPage, instances, attempts, cursor, result);
        q := p.(instances := instances, nextBufferIndex := cursor);
        page := result;
        return;
      }
      if cursor == startPos {
        break;
      }
    }
    AllocationExit(p, newPage, instances, attempts, cursor, None);
    q := p.(instances := instances, nextBufferIndex := cursor);
    page := None;
  }

  /** Allocation with the cursor bumped once per call, as the round-robin scheme intends:
      the instances are tried exactly as in `NewPgImp`, with the same outcome, and the
      next call starts one instance further on, so with two or more instances it starts
      somewhere else. */
  method NewPgImpRotating<S, P>(p: ParallelPool<S>, newPage: Instance<S> -> (S, Option<P>))
    returns (q: ParallelPool<S>, page: Option<P>, ghost attempts: seq<nat>)
    requires p.Valid() && p.numInstances > 0
    ensures q.Valid() && q.numInstances == p.numInstances && q.poolSize == p.poolSize
    ensures var k := FirstSuccess(p, newPage, 0);
      && (page.Some? <==> k < p.numInstances)
      && (k < p.numInstances ==> page == Attempt(p, newPage, k).1 && |attempts| == k + 1)
      && (k == p.numInstances ==> |attempts| == p.numInstances)
    ensures q.nextBufferIndex == Slot(p.nextBufferIndex, 1, p.numInstances)
    ensures p.numInstances > 1 ==> q.nextBufferIndex != p.nextBufferIndex
    ensures CyclicFrom(p.nextBufferIndex, p.numInstances, attempts)
    ensures forall t, u :: 0 <= t < u < |attempts| ==> attempts[t] != attempts[u]
    ensures AnsweredOnce(p, newPage, q.instances, attempts)
  {
    var tried;
    tried, page, attempts := NewPgImp(p, newPage);
    q := tried.(nextBufferIndex := (p.nextBufferIndex + 1) % p.numInstances);
    if p.numInstances > 1 {
      SlotReturns(p.nextBufferIndex, 1, p.numInstances);
    }
  }

  /** Where the next allocation starts after `NewPgImp` as written: one past the instance
      that allocated, or back at the start when none did. */
  ghost function CursorAfter<S, P>(
      p: ParallelPool<S>, newPage: Instance<S> -> (S, Option<P>)): (c: nat)
    requires p.Valid() && p.numInstances > 0
    ensures c < p.numInstances
  {
    var k := FirstSuccess(p, newPage, 0);
    if k < p.numInstances then Slot(p.nextBufferIndex, k + 1, p.numInstances) else p.nextBufferIndex
  }

  /** As written, the cursor only moves past the instance that answered, so it is back
      where it started exactly when the last instance tried is the first to allocate, or
      none does; the next call then starts at the same instance again. */
  lemma CursorStaysAsWritten<S, P>(p: ParallelPool<S>, newPage: Instance<S> -> (S, Option<P>))
    requires p.Valid() && p.numInstances > 0
    ensures CursorAfter(p, newPage) == p.nextBufferIndex <==> FirstSuccess(p, newPage, 0) >= p.numInstances - 1
  {
    var k := FirstSuccess(p, newPage, 0);
    if k < p.numInstances {
      SlotReturns(p.nextBufferIndex, k + 1, p.numInstances);
    }
  }

  /** A new-page oracle under which instance 0 is full and every other instance allocates
      page 7. */
  function FullAtZero(inst: Instance<int>): (int, Option<PageId>) {
    (inst.state, if inst.instanceIndex == 0 then None else Some(7))
  }

  /** Two instances, the cursor at 0, instance 0 full: as written the call allocates at
      instance 1 and leaves the cursor at 0, so the next call starts at instance 0 again;
      the rotating variant moves it to 1. */
  lemma CursorStaysExample()
    ensures var p := Create(2, 1, 0);
      && FirstSuccess(p, FullAtZero, 0) == 1
      && Attempt(p, FullAtZero, 1).1 == Some(7)
      && CursorAfter(p, FullAtZero) == 0
      && Slot(p.nextBufferIndex, 1, p.numInstances) == 1
  {
  }

  /* ------------------------------------------------------------------ */
  /* Lemmas                                                              */
  /* ------------------------------------------------------------------ */

  /** The owner of a page is the one instance whose index is congruent to the page id:
      together with the contract of `GetBufferPoolManager`, routing is exactly
      congruence. */
  lemma RoutesToCongruentInstance<S>(p: ParallelPool<S>, pageId: PageId, i: nat)
    requires p.Valid() && p.numInstances > 0 && i < p.numInstances
    requires (AsSizeT(pageId) - i) % p.numInstances == 0
    ensures GetBufferPoolManager(p, pageId) == i
  {
    CongruentSmallEqual(AsSizeT(pageId), i, GetBufferPoolManager(p, pageId), p.numInstances);
  }

  /** Every page id congruent to `i` modulo the instance count, `i`, `i + n`, `i + 2n`,
      ..., routes to instance `i`. */
  lemma CongruentIdsRouteHome<S>(p: ParallelPool<S>, i: nat, t: nat)
    requires p.Valid() && p.numInstances > 0 && i < p.numInstances
    requires i + t * p.numInstances < SIZE_T_MODULUS
    ensures GetBufferPoolManager(p, i + t * p.numInstances) == i
  {
    MultipleMod(t, p.numInstances);
    RoutesToCongruentInstance(p, i + t * p.numInstances, i);
  }

  lemma {:induction false} UniformTotal<S>(instances: seq<Instance<S>>, poolSize: nat)
    requires forall i :: 0 <= i < |instances| ==> instances[i].poolSize == poolSize
    ensures TotalPoolSize(instances) == |instances| * poolSize
  {
    if |instances| > 0 {
      UniformTotal(instances[..|instances| - 1], poolSize);
    }
  }

  lemma ModCongruent(x: int, n: int)
    requires x >= 0 && n > 0
    ensures (x - x % n) % n == 0
  {
    DivModUnique(x - x % n, n, x / n, 0);
  }

  lemma MultipleMod(q: int, n: int)
    requires n > 0
    ensures (q * n) % n == 0
  {
    DivModUnique(q * n, n, q, 0);
  }

  /** Reducing the first summand first does not change the remainder of a sum. */
  lemma AddMod(a: int, b: int, m: int)
    requires m > 0
    ensures (a % m + b) % m == (a + b) % m
  {
    var c := (a % m + b) / m;
    assert a % m + b == c * m + (a % m + b) % m;
    assert a == (a / m) * m + a % m;
    assert (a / m + c) * m == (a / m) * m + c * m;
    DivModUnique(a + b, m, a / m + c, (a % m + b) % m);
  }

  lemma WrapSmall(x: int, m: int)
    requires m > 0
    ensures 0 <= x < m ==> x % m == x
    ensures -m <= x < 0 ==> x % m == x + m
  {
    if 0 <= x < m {
      DivModUnique(x, m, 0, x);
    } else if -m <= x < 0 {
      DivModUnique(x, m, -1, x + m);
    }
  }

  /** Two residues below `n` that are both congruent to `x` are equal. */
  lemma CongruentSmallEqual(x: int, i: int, k: int, n: int)
    requires n > 0 && 0 <= i < n && 0 <= k < n
    requires (x - i) % n == 0 && (x - k) % n == 0
    ensures i == k
  {
    DivModUnique(x, n, (x - i) / n, i);
    DivModUnique(x, n, (x - k) / n, k);
  }

  /** Euclidean division is determined by its defining equation. */
  lemma DivModUnique(x: int, n: int, d: int, r: int)
    requires n > 0 && 0 <= r < n && x == d * n + r
    ensures x / n == d && x % n == r
  {
    var e := d - x / n;
    assert e * n == d * n - (x / n) * n;
    MulAwayFromZero(e, n);
  }

  lemma MulAwayFromZero(e: int, n: int)
    requires n > 0
    ensures e >= 1 ==> e * n >= n
    ensures e <= -1 ==> e * n <= -n
  {
    if e >= 1 {
      assert e * n == (e - 1) * n + n;
      assert (e - 1) * n >= 0;
    } else if e <= -1 {
      assert e * n == (e + 1) * n - n;
      assert (e + 1) * n <= 0;
    }
  }

  lemma ModOfSmall(x: int, n: int)
    requires n > 0 && 0 <= x < 2 * n
    ensures x % n == (if x < n then x else x - n)
  {
    if x < n {
      DivModUnique(x, n, 0, x);
    } else {
      DivModUnique(x, n, 1, x - n);
    }
  }

  /** Moving the cursor one place is the next slot. */
  lemma SlotStep(start: nat, t: nat, n: nat)
    requires n > 0 && start < n && t < n
    ensures Slot(start, t + 1, n) == (Slot(start, t, n) + 1) % n
  {
    ModOfSmall(start + t, n);
    ModOfSmall(start + t + 1, n);
    ModOfSmall(Slot(start, t, n) + 1, n);
  }

  /** The cursor is back at the start after `t` steps exactly when `t == n`. */
  lemma SlotReturns(start: nat, t: nat, n: nat)
    requires n > 0 && start < n && 0 < t <= n
    ensures Slot(start, t, n) == start <==> t == n
  {
    ModOfSmall(start + t, n);
  }

  /** The slot of attempt `t < n` differs from the slots of all earlier attempts. */
  lemma SlotsDistinct(start: nat, t: nat, n: nat)
    requires n > 0 && start < n && t < n
    ensures forall u :: 0 <= u < t ==> Slot(start, u, n) != Slot(start, t, n)
  {
    ModOfSmall(start + t, n);
    forall u | 0 <= u < t
      ensures Slot(start, u, n) != Slot(start, t, n)
    {
      ModOfSmall(start + u, n);
    }
  }

  lemma SlotsAllDistinct(start: nat, attempts: seq<nat>, n: nat)
    requires n > 0 && start < n && |attempts| <= n
    requires forall t :: 0 <= t < |attempts| ==> attempts[t] == Slot(start, t, n)
    ensures forall t, u :: 0 <= t < u < |attempts| ==> attempts[t] != attempts[u]
  {
    forall t, u | 0 <= t < u < |attempts|
      ensures attempts[t] != attempts[u]
    {
      SlotsDistinct(start, u, n);
    }
  }

  /** One turn of the allocation loop: the instance under the cursor has not been asked
      yet, so it answers as `Attempt` says; asking it extends the attempts by one slot,
      and the advanced cursor is back at the start exactly when all `n` were asked. */
  lemma AllocationStep<S, P>(
      p: ParallelPool<S>, newPage: Instance<S> -> (S, Option<P>), instances: seq<Instance<S>>,
      attempts: seq<nat>, cursor: nat)
    requires p.Valid() && p.numInstances > 0 && |attempts| < p.numInstances
    requires CyclicFrom(p.nextBufferIndex, p.numInstances, attempts)
    requires cursor == Slot(p.nextBufferIndex, |attempts|, p.numInstances)
    requires AnsweredOnce(p, newPage, instances, attempts)
    ensures cursor < |instances| && newPage(instances[cursor]) == Attempt(p, newPage, |attempts|)
    ensures CyclicFrom(p.nextBufferIndex, p.numInstances, attempts + [cursor])
    ensures AnsweredOnce(p, newPage,
      instances[cursor := instances[cursor].(state := newPage(instances[cursor]).0)], attempts + [cursor])
    ensures (cursor + 1) % p.numInstances == Slot(p.nextBufferIndex, |attempts| + 1, p.numInstances)
    ensures (cursor + 1) % p.numInstances == p.nextBufferIndex <==> |attempts| + 1 == p.numInstances
  {
    var n := p.numInstances;
    SlotsDistinct(p.nextBufferIndex, |attempts|, n);
    assert cursor !in attempts;
    AnswerStep(p, newPage, instances, attempts, cursor);
    SlotStep(p.nextBufferIndex, |attempts|, n);
    SlotReturns(p.nextBufferIndex, |attempts| + 1, n);
  }

  /** The state in which the allocation loop exits establishes the contract of
      `NewPgImp`: after a success at the last attempt, or after `n` failures. */
  lemma AllocationExit<S, P>(
      p: ParallelPool<S>, newPage: Instance<S> -> (S, Option<P>), instances: seq<Instance<S>>,
      attempts: seq<nat>, cursor: nat, page: Option<P>)
    requires p.Valid() && p.numInstances > 0
    requires 0 < |attempts| <= p.numInstances
    requires CyclicFrom(p.nextBufferIndex, p.numInstances, attempts)
    requires cursor == Slot(p.nextBufferIndex, |attempts|, p.numInstances)
    requires forall t :: 0 <= t < |attempts| - 1 ==> Attempt(p, newPage, t).1.None?
    requires page == Attempt(p, newPage, |attempts| - 1).1
    requires page.None? ==> |attempts| == p.numInstances
    requires AnsweredOnce(p, newPage, instances, attempts)
    ensures p.(instances := instances, nextBufferIndex := cursor).Valid()
    ensures var k := FirstSuccess(p, newPage, 0);
      && (page.Some? <==> k < p.numInstances)
      && (k < p.numInstances ==>
            && page == Attempt(p, newPage, k).1
            && cursor == Slot(p.nextBufferIndex, k + 1, p.numInstances)
            && |attempts| == k + 1)
      && (k == p.numInstances ==> cursor == p.nextBufferIndex && |attempts| == p.numInstances)
    ensures CyclicFrom(p.nextBufferIndex, p.numInstances, attempts)
    ensures forall t, u :: 0 <= t < u < |attempts| ==> attempts[t] != attempts[u]
    ensures AnsweredOnce(p, newPage, instances, attempts)
  {
    var n := p.numInstances;
    if page.Some? {
      FirstSuccessIs(p, newPage, |attempts| - 1);
    } else {
      FirstSuccessIs(p, newPage, n);
      SlotReturns(p.nextBufferIndex, n, n);
    }
    SlotsAllDistinct(p.nextBufferIndex, attempts, n);
    AnsweredKeepsValid(p, newPage, instances, attempts);
  }

  /** When attempts `0 .. k-1` fail and attempt `k` succeeds (or `k == n`), `k` is the
      first success. */
  lemma FirstSuccessIs<S, P>(p: ParallelPool<S>, newPage: Instance<S> -> (S, Option<P>), k: nat)
    requires p.Valid() && p.numInstances > 0 && k <= p.numInstances
    requires forall t :: 0 <= t < k ==> Attempt(p, newPage, t).1.None?
    requires k < p.numInstances ==> Attempt(p, newPage, k).1.Some?
    ensures FirstSuccess(p, newPage, 0) == k
  {
  }

  /** Answering at a fresh slot extends `AnsweredOnce` by that slot. */
  lemma AnswerStep<S, P>(
      p: ParallelPool<S>, newPage: Instance<S> -> (S, Option<P>), instances: seq<Instance<S>>,
      attempts: seq<nat>, cursor: nat)
    requires AnsweredOnce(p, newPage, instances, attempts)
    requires cursor < |p.instances| && cursor !in attempts
    ensures AnsweredOnce(p, newPage,
      instances[cursor := instances[cursor].(state := newPage(instances[cursor]).0)], attempts + [cursor])
  {
    var next := instances[cursor := instances[cursor].(state := newPage(instances[cursor]).0)];
    var tried := attempts + [cursor];
    forall t | 0 <= t < |tried| && tried[t] < |p.instances|
      ensures next[tried[t]] == p.instances[tried[t]].(state := newPage(p.instances[tried[t]]).0)
    {
      if t < |attempts| {
        assert tried[t] == attempts[t] != cursor;
      }
    }
  }

  /** Answering requests changes only instance states, so the structure stays valid. */
  lemma AnsweredKeepsValid<S, P>(
      p: ParallelPool<S>, newPage: Instance<S> -> (S, Option<P>), instances: seq<Instance<S>>,
      attempts: seq<nat>)
    requires p.Valid() && AnsweredOnce(p, newPage, instances, attempts)
    ensures p.(instances := instances).Valid()
  {
    forall i | 0 <= i < |instances|
      ensures && instances[i].instanceIndex == i
              && instances[i].numInstances == p.numInstances
              && instances[i].poolSize == p.poolSize
    {
      if i in attempts {
        var t :| 0 <= t < |attempts| && attempts[t] == i;
      }
    }
  }
}
