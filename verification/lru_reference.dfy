/** An independent description of least-recently-unpinned replacement, and the proof that
    the list-based replacer implements it. The reference remembers, for each evictable
    frame, the logical time at which it became evictable; the victim is the frame with the
    oldest time. */
module LruReference {
  import opened Config
  import opened LruReplacer

  /** `stamps` maps each evictable frame to the time it became evictable; `clock` is the
      next time to hand out; `capacity` bounds the number of evictable frames. */
  datatype LruSpec = LruSpec(capacity: nat, stamps: map<FrameId, nat>, clock: nat)

  function SpecCreate(capacity: nat): LruSpec {
    LruSpec(capacity, map[], 0)
  }

  /** A frame becomes evictable now, unless it already is or the tracker is full. */
  function SpecUnpin(a: LruSpec, f: FrameId): LruSpec {
    if f in a.stamps || |a.stamps| == a.capacity then a
    else a.(stamps := a.stamps[f := a.clock], clock := a.clock + 1)
  }

  /** A frame stops being evictable. */
  function SpecRemove(a: LruSpec, f: FrameId): LruSpec {
    a.(stamps := a.stamps - {f})
  }

  /** `f` is the evictable frame that became evictable before every other one. */
  ghost predicate IsLeastRecent(stamps: map<FrameId, nat>, f: FrameId) {
    && f in stamps
    && forall g :: g in stamps && g != f ==> stamps[f] < stamps[g]
  }

  /** The list holds the evictable frames newest first. */
  ghost predicate NewestFirst(list: seq<FrameId>, stamps: map<FrameId, nat>) {
    && (forall i :: 0 <= i < |list| ==> list[i] in stamps)
    && (forall i, j :: 0 <= i < j < |list| ==> stamps[list[i]] > stamps[list[j]])
  }

  /** The replacer state `s` represents the reference state `a`. */
  ghost predicate Refines(s: Replacer, a: LruSpec) {
    && s.numPages == a.capacity
    && s.frameTable == a.stamps.Keys
    && Elements(s.freeList) == a.stamps.Keys
    && NewestFirst(s.freeList, a.stamps)
    && (forall g :: g in a.stamps ==> a.stamps[g] < a.clock)
    && |s.freeList| <= s.numPages
  }

  /** The abstraction implies the replacer's own invariant and equal sizes. */
  lemma RefinesValid(s: Replacer, a: LruSpec)
    requires Refines(s, a)
    ensures s.Valid()
    ensures Size(s) == |a.stamps|
  {
    assert Distinct(s.freeList) by {
      forall i, j | 0 <= i < j < |s.freeList|
        ensures s.freeList[i] != s.freeList[j]
      {
        assert a.stamps[s.freeList[i]] > a.stamps[s.freeList[j]];
      }
    }
    DistinctCard(s.freeList);
    assert |a.stamps| == |a.stamps.Keys|;
  }

  lemma CreateRefines(numPages: nat)
    ensures Refines(Create(numPages), SpecCreate(numPages))
  {
  }

  /** Unpin on the replacer matches unpin on the reference. */
  lemma UnpinRefines(s: Replacer, a: LruSpec, f: FrameId)
    requires Refines(s, a)
    ensures Refines(Unpin(s, f), SpecUnpin(a, f))
  {
    RefinesValid(s, a);
    if f in s.frameTable {
      assert f in a.stamps;
    } else if |s.freeList| == s.numPages {
      assert |a.stamps| == a.capacity;
    } else {
      UnpinFreshRefines(s, a, f);
      assert Unpin(s, f) == s.(freeList := [f] + s.freeList, frameTable := s.frameTable + {f});
    }
  }

  /** The case of `UnpinRefines` where the frame is new and the tracker not full: the
      frame goes to the front of the list and gets the current time. */
  lemma UnpinFreshRefines(s: Replacer, a: LruSpec, f: FrameId)
    requires Refines(s, a) && |s.freeList| == |a.stamps|
    requires f !in s.frameTable && |s.freeList| != s.numPages
    ensures Refines(s.(freeList := [f] + s.freeList, frameTable := s.frameTable + {f}),
                    a.(stamps := a.stamps[f := a.clock], clock := a.clock + 1))
  {
    PrependElements(s.freeList, f);
    StampKeys(a.stamps, f, a.clock);
    PrependNewest(s.freeList, a.stamps, f, a.clock);
    StampsBelowClock(a.stamps, f, a.clock, a.stamps[f := a.clock]);
  }

  lemma PrependElements(list: seq<FrameId>, f: FrameId)
    ensures Elements([f] + list) == Elements(list) + {f}
  {
  }

  lemma StampKeys(stamps: map<FrameId, nat>, f: FrameId, clock: nat)
    ensures stamps[f := clock].Keys == stamps.Keys + {f}
  {
  }

  lemma StampsBelowClock(stamps: map<FrameId, nat>, f: FrameId, clock: nat, t: map<FrameId, nat>)
    requires forall g :: g in stamps ==> stamps[g] < clock
    requires t == stamps[f := clock]
    ensures forall g :: g in t ==> t[g] < clock + 1
  {
  }

  /** A frame stamped later than every tracked frame goes to the front of a newest-first
      list. */
  lemma PrependNewest(list: seq<FrameId>, stamps: map<FrameId, nat>, f: FrameId, clock: nat)
    requires NewestFirst(list, stamps) && f !in stamps
    requires forall g :: g in stamps ==> stamps[g] < clock
    ensures NewestFirst([f] + list, stamps[f := clock])
  {
    var r := [f] + list;
    var t := stamps[f := clock];
    forall i | 0 <= i < |r|
      ensures r[i] in t
    {
      if i > 0 {
        assert r[i] == list[i - 1];
      }
    }
    forall i, j | 0 <= i < j < |r|
      ensures t[r[i]] > t[r[j]]
    {
      assert r[j] == list[j - 1] && list[j - 1] in stamps && list[j - 1] != f;
      if i > 0 {
        assert r[i] == list[i - 1] && list[i - 1] != f;
      }
    }
  }

  /** Pin on the replacer matches removal on the reference. */
  lemma PinRefines(s: Replacer, a: LruSpec, f: FrameId)
    requires Refines(s, a)
    ensures Refines(Pin(s, f), SpecRemove(a, f))
  {
    RefinesValid(s, a);
    if f in s.frameTable {
      WithoutDistinct(s.freeList, f);
      WithoutNewestFirst(s.freeList, a.stamps, f);
      NewestFirstSmaller(Without(s.freeList, f), a.stamps, f);
    } else {
      assert a.stamps - {f} == a.stamps;
    }
  }

  /** Victim on the replacer fails exactly when the reference has no evictable frame, and
      otherwise returns the least recent frame and matches its removal. */
  lemma VictimRefines(s: Replacer, a: LruSpec)
    requires Refines(s, a)
    ensures Victim(s).1.None? <==> |a.stamps| == 0
    ensures Victim(s).1.Some? ==>
      IsLeastRecent(a.stamps, Victim(s).1.value) && Refines(Victim(s).0, SpecRemove(a, Victim(s).1.value))
  {
    RefinesValid(s, a);
    var n := |s.freeList|;
    if n > 0 {
      var f := s.freeList[n - 1];
      var list := s.freeList[..n - 1];
      BackIsLeastRecent(s.freeList, a.stamps);
      DropBack(s.freeList, a.stamps);
      NewestFirstPrefix(s.freeList, a.stamps);
      NewestFirstSmaller(list, a.stamps, f);
      assert Victim(s) == (s.(freeList := list, frameTable := s.frameTable - {f}), Some(f));
    } else {
      assert |a.stamps.Keys| == 0;
    }
  }

  /** The back of a newest-first list holding every tracked frame is the least recent. */
  lemma BackIsLeastRecent(list: seq<FrameId>, stamps: map<FrameId, nat>)
    requires NewestFirst(list, stamps) && Elements(list) == stamps.Keys && |list| > 0
    ensures IsLeastRecent(stamps, list[|list| - 1])
  {
    var n := |list|;
    forall g | g in stamps && g != list[n - 1]
      ensures stamps[list[n - 1]] < stamps[g]
    {
      assert g in Elements(list);
      var i :| 0 <= i < n && list[i] == g;
    }
  }

  /** Dropping the back of a newest-first list removes exactly that frame from its set. */
  lemma DropBack(list: seq<FrameId>, stamps: map<FrameId, nat>)
    requires NewestFirst(list, stamps) && |list| > 0
    ensures list[|list| - 1] !in list[..|list| - 1]
    ensures Elements(list[..|list| - 1]) == Elements(list) - {list[|list| - 1]}
  {
    var n := |list|;
    assert list == list[..n - 1] + [list[n - 1]];
    forall i | 0 <= i < n - 1
      ensures list[i] != list[n - 1]
    {
      assert stamps[list[i]] > stamps[list[n - 1]];
    }
  }

  lemma NewestFirstPrefix(list: seq<FrameId>, stamps: map<FrameId, nat>)
    requires NewestFirst(list, stamps) && |list| > 0
    ensures NewestFirst(list[..|list| - 1], stamps)
  {
  }

  /** Removing a frame keeps a newest-first list newest first. */
  lemma {:induction false} WithoutNewestFirst(
      list: seq<FrameId>, stamps: map<FrameId, nat>, f: FrameId)
    requires NewestFirst(list, stamps)
    ensures NewestFirst(Without(list, f), stamps)
  {
    if |list| > 0 {
      WithoutNewestFirst(list[1..], stamps, f);
      var w := Without(list[1..], f);
      if list[0] != f {
        var r := [list[0]] + w;
        forall j | 0 < j < |r|
          ensures stamps[r[0]] > stamps[r[j]]
        {
          assert r[j] == w[j - 1];
          assert w[j - 1] in list[1..];
          var k :| 0 <= k < |list[1..]| && list[1..][k] == w[j - 1];
          assert list[k + 1] == w[j - 1];
        }
        forall i, j | 0 <= i < j < |r|
          ensures stamps[r[i]] > stamps[r[j]]
        {
          if i > 0 {
            assert r[i] == w[i - 1] && r[j] == w[j - 1];
          }
        }
      }
    }
  }

  /** A newest-first list that avoids `f` stays newest first once `f` leaves the map. */
  lemma NewestFirstSmaller(list: seq<FrameId>, stamps: map<FrameId, nat>, f: FrameId)
    requires NewestFirst(list, stamps) && f !in list
    ensures NewestFirst(list, stamps - {f})
  {
    forall i | 0 <= i < |list|
      ensures list[i] in stamps - {f}
    {
      assert list[i] != f;
    }
  }

  /** The sequence of calls Unpin(1), Unpin(2), Unpin(3), Pin(2) leaves frames 3 and 1
      evictable; the victims are then 1, then 3, and then there is none. */
  lemma LruExample()
    ensures var s := Pin(Unpin(Unpin(Unpin(Create(7), 1), 2), 3), 2);
      && s.freeList == [3, 1]
      && Victim(s).1 == Some(1)
      && Victim(Victim(s).0).1 == Some(3)
      && Victim(Victim(Victim(s).0).0).1 == None
  {
    ExampleUnpinSteps();
    ExamplePinStep();
    ExampleVictimSteps();
  }

  lemma ExampleUnpinSteps()
    ensures Unpin(Create(7), 1) == Replacer(7, [1], {1})
    ensures Unpin(Replacer(7, [1], {1}), 2) == Replacer(7, [2, 1], {1, 2})
    ensures Unpin(Replacer(7, [2, 1], {1, 2}), 3) == Replacer(7, [3, 2, 1], {1, 2, 3})
  {
    assert {} + {1} == {1};
    assert {1} + {2} == {1, 2};
    assert {1, 2} + {3} == {1, 2, 3};
  }

  lemma ExamplePinStep()
    ensures Pin(Replacer(7, [3, 2, 1], {1, 2, 3}), 2) == Replacer(7, [3, 1], {1, 3})
  {
    assert Without([3, 2, 1], 2) == [3, 1] by {
      assert [3, 2, 1][1..] == [2, 1];
      assert [2, 1][1..] == [1];
      assert [1][1..] == [];
    }
    assert {1, 2, 3} - {2} == {1, 3};
  }

  lemma ExampleVictimSteps()
    ensures Victim(Replacer(7, [3, 1], {1, 3})) == (Replacer(7, [3], {3}), Some(1))
    ensures Victim(Replacer(7, [3], {3})) == (Replacer(7, [], {}), Some(3))
    ensures Victim(Replacer(7, [], {})).1 == None
  {
    assert [3, 1][..1] == [3];
    assert {1, 3} - {1} == {3};
    assert [3][..0] == [];
    assert {3} - {3} == {};
  }
}
