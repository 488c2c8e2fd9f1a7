/** The LRU replacer: tracks the frames that may be evicted and picks as victim the one
    that was unpinned longest ago. */
module LruReplacer {
  import opened Config

  /** Replacer state. `freeList` holds the evictable frames, most recently unpinned at the
      front; `frameTable` is the set of frames the id-to-position index has an entry for;
      `numPages` bounds how many frames may be tracked. */
  datatype Replacer = Replacer(numPages: nat, freeList: seq<FrameId>, frameTable: set<FrameId>)
  {
    /** No frame is listed twice, the index covers exactly the listed frames, and the
        list never exceeds its bound. */
    ghost predicate Valid() {
      && Distinct(freeList)
      && frameTable == Elements(freeList)
      && |freeList| <= numPages
    }
  }

  ghost predicate Distinct(s: seq<FrameId>) {
    forall i, j :: 0 <= i < j < |s| ==> s[i] != s[j]
  }

  ghost function Elements(s: seq<FrameId>): set<FrameId> {
    set f | f in s
  }

  /** `s` with every occurrence of `f` removed, the other frames in their order. */
  function Without(s: seq<FrameId>, f: FrameId): (r: seq<FrameId>)
    ensures forall g :: g in r <==> g in s && g != f
    ensures |r| <= |s|
  {
    if |s| == 0 then []
    else if s[0] == f then Without(s[1..], f)
    else [s[0]] + Without(s[1..], f)
  }

  /** A new replacer tracks no frame. */
  function Create(numPages: nat): (r: Replacer)
    ensures r.Valid() && Size(r) == 0 && r.numPages == numPages
  {
    Replacer(numPages, [], {})
  }

  /** Evicts the frame at the back of the list, the one unpinned longest ago. On an empty
      replacer nothing is chosen and nothing changes. */
  function Victim(s: Replacer): (r: (Replacer, Option<FrameId>))
    ensures |s.freeList| == 0 ==> r == (s, None)
    ensures |s.freeList| > 0 ==>
      && r.1 == Some(s.freeList[|s.freeList| - 1])
      && r.0.freeList + [r.1.value] == s.freeList
      && r.0.frameTable == s.frameTable - {r.1.value}
      && r.0.numPages == s.numPages
    ensures s.Valid() ==> r.0.Valid()
    ensures s.Valid() && r.1.Some? ==> r.1.value in s.frameTable && r.1.value !in r.0.frameTable
  {
    if |s.freeList| == 0 then (s, None)
    else
      var f := s.freeList[|s.freeList| - 1];
      (s.(freeList := s.freeList[..|s.freeList| - 1], frameTable := s.frameTable - {f}), Some(f))
  }

  /** Stops tracking a frame that is about to be used. An untracked frame is ignored; a
      tracked one leaves both the list and the index, the others keeping their order. */
  function Pin(s: Replacer, f: FrameId): (r: Replacer)
    ensures f !in s.frameTable ==> r == s
    ensures r.numPages == s.numPages
    ensures s.Valid() ==> r.Valid()
    ensures s.Valid() && f in s.frameTable ==>
      && f !in r.frameTable
      && r.frameTable == s.frameTable - {f}
      && Size(r) == Size(s) - 1
  {
    if f !in s.frameTable then s
    else
      WithoutKeepsValid(s, f);
      s.(freeList := Without(s.freeList, f), frameTable := s.frameTable - {f})
  }

  /** Starts tracking a frame as the most recently unpinned. A frame already tracked is
      left where it is (its recency is not refreshed), and a full replacer ignores the
      call, so the bound is never exceeded. */
  function Unpin(s: Replacer, f: FrameId): (r: Replacer)
    ensures f in s.frameTable ==> r == s
    ensures f !in s.frameTable && |s.freeList| == s.numPages ==> r == s
    ensures f !in s.frameTable && |s.freeList| != s.numPages ==>
      r.freeList == [f] + s.freeList && r.frameTable == s.frameTable + {f} && r.numPages == s.numPages
    ensures s.Valid() ==> r.Valid() && Size(r) <= s.numPages
  {
    if f in s.frameTable then s
    else if |s.freeList| == s.numPages then s
    else s.(freeList := [f] + s.freeList, frameTable := s.frameTable + {f})
  }

  /** The number of evictable frames: on a valid replacer, the number of indexed frames,
      never above the bound. */
  function Size(s: Replacer): (n: nat)
    ensures s.Valid() ==> n == |s.frameTable| && n <= s.numPages
  {
    ValidListMatchesIndex(s);
    |s.freeList|
  }

  /* ------------------------------------------------------------------ */
  /* Lemmas                                                              */
  /* ------------------------------------------------------------------ */

  lemma ValidListMatchesIndex(s: Replacer)
    ensures s.Valid() ==> |s.freeList| == |s.frameTable|
  {
    if s.Valid() {
      DistinctCard(s.freeList);
    }
  }

  lemma WithoutKeepsValid(s: Replacer, f: FrameId)
    ensures s.Valid() ==>
      && Distinct(Without(s.freeList, f))
      && Elements(Without(s.freeList, f)) == s.frameTable - {f}
      && (f in s.frameTable ==> |Without(s.freeList, f)| == |s.freeList| - 1)
  {
    if s.Valid() {
      WithoutDistinct(s.freeList, f);
    }
  }

  /** A list without repetitions has as many elements as its set of elements. */
  lemma {:induction false} DistinctCard(s: seq<FrameId>)
    requires Distinct(s)
    ensures |Elements(s)| == |s|
  {
    if |s| > 0 {
      DistinctCard(s[1..]);
      assert Elements(s) == Elements(s[1..]) + {s[0]};
      assert s[0] !in Elements(s[1..]);
    }
  }

  /** Removing a frame from a list without repetitions removes exactly one element when the
      frame is present, and keeps the list free of repetitions. */
  lemma {:induction false} WithoutDistinct(s: seq<FrameId>, f: FrameId)
    requires Distinct(s)
    ensures Distinct(Without(s, f))
    ensures Elements(Without(s, f)) == Elements(s) - {f}
    ensures f in s ==> |Without(s, f)| == |s| - 1
    ensures f !in s ==> Without(s, f) == s
  {
    if |s| > 0 {
      WithoutDistinct(s[1..], f);
      var w := Without(s[1..], f);
      if s[0] != f {
        assert s[0] !in w;
        assert forall j :: 0 < j < |[s[0]] + w| ==> ([s[0]] + w)[j] == w[j - 1];
      }
      if f !in s {
        assert s == [s[0]] + s[1..];
      }
    }
  }
}
