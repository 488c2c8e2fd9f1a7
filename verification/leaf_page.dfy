/** The leaf node of the B+Tree index: a fixed slot area of (key, record locator) pairs
    kept in ascending key order, with a link to the right sibling leaf. */
module BPlusTreeLeafPage {
  import opened Config
  import opened KeyOrder

  /** The type tag stored in every index page header. */
  datatype IndexPageType = InvalidIndexPage | Leaf | Internal

  /** One slot of the leaf: a key and the record locator stored under it. */
  datatype Mapping<K, V> = Mapping(key: K, value: V)

  /** A leaf page. `slots` is the page's whole slot area (as many slots as fit in the
      page); only the first `size` slots hold entries, the others keep whatever bytes
      they last held. */
  datatype LeafPage<K, V> = LeafPage(
    pageType: IndexPageType,
    size: int,
    maxSize: int,
    pageId: PageId,
    parentId: PageId,
    nextPageId: PageId,
    slots: seq<Mapping<K, V>>)
  {
    /** The entry count fits in the slot area. */
    predicate Valid() {
      0 <= size <= |slots|
    }

    /** The entries of the page, in slot order. */
    function Items(): seq<Mapping<K, V>>
      requires Valid()
    {
      slots[..size]
    }
  }

  /** Keys strictly ascend along the sequence (so no key occurs twice). */
  ghost predicate SortedKeys<K, V>(s: seq<Mapping<K, V>>, cmp: (K, K) -> int) {
    forall i, j :: 0 <= i < j < |s| ==> cmp(s[i].key, s[j].key) < 0
  }

  /** The position of the first entry whose key is not less than `key`, found by a
      left-to-right scan; `|s|` when every key is less. */
  function LowerBound<K, V>(s: seq<Mapping<K, V>>, key: K, cmp: (K, K) -> int): (i: nat)
    ensures i <= |s|
    ensures forall j :: 0 <= j < i ==> cmp(s[j].key, key) < 0
    ensures i < |s| ==> cmp(s[i].key, key) >= 0
  {
    if |s| == 0 then 0
    else if cmp(s[0].key, key) >= 0 then 0
    else 1 + LowerBound(s[1..], key, cmp)
  }

  /** The value of the first entry whose key equals `key`, found by a left-to-right scan. */
  function Find<K, V>(s: seq<Mapping<K, V>>, key: K, cmp: (K, K) -> int): (r: Option<V>)
    ensures r.Some? ==> exists j :: 0 <= j < |s| && cmp(key, s[j].key) == 0 && s[j].value == r.value
    ensures r.None? ==> forall j :: 0 <= j < |s| ==> cmp(key, s[j].key) != 0
  {
    if |s| == 0 then None
    else if cmp(key, s[0].key) == 0 then Some(s[0].value)
    else Find(s[1..], key, cmp)
  }

  /** `i` splits the sequence where a binary search for `key` stops: the entry just before
      `i` (if any) is less than `key`, the entry at `i` (if any) is not. */
  ghost predicate SeparatesAt<K, V>(s: seq<Mapping<K, V>>, key: K, cmp: (K, K) -> int, i: int) {
    && 0 <= i <= |s|
    && (i == 0 || cmp(s[i - 1].key, key) < 0)
    && (i == |s| || cmp(s[i].key, key) >= 0)
  }

  /** `s` with `m` placed at position `i` and the entries from `i` on moved one place right. */
  function InsertAt<T>(s: seq<T>, i: nat, m: T): (r: seq<T>)
    requires i <= |s|
    ensures |r| == |s| + 1 && r[i] == m
    ensures forall j :: 0 <= j < i ==> r[j] == s[j]
    ensures forall j :: i < j <= |s| ==> r[j] == s[j - 1]
  {
    s[..i] + [m] + s[i..]
  }

  /** The slot area after the shift loop of `Insert` as the source writes it, with `n`
      entries and the pair `m` going to position `i`. When `i < n`, the entries at
      `i .. n-2` move one place right, the entry at `n-1` is overwritten, the pair lands at
      `i`, and slot `n` keeps its stale content. When `i == n` the loop does not run and
      the pair is written into slot `n`. */
  function ShiftedAsWritten<T>(a: seq<T>, n: nat, i: nat, m: T): (r: seq<T>)
    requires i <= n < |a|
    ensures |r| == |a| && r[i] == m
    ensures forall j :: 0 <= j < i ==> r[j] == a[j]
    ensures forall j :: i < j < n ==> r[j] == a[j - 1]
    ensures forall j :: n <= j < |a| && j != i ==> r[j] == a[j]
  {
    if i < n then a[..i] + [m] + a[i..n - 1] + a[n..]
    else a[..n] + [m] + a[n + 1..]
  }

  /* ------------------------------------------------------------------ */
  /* Header helpers                                                      */
  /* ------------------------------------------------------------------ */

  /** Initialises a freshly created page as an empty leaf; the slot area is untouched. */
  function Init<K, V>(
      p: LeafPage<K, V>, pageId: PageId, parentId: PageId, maxSize: int): (q: LeafPage<K, V>)
    ensures q.Valid() && q.Items() == []
    ensures q.pageType == Leaf && q.size == 0 && q.nextPageId == INVALID_PAGE_ID
    ensures q.pageId == pageId && q.parentId == parentId && q.maxSize == maxSize
    ensures q.slots == p.slots
  {
    p.(pageType := Leaf, size := 0, pageId := pageId, parentId := parentId,
       maxSize := maxSize, nextPageId := INVALID_PAGE_ID)
  }

  /** The sibling link, read without touching the entries. */
  function GetNextPageId<K, V>(p: LeafPage<K, V>): (r: PageId)
    ensures r == p.nextPageId
  {
    p.nextPageId
  }

  /** Replaces the sibling link and nothing else. */
  function SetNextPageId<K, V>(p: LeafPage<K, V>, nextPageId: PageId): (q: LeafPage<K, V>)
    ensures GetNextPageId(q) == nextPageId
    ensures q.(nextPageId := p.nextPageId) == p
  {
    p.(nextPageId := nextPageId)
  }

  /** The key stored in slot `index`; the source does no range check beyond the slot area. */
  function KeyAt<K, V>(p: LeafPage<K, V>, index: int): (k: K)
    requires 0 <= index < |p.slots|
    ensures p.Valid() && index < p.size ==> k == p.Items()[index].key
  {
    p.slots[index].key
  }

  /** The entry at `index`, which the source asserts is below the size. */
  function GetItem<K, V>(p: LeafPage<K, V>, index: int): (r: Mapping<K, V>)
    requires p.Valid() && 0 <= index < p.size
    ensures r == p.Items()[index]
    ensures r.key == KeyAt(p, index)
  {
    p.slots[index]
  }

  /* ------------------------------------------------------------------ */
  /* Search                                                              */
  /* ------------------------------------------------------------------ */

  /** Binary search for the first entry whose key is not less than `key`. On any entry
      sequence the result separates smaller from not-smaller neighbours; on a sorted one
      it is the lower bound. */
  method KeyIndex<K(!new), V>(p: LeafPage<K, V>, key: K, cmp: (K, K) -> int) returns (index: int)
    requires p.Valid()
    ensures SeparatesAt(p.Items(), key, cmp, index)
    ensures IsTotalPreorder(cmp) && SortedKeys(p.Items(), cmp) ==> index == LowerBound(p.Items(), key, cmp)
  {
    var l := 0;
    var r := p.size - 1;
    while l <= r
      invariant 0 <= l <= r + 1 <= p.size
      invariant l == 0 || cmp(KeyAt(p, l - 1), key) < 0
      invariant r + 1 == p.size || cmp(KeyAt(p, r + 1), key) >= 0
      decreases r - l
    {
      var mid := (r - l) / 2 + l;
      var cmpResult := cmp(KeyAt(p, mid), key);
      if cmpResult < 0 {
        l := mid + 1;
      } else if cmpResult >= 0 {
        r := mid - 1;
      }
    }
    index := r + 1;
    if IsTotalPreorder(cmp) && SortedKeys(p.Items(), cmp) {
      SeparationIsLowerBound(p.Items(), key, cmp, index);
    }
  }

  /** Exact-match lookup: a hit exactly when the binary search stops on an entry whose key
      compares equal, whose value is then returned. A hit is always a real entry with an
      equal key; on a sorted page the result is exactly the first-match scan, so a key is
      found iff it is present. */
  method Lookup<K(!new), V>(p: LeafPage<K, V>, key: K, cmp: (K, K) -> int) returns (r: Option<V>)
    requires p.Valid()
    ensures exists i ::
      && SeparatesAt(p.Items(), key, cmp, i)
      && r == (if i < p.size && cmp(key, KeyAt(p, i)) == 0 then Some(p.slots[i].value) else None)
    ensures r.Some? ==> exists j :: 0 <= j < p.size && cmp(key, KeyAt(p, j)) == 0 && p.slots[j].value == r.value
    ensures IsTotalPreorder(cmp) && SortedKeys(p.Items(), cmp) ==> r == Find(p.Items(), key, cmp)
  {
    var index := KeyIndex(p, key, cmp);
    if index >= p.size {
      r := None;
    } else if cmp(key, KeyAt(p, index)) != 0 {
      r := None;
    } else {
      r := Some(p.slots[index].value);
    }
    if IsTotalPreorder(cmp) && SortedKeys(p.Items(), cmp) {
      FindAtLowerBound(p.Items(), key, cmp);
    }
  }

  /* ------------------------------------------------------------------ */
  /* Insertion                                                           */
  /* ------------------------------------------------------------------ */

  /** The shift loop both insertions share: for `i` from `top` down to `from + 1`, slot `i`
      takes the content of slot `i - 1`. Slots up to `from` and above `top` are untouched. */
  method ShiftRight<T>(a: seq<T>, from: int, top: int) returns (b: seq<T>)
    requires 0 <= from < |a| && from - 1 <= top < |a|
    ensures |b| == |a|
    ensures forall j :: 0 <= j <= from ==> b[j] == a[j]
    ensures forall j :: from < j <= top ==> b[j] == a[j - 1]
    ensures forall j :: top < j < |a| ==> b[j] == a[j]
  {
    b := a;
    var i := top;
    while i > from
      invariant from - 1 <= i <= top && (from <= top ==> from <= i)
      invariant |b| == |a|
      invariant forall j :: 0 <= j <= i ==> b[j] == a[j]
      invariant forall j :: i < j <= top ==> b[j] == a[j - 1]
      invariant forall j :: top < j < |a| ==> b[j] == a[j]
      decreases i
    {
      b := b[i := b[i - 1]];
      i := i - 1;
    }
  }

  /** Insertion as the source writes it: the shift loop starts at the last entry rather
      than at the first free slot, so whenever the pair does not land at the end the old
      last entry is overwritten (see `InsertAsWrittenLosesLast`). The result is the new
      size, the pair sits where the binary search stopped, and the header is untouched. */
  method Insert<K(!new), V>(p: LeafPage<K, V>, key: K, value: V, cmp: (K, K) -> int)
    returns (q: LeafPage<K, V>, newSize: int)
    requires p.Valid() && p.size < |p.slots|
    ensures q.Valid() && newSize == q.size == p.size + 1
    ensures q.(size := p.size, slots := p.slots) == p
    ensures exists i ::
      && SeparatesAt(p.Items(), key, cmp, i)
      && q.slots == ShiftedAsWritten(p.slots, p.size, i, Mapping(key, value))
    ensures IsTotalPreorder(cmp) && SortedKeys(p.Items(), cmp) ==>
      q.slots == ShiftedAsWritten(p.slots, p.size, LowerBound(p.Items(), key, cmp), Mapping(key, value))
  {
    var index := KeyIndex(p, key, cmp);
    var arr := ShiftRight(p.slots, index, p.size - 1);
    arr := arr[index := Mapping(key, value)];
    ShiftedAsWrittenIs(p.slots, arr, p.size, index, Mapping(key, value));
    q := p.(size := p.size + 1, slots := arr);
    newSize := q.size;
  }

  /** Insertion with the shift loop starting at the first free slot, as the comment of the
      source's `Insert` describes it: every entry from the insertion point on moves one
      place right, so the entries become the old ones with the pair spliced in. */
  method InsertCorrected<K(!new), V>(p: LeafPage<K, V>, key: K, value: V, cmp: (K, K) -> int)
    returns (q: LeafPage<K, V>, newSize: int)
    requires p.Valid() && p.size < |p.slots|
    ensures q.Valid() && newSize == q.size == p.size + 1
    ensures q.(size := p.size, slots := p.slots) == p
    ensures q.slots[q.size..] == p.slots[q.size..]
    ensures multiset(q.Items()) == multiset(p.Items()) + multiset{Mapping(key, value)}
    ensures exists i ::
      SeparatesAt(p.Items(), key, cmp, i) && q.Items() == InsertAt(p.Items(), i, Mapping(key, value))
    ensures IsTotalPreorder(cmp) && SortedKeys(p.Items(), cmp) ==>
      q.Items() == InsertAt(p.Items(), LowerBound(p.Items(), key, cmp), Mapping(key, value))
    ensures IsTotalPreorder(cmp) && SortedKeys(p.Items(), cmp) && Find(p.Items(), key, cmp).None? ==>
      SortedKeys(q.Items(), cmp)
  {
    var index := KeyIndex(p, key, cmp);
    q := SpliceIn(p, index, Mapping(key, value));
    newSize := q.size;
    SpliceAtSeparation(p.Items(), key, value, cmp, index);
  }

  /** Shifts the entries from `index` on one slot right, from the first free slot down,
      and writes `m` at `index`: the entries become the old ones with `m` spliced in. */
  method SpliceIn<K, V>(p: LeafPage<K, V>, index: int, m: Mapping<K, V>) returns (q: LeafPage<K, V>)
    requires p.Valid() && p.size < |p.slots| && 0 <= index <= p.size
    ensures q.Valid() && q.size == p.size + 1
    ensures q.(size := p.size, slots := p.slots) == p
    ensures q.Items() == InsertAt(p.Items(), index, m)
    ensures q.slots[q.size..] == p.slots[q.size..]
  {
    var arr := ShiftRight(p.slots, index, p.size);
    arr := arr[index := m];
    ShiftedIsInsertAt(p.slots, arr, p.size, index, m);
    q := p.(size := p.size + 1, slots := arr);
  }

  /* ------------------------------------------------------------------ */
  /* Split                                                               */
  /* ------------------------------------------------------------------ */

  /** Overwrites slots `0 .. n-1` with the first `n` items, in order; the entry count,
      the header and every later slot are untouched. A non-positive `n` copies nothing. */
  method CopyNFrom<K, V>(
      p: LeafPage<K, V>, items: seq<Mapping<K, V>>, n: int) returns (q: LeafPage<K, V>)
    requires n <= |items| && n <= |p.slots|
    ensures q.(slots := p.slots) == p
    ensures n <= 0 ==> q == p
    ensures n >= 0 ==> q.slots == items[..n] + p.slots[n..]
  {
    var arr := p.slots;
    var i := 0;
    while i < n
      invariant 0 <= i && (n >= 0 ==> i <= n) && (n < 0 ==> i == 0)
      invariant |arr| == |p.slots|
      invariant forall j :: 0 <= j < i ==> arr[j] == items[j]
      invariant forall j :: i <= j < |arr| ==> arr[j] == p.slots[j]
      decreases n - i
    {
      arr := arr[i := items[i]];
      i := i + 1;
    }
    if n >= 0 {
      assert forall j :: 0 <= j < |arr| ==> arr[j] == (items[..n] + p.slots[n..])[j];
    }
    q := p.(slots := arr);
  }

  /** Splits a page: the upper half of its entries is copied into `recipient`, both sizes
      are set, and `recipient` is linked in as this page's right sibling. The left part
      keeps `size / 2` entries, the recipient the rest, so the recipient holds at least as
      many and at most one more; read in order the two parts give back the original
      entries. */
  method MoveHalfTo<K, V>(p: LeafPage<K, V>, recipient: LeafPage<K, V>)
    returns (left: LeafPage<K, V>, right: LeafPage<K, V>)
    requires p.Valid()
    requires p.size - p.size / 2 <= |recipient.slots|
    ensures left.Valid() && right.Valid()
    ensures left.size == p.size / 2 && left.size + right.size == p.size
    ensures left.size <= right.size <= left.size + 1
    ensures left.Items() + right.Items() == p.Items()
    ensures right.nextPageId == p.nextPageId && left.nextPageId == recipient.pageId
    ensures left == p.(size := left.size, nextPageId := left.nextPageId)
    ensures right.(size := recipient.size, nextPageId := recipient.nextPageId, slots := recipient.slots)
      == recipient
    ensures right.slots[right.size..] == recipient.slots[right.size..]
  {
    var halfSize := p.size / 2;
    right := CopyNFrom(recipient, p.slots[halfSize..], p.size - halfSize);
    right := right.(size := p.size - halfSize);
    left := p.(size := halfSize);
    right := SetNextPageId(right, GetNextPageId(left));
    left := SetNextPageId(left, right.pageId);
    assert right.Items() == p.slots[halfSize..p.size];
  }

  /* ------------------------------------------------------------------ */
  /* Lemmas                                                              */
  /* ------------------------------------------------------------------ */

  /** On a sorted sequence under a total order, the place a binary search stops is the
      lower bound. */
  lemma SeparationIsLowerBound<K(!new), V>(
      s: seq<Mapping<K, V>>, key: K, cmp: (K, K) -> int, i: int)
    requires IsTotalPreorder(cmp) && SortedKeys(s, cmp)
    requires SeparatesAt(s, key, cmp, i)
    ensures i == LowerBound(s, key, cmp)
  {
    var lb := LowerBound(s, key, cmp);
    if lb < i - 1 {
      LessThenAtMost(cmp, s[lb].key, s[i - 1].key, key);
    }
  }

  /** On a sorted sequence, the first-match scan finds `key` exactly when the lower bound
      holds an equal key, and then returns that entry's value. */
  lemma {:induction false} FindAtLowerBound<K(!new), V>(
      s: seq<Mapping<K, V>>, key: K, cmp: (K, K) -> int)
    requires IsTotalPreorder(cmp) && SortedKeys(s, cmp)
    ensures var i := LowerBound(s, key, cmp);
      Find(s, key, cmp) == (if i < |s| && cmp(key, s[i].key) == 0 then Some(s[i].value) else None)
  {
    if |s| == 0 {
    } else if cmp(s[0].key, key) >= 0 {
      if cmp(key, s[0].key) != 0 {
        forall j | 0 <= j < |s[1..]|
          ensures cmp(key, s[1..][j].key) != 0
        {
          if cmp(key, s[1..][j].key) == 0 {
            EqualSymmetric(cmp, key, s[j + 1].key);
            LessThenAtMost(cmp, s[0].key, s[j + 1].key, key);
          }
        }
        FindNone(s[1..], key, cmp);
      }
    } else {
      EqualSymmetric(cmp, key, s[0].key);
      FindAtLowerBound(s[1..], key, cmp);
    }
  }

  /** The scan finds nothing when no key is equal. */
  lemma {:induction false} FindNone<K, V>(s: seq<Mapping<K, V>>, key: K, cmp: (K, K) -> int)
    requires forall j :: 0 <= j < |s| ==> cmp(key, s[j].key) != 0
    ensures Find(s, key, cmp) == None
  {
    if |s| > 0 {
      assert forall j :: 0 <= j < |s[1..]| ==> s[1..][j] == s[j + 1];
      FindNone(s[1..], key, cmp);
    }
  }

  /** Slots shifted one place right from `i` to `n - 1`, with `m` written at `i`, are
      `ShiftedAsWritten`. */
  lemma ShiftedAsWrittenIs<T>(a: seq<T>, b: seq<T>, n: nat, i: nat, m: T)
    requires i <= n < |a| == |b|
    requires forall j :: 0 <= j < i ==> b[j] == a[j]
    requires b[i] == m
    requires forall j :: i < j <= n - 1 ==> b[j] == a[j - 1]
    requires forall j :: n - 1 < j < |b| && j != i ==> b[j] == a[j]
    ensures b == ShiftedAsWritten(a, n, i, m)
  {
    var e := ShiftedAsWritten(a, n, i, m);
    assert forall j :: 0 <= j < |b| ==> b[j] == e[j];
  }

  /** Slots shifted one place right from `i` to `n`, with `m` written at `i`, hold the
      first `n` entries with `m` spliced in at `i`, followed by the untouched tail. */
  lemma ShiftedIsInsertAt<T>(a: seq<T>, b: seq<T>, n: nat, i: nat, m: T)
    requires i <= n < |a| == |b|
    requires forall j :: 0 <= j < i ==> b[j] == a[j]
    requires b[i] == m
    requires forall j :: i < j <= n ==> b[j] == a[j - 1]
    requires forall j :: n < j < |b| ==> b[j] == a[j]
    ensures b[..n + 1] == InsertAt(a[..n], i, m)
    ensures b[n + 1..] == a[n + 1..]
  {
    assert forall j :: 0 <= j <= n ==> b[..n + 1][j] == InsertAt(a[..n], i, m)[j];
  }

  lemma InsertAtMultiset<T>(s: seq<T>, i: nat, m: T)
    requires i <= |s|
    ensures multiset(InsertAt(s, i, m)) == multiset(s) + multiset{m}
  {
    assert s == s[..i] + s[i..];
  }

  /** What splicing a pair in where the binary search stopped gives: one more copy of the
      pair, and on a sorted sequence without its key, a sorted sequence. */
  lemma SpliceAtSeparation<K(!new), V>(
      s: seq<Mapping<K, V>>, key: K, value: V, cmp: (K, K) -> int, i: int)
    requires SeparatesAt(s, key, cmp, i)
    ensures multiset(InsertAt(s, i, Mapping(key, value))) == multiset(s) + multiset{Mapping(key, value)}
    ensures IsTotalPreorder(cmp) && SortedKeys(s, cmp) ==> i == LowerBound(s, key, cmp)
    ensures IsTotalPreorder(cmp) && SortedKeys(s, cmp) && Find(s, key, cmp).None? ==>
      SortedKeys(InsertAt(s, i, Mapping(key, value)), cmp)
  {
    InsertAtMultiset(s, i, Mapping(key, value));
    if IsTotalPreorder(cmp) && SortedKeys(s, cmp) {
      SeparationIsLowerBound(s, key, cmp, i);
      if Find(s, key, cmp).None? {
        InsertAtLowerBoundSorted(s, key, value, cmp);
      }
    }
  }

  /** Splicing a new key in at its lower bound keeps a sorted sequence sorted. */
  lemma InsertAtLowerBoundSorted<K(!new), V>(
      s: seq<Mapping<K, V>>, key: K, value: V, cmp: (K, K) -> int)
    requires IsTotalPreorder(cmp) && SortedKeys(s, cmp) && Find(s, key, cmp).None?
    ensures SortedKeys(InsertAt(s, LowerBound(s, key, cmp), Mapping(key, value)), cmp)
  {
    var i := LowerBound(s, key, cmp);
    var r := InsertAt(s, i, Mapping(key, value));
    forall a, b | 0 <= a < b < |r|
      ensures cmp(r[a].key, r[b].key) < 0
    {
      if a < i && b == i {
      } else if a == i && b > i {
        assert cmp(key, s[b - 1].key) != 0;
        assert cmp(s[b - 1].key, key) >= 0;
        EqualSymmetric(cmp, key, s[b - 1].key);
      } else if a < i && b > i {
        LessThenAtMost(cmp, s[a].key, key, s[b - 1].key);
      }
    }
  }

  /** Splicing in an entry whose key is absent makes the scan find that entry, and leaves
      the scan for every key not equal to it unchanged, wherever the entry is placed. */
  lemma {:induction false} FindAfterInsertAt<K(!new), V>(
      s: seq<Mapping<K, V>>, i: nat, m: Mapping<K, V>, other: K, cmp: (K, K) -> int)
    requires i <= |s| && IsTotalPreorder(cmp) && Find(s, m.key, cmp).None?
    ensures Find(InsertAt(s, i, m), m.key, cmp) == Some(m.value)
    ensures cmp(other, m.key) != 0 ==> Find(InsertAt(s, i, m), other, cmp) == Find(s, other, cmp)
    decreases i
  {
    var r := InsertAt(s, i, m);
    if i == 0 {
      assert r[1..] == s;
    } else {
      assert r[1..] == InsertAt(s[1..], i - 1, m);
      FindAfterInsertAt(s[1..], i - 1, m, other, cmp);
    }
  }

  /** Any cut of a sorted sequence gives two sorted parts with every key of the left part
      below every key of the right part. */
  lemma SplitHalvesOrdered<K(!new), V>(
      left: seq<Mapping<K, V>>, right: seq<Mapping<K, V>>, cmp: (K, K) -> int)
    requires SortedKeys(left + right, cmp)
    ensures SortedKeys(left, cmp) && SortedKeys(right, cmp)
    ensures forall a, b :: 0 <= a < |left| && 0 <= b < |right| ==> cmp(left[a].key, right[b].key) < 0
  {
    var s := left + right;
    assert forall a :: 0 <= a < |left| ==> s[a] == left[a];
    assert forall b :: 0 <= b < |right| ==> s[|left| + b] == right[b];
  }

  /** A run of sibling leaves, left to right: every page's link names the next page of the
      run and the last page's link is the sentinel. */
  ghost predicate Linked<K, V>(chain: seq<LeafPage<K, V>>) {
    && (forall i :: 0 <= i < |chain| - 1 ==> chain[i].nextPageId == chain[i + 1].pageId)
    && (|chain| > 0 ==> chain[|chain| - 1].nextPageId == INVALID_PAGE_ID)
  }

  ghost predicate AllValid<K, V>(chain: seq<LeafPage<K, V>>) {
    forall i :: 0 <= i < |chain| ==> chain[i].Valid()
  }

  /** The entries of a run of leaves, read left to right. */
  ghost function ChainItems<K, V>(chain: seq<LeafPage<K, V>>): seq<Mapping<K, V>>
    requires AllValid(chain)
  {
    if |chain| == 0 then [] else chain[0].Items() + ChainItems(chain[1..])
  }

  lemma {:induction false} ChainItemsAppend<K, V>(a: seq<LeafPage<K, V>>, b: seq<LeafPage<K, V>>)
    requires AllValid(a) && AllValid(b)
    ensures AllValid(a + b) && ChainItems(a + b) == ChainItems(a) + ChainItems(b)
  {
    if |a| > 0 {
      assert (a + b)[1..] == a[1..] + b;
      ChainItemsAppend(a[1..], b);
    } else {
      assert a + b == b;
    }
  }

  /** Replacing one leaf of a linked run by the two halves `MoveHalfTo` produces keeps the
      run linked and keeps its entries, in order. */
  lemma SplitKeepsChain<K, V>(
      chain: seq<LeafPage<K, V>>, j: nat, left: LeafPage<K, V>, right: LeafPage<K, V>)
    requires AllValid(chain) && Linked(chain) && j < |chain|
    requires left.Valid() && right.Valid()
    requires left.Items() + right.Items() == chain[j].Items()
    requires left.pageId == chain[j].pageId
    requires left.nextPageId == right.pageId && right.nextPageId == chain[j].nextPageId
    ensures var c := chain[..j] + [left, right] + chain[j + 1..];
      AllValid(c) && Linked(c) && ChainItems(c) == ChainItems(chain)
  {
    SplitKeepsItems(chain, j, left, right);
    SplitKeepsLinks(chain, j, left, right);
  }

  lemma SplitKeepsItems<K, V>(
      chain: seq<LeafPage<K, V>>, j: nat, left: LeafPage<K, V>, right: LeafPage<K, V>)
    requires AllValid(chain) && j < |chain|
    requires left.Valid() && right.Valid()
    requires left.Items() + right.Items() == chain[j].Items()
    ensures var c := chain[..j] + [left, right] + chain[j + 1..];
      AllValid(c) && ChainItems(c) == ChainItems(chain)
  {
    assert chain == chain[..j] + [chain[j]] + chain[j + 1..];
    ChainItemsAppend(chain[..j], [left, right]);
    ChainItemsAppend(chain[..j] + [left, right], chain[j + 1..]);
    ChainItemsAppend(chain[..j], [chain[j]]);
    ChainItemsAppend(chain[..j] + [chain[j]], chain[j + 1..]);
    assert ChainItems([left, right]) == left.Items() + right.Items() by {
      assert [left, right][1..] == [right];
      assert [right][1..] == [];
    }
    assert ChainItems([chain[j]]) == chain[j].Items() by {
      assert [chain[j]][1..] == [];
    }
  }

  lemma SplitKeepsLinks<K, V>(
      chain: seq<LeafPage<K, V>>, j: nat, left: LeafPage<K, V>, right: LeafPage<K, V>)
    requires Linked(chain) && j < |chain|
    requires left.pageId == chain[j].pageId
    requires left.nextPageId == right.pageId && right.nextPageId == chain[j].nextPageId
    ensures Linked(chain[..j] + [left, right] + chain[j + 1..])
  {
    var c := chain[..j] + [left, right] + chain[j + 1..];
    forall i | 0 <= i < |c| - 1
      ensures c[i].nextPageId == c[i + 1].pageId
    {
      if i < j - 1 {
        assert c[i] == chain[i] && c[i + 1] == chain[i + 1];
      } else if i == j - 1 {
        assert c[i] == chain[j - 1] && c[i + 1] == left;
      } else if i == j {
      } else if i == j + 1 {
        assert c[i] == right && c[i + 1] == chain[j + 1];
      } else {
        assert c[i] == chain[i - 1] && c[i + 1] == chain[i];
      }
    }
  }

  /** The as-written insertion appends the pair when its key exceeds every key of the
      page, which then stays sorted. */
  lemma InsertAsWrittenAppends<K(!new), V>(
      a: seq<Mapping<K, V>>, n: nat, key: K, value: V, cmp: (K, K) -> int)
    requires n < |a| && IsTotalPreorder(cmp) && SortedKeys(a[..n], cmp)
    requires LowerBound(a[..n], key, cmp) == n
    ensures ShiftedAsWritten(a, n, n, Mapping(key, value))[..n + 1] == a[..n] + [Mapping(key, value)]
    ensures SortedKeys(ShiftedAsWritten(a, n, n, Mapping(key, value))[..n + 1], cmp)
  {
    var r := ShiftedAsWritten(a, n, n, Mapping(key, value));
    assert r[..n + 1] == a[..n] + [Mapping(key, value)];
    assert forall j :: 0 <= j < n ==> cmp(a[..n][j].key, key) < 0;
  }

  /** The as-written insertion loses the old last entry when the pair does not land at the
      end, slot `n` does not already hold a copy of that entry, and the pair is not that
      entry: it is then neither among the earlier entries nor the new pair, and slot `n`
      keeps its stale content. */
  lemma InsertAsWrittenLosesLast<K(!new), V>(
      a: seq<Mapping<K, V>>, n: nat, i: nat, m: Mapping<K, V>, cmp: (K, K) -> int)
    requires i < n < |a| && IsTotalPreorder(cmp) && SortedKeys(a[..n], cmp)
    requires m != a[n - 1] && a[n] != a[n - 1]
    ensures a[n - 1] !in ShiftedAsWritten(a, n, i, m)[..n + 1]
    ensures multiset(ShiftedAsWritten(a, n, i, m)[..n + 1]) != multiset(a[..n]) + multiset{m}
  {
    var r := ShiftedAsWritten(a, n, i, m)[..n + 1];
    forall j | 0 <= j < n - 1
      ensures a[j] != a[n - 1]
    {
      assert cmp(a[..n][j].key, a[..n][n - 1].key) < 0;
    }
    assert a[n - 1] in multiset(a[..n]) + multiset{m} by {
      assert a[..n][n - 1] == a[n - 1];
    }
  }

  /** The other side of `InsertAsWrittenLosesLast`: when slot `n` already holds a copy of
      the last entry, the as-written shift happens to produce the splice. */
  lemma InsertAsWrittenWithCopyAtEnd<T>(a: seq<T>, n: nat, i: nat, m: T)
    requires i < n < |a| && a[n] == a[n - 1]
    ensures ShiftedAsWritten(a, n, i, m)[..n + 1] == InsertAt(a[..n], i, m)
  {
    var r := ShiftedAsWritten(a, n, i, m);
    assert forall j :: 0 <= j <= n ==> r[..n + 1][j] == InsertAt(a[..n], i, m)[j];
  }

  /** A concrete page where the as-written insertion drops an entry: keys 1 and 3 with a
      stale 9 in the free slot; inserting key 2 leaves keys 1, 2, 9, so key 3 is gone
      while the corrected splice keeps 1, 2, 3. */
  lemma InsertAsWrittenExample()
    ensures var a := [Mapping(1, 10), Mapping(3, 30), Mapping(9, 90)];
      var i := LowerBound(a[..2], 2, IntCompare);
      && i == 1
      && ShiftedAsWritten(a, 2, i, Mapping(2, 20))[..3] == [Mapping(1, 10), Mapping(2, 20), Mapping(9, 90)]
      && Find(ShiftedAsWritten(a, 2, i, Mapping(2, 20))[..3], 3, IntCompare) == None
      && Find(a[..2], 3, IntCompare) == Some(30)
      && InsertAt(a[..2], i, Mapping(2, 20)) == [Mapping(1, 10), Mapping(2, 20), Mapping(3, 30)]
  {
    var a := [Mapping(1, 10), Mapping(3, 30), Mapping(9, 90)];
    assert a[..2] == [Mapping(1, 10), Mapping(3, 30)];
    assert a[..2][1..] == [Mapping(3, 30)];
  }

  /** An initialised leaf holds no entries: every lookup misses and every search stops at 0. */
  lemma InitPageIsEmpty<K, V>(
      p: LeafPage<K, V>, pageId: PageId, parentId: PageId, maxSize: int, key: K,
      cmp: (K, K) -> int)
    ensures var q := Init(p, pageId, parentId, maxSize);
      LowerBound(q.Items(), key, cmp) == 0 && Find(q.Items(), key, cmp) == None
  {
  }

  /** Setting the sibling link to the value just read changes nothing; reading it back
      after setting gives the value set. */
  lemma NextPageIdRoundTrip<K, V>(p: LeafPage<K, V>, id: PageId)
    ensures GetNextPageId(SetNextPageId(p, id)) == id
    ensures SetNextPageId(p, GetNextPageId(p)) == p
  {
  }
}
