/** The in-place merge of parsed configuration objects. */
module ConfigHeap {
  import opened ConfigValues
  import opened ConfigLayout

  /** What a merge may write: the existing graph, and the new one only if its arrays repeat names, as then new elements
      are merged into new ones. */
  ghost function Touched(te: Layout, tn: Layout): set<object> {
    Foot(te) + if WellFormed(Denote(tn)) then {} else Foot(tn)
  }

  /** What becomes of an existing and a new node: a slice or map stays where it is if it takes in another one; anything
      else gives way to the new node, which is linked. */
  function Survivor(existing: Node, newer: Node): Node {
    if (existing.List? && newer.List?) || (existing.Table? && newer.Table?) then existing else newer
  }

  // ----- The merge -----

  /** Merges `newer` into `existing` in place. Whole subgraphs of `newer` may be linked into the result, but never
      twice. */
  method MergeObjects(existing: Node, newer: Node, ghost te: Layout, ghost tn: Layout)
    returns (r: Node, ghost tr: Layout)
    requires Represents(existing, te) && Represents(newer, tn)
    requires Foot(te) !! Foot(tn) && Mergeable(Denote(te), Denote(tn))
    modifies Touched(te, tn)
    ensures Represents(r, tr)
    ensures Denote(tr) == Merge(Denote(te), Denote(tn))
    ensures Foot(tr) <= Foot(te) + Foot(tn)
    ensures r == Survivor(existing, newer)
    // A new map is taken apart, not linked, and not written itself.
    ensures newer.Table? ==> newer.dict.fields == old(newer.dict.fields)
    ensures newer.Table? && existing.Table? ==> newer.dict !in Foot(tr)
    decreases tn, 2, 0
  {
    if existing.List? && newer.List? {
      tr := MergeArrays(existing.slice, newer.slice, te, tn);
      r := existing;
    } else if existing.Table? && newer.Table? {
      tr := MergeMaps(existing.dict, newer.dict, te, tn);
      r := existing;
    } else {
      r, tr := newer, tn;
    }
  }

  // ----- The array branch -----

  /** Every map among `cur` lies inside `owned`, except namesakes of the elements merged so far. */
  ghost predicate Settled(cur: seq<Layout>, owned: set<object>, done: seq<Value>) {
    forall j :: 0 <= j < |cur| && Denote(cur[j]).Obj? ==> Foot(cur[j]) <= owned || HasMatch(done, Denote(cur[j]))
  }

  /** The state of the array merge after `i` new elements, apart from the heap. */
  ghost predicate Progress(te: Layout, tn: Layout, cur: seq<Layout>, i: nat)
    requires te.ListAt? && tn.ListAt?
  {
    i <= |tn.items|
    && Unshared(ListAt(te.slice, cur))
    && DenoteItems(cur) == MergeItems(DenoteItems(te.items), DenoteItems(tn.items)[..i])
    && Foot(ListAt(te.slice, cur)) <= Foot(te) + FootItems(tn.items[..i])
    && Settled(cur, Foot(te), DenoteItems(tn.items)[..i])
  }

  /** The new elements from `i` on are untouched. */
  ghost predicate RestStored(tn: Layout, i: nat)
    requires tn.ListAt?
    reads Foot(tn)
  {
    FootChildren(tn);
    |tn.slice.items| == |tn.items|
    && forall l :: i <= l < |tn.items| ==> tn.slice.items[l] == Root(tn.items[l]) && Stored(tn.items[l])
  }

  method MergeArrays(dst: Slice, src: Slice, ghost te: Layout, ghost tn: Layout)
    returns (ghost tr: Layout)
    requires te.ListAt? && tn.ListAt?
    requires Represents(List(dst), te) && Represents(List(src), tn)
    requires Foot(te) !! Foot(tn) && Mergeable(Denote(te), Denote(tn))
    modifies Touched(te, tn)
    ensures tr.ListAt? && Root(tr) == List(dst) && Stored(tr) && Unshared(tr)
    ensures Denote(tr) == Merge(Denote(te), Denote(tn))
    ensures Foot(tr) <= Foot(te) + Foot(tn)
    decreases tn, 1, 0
  {
    ghost var cur := te.items;
    ProgressStart(te, tn);
    RestAtStart(tn);
    hide *;
    var i := 0;
    while i < |src.items|
      invariant 0 <= i <= |tn.items| && Progress(te, tn, cur, i)
      invariant RestStored(tn, i) && Stored(ListAt(dst, cur)) && |src.items| == |tn.items|
    {
      cur := MergeNext(dst, src, te, tn, cur, i);
      i := i + 1;
    }
    tr := ListAt(dst, cur);
    ProgressEnd(te, tn, cur);
  }

  /** One new element of the array. */
  method MergeNext(dst: Slice, src: Slice, ghost te: Layout, ghost tn: Layout, ghost before: seq<Layout>, i: nat)
    returns (ghost after: seq<Layout>)
    requires te.ListAt? && tn.ListAt? && te.slice == dst && tn.slice == src && i < |tn.items| == |src.items|
    requires Unshared(tn) && Foot(te) !! Foot(tn) && Mergeable(Denote(te), Denote(tn))
    requires Progress(te, tn, before, i) && RestStored(tn, i) && Stored(ListAt(dst, before))
    modifies Touched(te, tn)
    ensures Progress(te, tn, after, i + 1) && RestStored(tn, i + 1) && Stored(ListAt(dst, after))
    ensures |src.items| == |tn.items|
    decreases tn, 0, 1
  {
    RestNext(tn, i);
    ProgressReady(te, tn, before, i);
    RestApart(te, tn, before, i);
    assert Represents(src.items[i], tn.items[i]);
    hide *;
    ghost var written := Foot(ListAt(dst, before)) + Foot(tn.items[i]);
    label L:
    after := MergeElement(dst, src.items[i], before, tn.items[i], Touched(te, tn));
    RestFrame@L(tn, i, written);
    ProgressStep(te, tn, before, after, i);
    RestLength(tn, i + 1);
  }

  lemma RestLength(tn: Layout, i: nat)
    requires tn.ListAt? && RestStored(tn, i)
    ensures |tn.slice.items| == |tn.items|
  {
  }

  ghost predicate RestOutside(tn: Layout, i: nat, written: set<object>)
    requires tn.ListAt?
  {
    tn.slice !in written && forall l :: i < l < |tn.items| ==> Foot(tn.items[l]) !! written
  }

  lemma RestAtStart(tn: Layout)
    requires tn.ListAt? && Stored(tn)
    ensures RestStored(tn, 0)
  {
  }

  lemma RestNext(tn: Layout, i: nat)
    requires tn.ListAt? && RestStored(tn, i)
    ensures |tn.slice.items| == |tn.items|
    ensures i < |tn.items| ==> tn.slice.items[i] == Root(tn.items[i]) && Stored(tn.items[i])
  {
  }

  twostate lemma RestFrame(tn: Layout, new i: nat, new written: set<object>)
    requires tn.ListAt?
    requires old(RestStored(tn, i))
    requires RestOutside(tn, i, written)
    requires forall o: object :: old(allocated(o)) && o !in written ==> unchanged(o)
    ensures RestStored(tn, i + 1)
  {
    FootAllocated(tn);
    FootChildren(tn);
    forall l | i < l < |tn.items|
      ensures Stored(tn.items[l])
    {
      StoredFrame(tn.items[l]);
    }
  }

  /** What one step writes is disjoint from the new elements after it. */
  lemma RestApart(te: Layout, tn: Layout, cur: seq<Layout>, i: nat)
    requires te.ListAt? && tn.ListAt? && i < |tn.items| && Progress(te, tn, cur, i)
    requires Unshared(tn) && Foot(te) !! Foot(tn)
    ensures RestOutside(tn, i, Foot(ListAt(te.slice, cur)) + Foot(tn.items[i]))
  {
    FootChildren(tn);
    FootPrefix(tn.slice, tn.items, i);
    hide Denote, DenoteItems, Settled, MergeItems;
    forall l | i < l < |tn.items|
      ensures Foot(tn.items[l]) !! FootItems(tn.items[..i])
    {
      forall o | o in FootItems(tn.items[..i])
        ensures o !in Foot(tn.items[l])
      {
        var k :| 0 <= k < i && o in Foot(tn.items[..i][k]);
        assert Foot(tn.items[k]) !! Foot(tn.items[l]);
      }
    }
    assert tn.slice !in FootItems(tn.items[..i]);
  }

  lemma ProgressStart(te: Layout, tn: Layout)
    requires te.ListAt? && tn.ListAt? && Unshared(te)
    ensures Progress(te, tn, te.items, 0)
  {
    FootChildren(te);
  }

  lemma ProgressReady(te: Layout, tn: Layout, cur: seq<Layout>, i: nat)
    requires te.ListAt? && tn.ListAt? && i < |tn.items| && Progress(te, tn, cur, i)
    requires Unshared(tn) && Foot(te) !! Foot(tn) && Mergeable(Denote(te), Denote(tn))
    ensures CanScan(te.slice, cur, tn.items[i], Touched(te, tn))
    ensures Unshared(tn.items[i])
  {
    DenoteList(te.slice, te.items);
    DenoteList(tn.slice, tn.items);
    MergeablePrefix(DenoteItems(te.items), DenoteItems(tn.items), i);
    FootPrefix(tn.slice, tn.items, i);
    NamesakesOwned(te, tn, cur, i);
    ItemTouched(te, tn, i);
    hide MergeItems, MergeableItem, Mergeable, Touched, Settled, WellFormed;
  }

  lemma ItemTouched(te: Layout, tn: Layout, i: nat)
    requires te.ListAt? && tn.ListAt? && i < |tn.items|
    ensures te.slice in Touched(te, tn)
    ensures WellFormed(Denote(tn.items[i])) || Foot(tn.items[i]) <= Touched(te, tn)
  {
    FootChildren(tn);
    if WellFormed(Denote(tn)) {
      ListChild(tn, i);
    }
    hide Denote, WellFormed;
  }

  lemma ListChild(l: Layout, i: nat)
    requires l.ListAt? && i < |l.items| && WellFormed(Denote(l))
    ensures WellFormed(Denote(l.items[i]))
  {
    assert Denote(l).items[i] == Denote(l.items[i]);
  }

  lemma NamesakesOwned(te: Layout, tn: Layout, cur: seq<Layout>, i: nat)
    requires te.ListAt? && tn.ListAt? && i < |tn.items| && Progress(te, tn, cur, i)
    ensures forall j :: 0 <= j < |cur| && SameName(Denote(cur[j]), Denote(tn.items[i])) ==>
            Foot(cur[j]) <= Touched(te, tn)
  {
    hide MergeItems, SameName, Unshared;
    if WellFormed(Denote(tn)) {
      DenoteList(tn.slice, tn.items);
      var ys := DenoteItems(tn.items);
      assert WellFormedItems(ys);
      hide Denote, Foot;
      PendingOwned(cur, Foot(te), ys, i);
    } else {
      FootChildren(ListAt(te.slice, cur));
      FootPrefixWhole(tn, i);
      hide Denote, Foot, DenoteItems;
    }
  }

  lemma FootPrefixWhole(tn: Layout, i: nat)
    requires tn.ListAt? && i <= |tn.items|
    ensures FootItems(tn.items[..i]) <= Foot(tn)
  {
    forall o | o in FootItems(tn.items[..i])
      ensures o in FootItems(tn.items)
    {
      var l :| 0 <= l < i && o in Foot(tn.items[..i][l]);
      assert tn.items[l] == tn.items[..i][l];
    }
  }

  lemma ProgressStep(te: Layout, tn: Layout, before: seq<Layout>, after: seq<Layout>, i: nat)
    requires te.ListAt? && tn.ListAt? && i < |tn.items| && Progress(te, tn, before, i)
    requires Unshared(tn) && Unshared(ListAt(te.slice, after))
    requires DenoteItems(after) == MergeItem(DenoteItems(before), Denote(tn.items[i]))
    requires Foot(ListAt(te.slice, after)) <= Foot(ListAt(te.slice, before)) + Foot(tn.items[i])
    requires Grown(before, after, Denote(tn.items[i]))
    ensures Progress(te, tn, after, i + 1)
  {
    hide Denote, Foot, Unshared, Settled, Grown, MergeItems, MergeItem;
    var xs, ys := DenoteItems(te.items), DenoteItems(tn.items);
    assert ys[..i + 1] == ys[..i] + [ys[i]];
    MergeItemsSnoc(xs, ys[..i], ys[i]);
    FootPrefix(tn.slice, tn.items, i);
    SettledStep(before, after, Foot(te), ys, i);
  }

  lemma ProgressEnd(te: Layout, tn: Layout, cur: seq<Layout>)
    requires te.ListAt? && tn.ListAt? && Progress(te, tn, cur, |tn.items|)
    ensures Denote(ListAt(te.slice, cur)) == Merge(Denote(te), Denote(tn))
    ensures Unshared(ListAt(te.slice, cur)) && Foot(ListAt(te.slice, cur)) <= Foot(te) + Foot(tn)
  {
    var ys := DenoteItems(tn.items);
    assert ys[..|ys|] == ys && tn.items[..|tn.items|] == tn.items;
    DenoteList(te.slice, te.items);
    DenoteList(te.slice, cur);
    DenoteList(tn.slice, tn.items);
  }

  // ----- One new element -----

  /** One new element can be merged into the array: `owned` is what may be written. */
  ghost predicate CanScan(dst: Slice, before: seq<Layout>, ty: Layout, owned: set<object>) {
    Unshared(ListAt(dst, before)) && MergeableItem(DenoteItems(before), Denote(ty))
    && Foot(ty) !! Foot(ListAt(dst, before)) && dst in owned
    && (forall j :: 0 <= j < |before| && SameName(Denote(before[j]), Denote(ty)) ==> Foot(before[j]) <= owned)
    && (WellFormed(Denote(ty)) || Foot(ty) <= owned)
  }

  /** The scan of the existing array for one new element. */
  method MergeElement(dst: Slice, value: Node, ghost before: seq<Layout>, ghost ty: Layout, ghost owned: set<object>)
    returns (ghost after: seq<Layout>)
    requires Stored(ListAt(dst, before)) && Represents(value, ty) && CanScan(dst, before, ty, owned)
    modifies owned * (Foot(ListAt(dst, before)) + Foot(ty))
    ensures Stored(ListAt(dst, after)) && Unshared(ListAt(dst, after))
    ensures DenoteItems(after) == MergeItem(DenoteItems(before), Denote(ty))
    ensures Foot(ListAt(dst, after)) <= Foot(ListAt(dst, before)) + Foot(ty)
    ensures Grown(before, after, Denote(ty))
    decreases ty, 4, 0
  {
    assert value == Root(ty) && Stored(ty) && Unshared(ty) && (value.Table? <==> ty.TableAt?);
    hide *;
    after := before;
    var matched := false;
    ScanParts(dst, before, ty, owned);
    if value.Table? {
      matched, after := ScanArray(dst, value, before, ty, owned);
    }
    if matched {
      MergedAll(dst, before, after, ty);
    } else {
      NothingMatched(before, after, ty, value.Table?);
      Append(dst, value, before, ty);
      after := before + [ty];
      Appended(dst, before, after, ty);
    }
  }

  lemma ScanParts(dst: Slice, before: seq<Layout>, ty: Layout, owned: set<object>)
    requires CanScan(dst, before, ty, owned)
    ensures Unshared(ListAt(dst, before)) && MergeableItem(DenoteItems(before), Denote(ty))
    ensures Foot(ty) !! Foot(ListAt(dst, before)) && dst in Foot(ListAt(dst, before)) && dst !in Foot(ty)
            && dst in owned
  {
  }

  lemma NothingMatched(before: seq<Layout>, after: seq<Layout>, ty: Layout, scanned: bool)
    requires if scanned then Scanned(before, after, ty, |before|, false) else after == before
    requires scanned <==> ty.TableAt?
    ensures after == before && !HasMatch(DenoteItems(before), Denote(ty))
  {
  }

  method Append(dst: Slice, value: Node, ghost before: seq<Layout>, ghost ty: Layout)
    requires Stored(ListAt(dst, before)) && Unshared(ListAt(dst, before))
    requires value == Root(ty) && Stored(ty) && dst !in Foot(ty)
    modifies dst
    ensures Stored(ListAt(dst, before + [ty]))
  {
    FootChildren(ListAt(dst, before));
    dst.items := dst.items + [value];
    forall i | 0 <= i < |before|
      ensures Stored(before[i])
    {
      StoredFrame(before[i]);
    }
    StoredFrame(ty);
  }

  method ScanArray(dst: Slice, value: Node, ghost before: seq<Layout>, ghost ty: Layout, ghost owned: set<object>)
    returns (matched: bool, ghost after: seq<Layout>)
    requires Stored(ListAt(dst, before)) && Represents(value, ty) && CanScan(dst, before, ty, owned) && value.Table?
    modifies owned * (Foot(ListAt(dst, before)) + Foot(ty))
    ensures Scanned(before, after, ty, |before|, matched)
    ensures Stored(ListAt(dst, after)) && (!matched ==> Stored(ty))
    decreases ty, 3, 0
  {
    assert value == Root(ty) && Stored(ty) && Unshared(ty);
    hide *;
    matched, after := false, before;
    var j := 0;
    ScanStart(before, ty);
    StoredItems(ListAt(dst, before));
    StoredName(ty);
    TableOf(value, ty);
    while j < |dst.items|
      invariant 0 <= j <= |dst.items| == |before| && Scanned(before, after, ty, j, matched)
      invariant Stored(ListAt(dst, after)) && value.dict.Name() == NameNode(ty)
      invariant !matched || Flat(Denote(ty)) ==> Stored(ty)
    {
      matched, after := ScanOne(dst, j, value, before, after, ty, owned, matched);
      j := j + 1;
    }
  }

  /** One element of the existing array. */
  method ScanOne(dst: Slice, j: nat, value: Node, ghost before: seq<Layout>, ghost after: seq<Layout>, ghost ty: Layout,
                 ghost owned: set<object>, matched: bool)
    returns (found: bool, ghost now: seq<Layout>)
    requires j < |before| == |dst.items| && Scanned(before, after, ty, j, matched) && Stored(ListAt(dst, after))
    requires value == Root(ty) && value.Table? && value.dict.Name() == NameNode(ty) && Unshared(ty)
    requires !matched || Flat(Denote(ty)) ==> Stored(ty)
    requires CanScan(dst, before, ty, owned)
    modifies owned * (Foot(ListAt(dst, before)) + Foot(ty))
    ensures |dst.items| == |before| && Scanned(before, now, ty, j + 1, found) && Stored(ListAt(dst, now))
    ensures value.dict.Name() == NameNode(ty) && (!found || Flat(Denote(ty)) ==> Stored(ty))
    decreases ty, 2, 2
  {
    hide *;
    StoredItems(ListAt(dst, after));
    TableOf(value, ty);
    ScanNext(dst, before, after, ty, j, matched, owned);
    NameTest(before[j], ty);
    found, now := matched, after;
    if dst.items[j].Table? && dst.items[j].dict.Name() == value.dict.Name() {
      ScanReady(dst, before, after, ty, j, matched, owned);
      RootRepresents(value, ty);
      ghost var merged := MergeAt(dst, j, value, after, ty);
      ScanHit(before, after, ty, j, merged, matched);
      found, now := true, after[j := merged];
      StoredItems(ListAt(dst, now));
    } else {
      ScanMiss(before, after, ty, j, matched);
    }
  }

  lemma TableOf(n: Node, l: Layout)
    requires n == Root(l) && n.Table?
    ensures l.TableAt? && l.dict == n.dict
  {
  }

  lemma RootRepresents(n: Node, l: Layout)
    requires n == Root(l) && Stored(l) && Unshared(l)
    ensures Represents(n, l)
  {
  }

  /** One matching element: the recursive merge and the write of its slot. */
  method MergeAt(dst: Slice, j: nat, value: Node, ghost before: seq<Layout>, ghost ty: Layout)
    returns (ghost merged: Layout)
    requires Stored(ListAt(dst, before)) && Unshared(ListAt(dst, before))
    requires Represents(value, ty) && Foot(ty) !! Foot(ListAt(dst, before)) && value.Table?
    requires j < |before| && before[j].TableAt? && Mergeable(Denote(before[j]), Denote(ty))
    modifies {dst} + Touched(before[j], ty)
    ensures Stored(ListAt(dst, before[j := merged]))
    ensures MergedWith(before[j], merged, ty)
    ensures value.dict.Name() == old(value.dict.Name())
    ensures Flat(Denote(ty)) ==> Stored(ty)
    decreases ty, 2, 1
  {
    SlotOfItem(dst, j, value, before, ty);
    hide *;
    label Before:
    var r;
    r, merged := MergeObjects(dst.items[j], value, before[j], ty);
    SlotMerged(r, merged);
    ItemsFrame@Before(ListAt(dst, before), j, Touched(before[j], ty));
    SetItem(dst, j, r, before, merged);
    if Flat(Denote(ty)) {
      FlatStored(ty);
    }
    MergedNow(before[j], merged, ty);
  }

  /** All that the recursive call needs. */
  lemma SlotOfItem(dst: Slice, j: nat, value: Node, before: seq<Layout>, ty: Layout)
    requires Stored(ListAt(dst, before)) && Unshared(ListAt(dst, before)) && j < |before| && before[j].TableAt?
    requires Represents(value, ty) && Foot(ty) !! Foot(ListAt(dst, before)) && value.Table?
    ensures |dst.items| == |before| && Represents(dst.items[j], before[j]) && dst.items[j].Table?
    ensures Foot(before[j]) !! Foot(ty) && dst !in Foot(before[j]) && dst !in Foot(ty) && dst !in Touched(before[j], ty)
    ensures ItemsOutside(before, j, Touched(before[j], ty)) && ItemsOutside(before, j, {dst})
    ensures ItemsStored(ListAt(dst, before), j)
    ensures ty.TableAt? && ty.dict == value.dict && ty.dict.fields.Keys == ty.fields.Keys
    ensures forall k :: k in ty.fields ==> ty.dict.fields[k] == Root(ty.fields[k])
  {
    FootChildren(ListAt(dst, before));
  }

  ghost predicate ItemsOutside(items: seq<Layout>, j: nat, written: set<object>) {
    forall l :: 0 <= l < |items| && l != j ==> Foot(items[l]) !! written
  }

  /** The items other than `j` are in the heap. */
  ghost predicate ItemsStored(l: Layout, j: nat)
    requires l.ListAt?
    reads Foot(l)
  {
    FootChildren(l);
    |l.slice.items| == |l.items|
    && forall i :: 0 <= i < |l.items| && i != j ==> l.slice.items[i] == Root(l.items[i]) && Stored(l.items[i])
  }

  twostate lemma ItemsFrame(l: Layout, new j: nat, new written: set<object>)
    requires l.ListAt? && old(ItemsStored(l, j)) && ItemsOutside(l.items, j, written) && l.slice !in written
    requires forall o: object :: old(allocated(o)) && o !in written ==> unchanged(o)
    ensures ItemsStored(l, j)
  {
    FootAllocated(l);
    FootChildren(l);
    forall i | 0 <= i < |l.items| && i != j
      ensures Stored(l.items[i])
    {
      StoredFrame(l.items[i]);
    }
  }

  /** Puts the merged node in its place. */
  method SetItem(dst: Slice, j: nat, r: Node, ghost before: seq<Layout>, ghost merged: Layout)
    requires j < |before| && r == Root(merged) && Stored(merged) && dst !in Foot(merged)
    requires ItemsStored(ListAt(dst, before), j) && ItemsOutside(before, j, {dst})
    modifies dst
    ensures Stored(ListAt(dst, before[j := merged]))
  {
    label Before:
    assert forall l :: 0 <= l < |before| && l != j ==> dst !in Foot(before[l]);
    hide Foot, Stored;
    dst.items := dst.items[j := r];
    StoredFrame@Before(merged);
    forall l | 0 <= l < |before| && l != j
      ensures Stored(before[l])
    {
      StoredFrame@Before(before[l]);
    }
    StoredUpdate(dst, before, j, merged);
  }

  lemma MergedNow(before: Layout, merged: Layout, ty: Layout)
    requires ty.TableAt? && Unshared(merged) && Denote(merged) == Merge(Denote(before), Denote(ty))
    requires Foot(merged) <= Foot(before) + Foot(ty) && ty.dict !in Foot(merged)
    ensures MergedWith(before, merged, ty)
  {
  }

  lemma StoredUpdate(dst: Slice, before: seq<Layout>, j: nat, merged: Layout)
    requires j < |before| && |dst.items| == |before| && dst.items[j] == Root(merged) && Stored(merged)
    requires forall l :: 0 <= l < |before| && l != j ==> dst.items[l] == Root(before[l]) && Stored(before[l])
    ensures Stored(ListAt(dst, before[j := merged]))
  {
  }

  /** Elements of other names keep their layout; at most one is added at the end. */
  ghost predicate Grown(before: seq<Layout>, after: seq<Layout>, y: Value) {
    |before| <= |after| <= |before| + 1
    && (forall j :: 0 <= j < |before| ==> after[j] == before[j] || SameName(Denote(after[j]), y))
    && (|after| > |before| ==> Denote(after[|before|]) == y)
  }

  /** `after` is the merge of the map `ty` into `before`; the map itself is not linked. */
  ghost predicate MergedWith(before: Layout, after: Layout, ty: Layout) {
    ty.TableAt? && Unshared(after) && Denote(after) == Merge(Denote(before), Denote(ty))
    && Foot(after) <= Foot(before) + Foot(ty) && ty.dict !in Foot(after)
  }

  ghost predicate ItemScanned(before: Layout, after: Layout, ty: Layout, reached: bool) {
    if reached && SameName(Denote(before), Denote(ty)) then MergedWith(before, after, ty) else after == before
  }

  /** The scan of `before` up to `j`: every namesake has been merged. */
  ghost predicate Scanned(before: seq<Layout>, after: seq<Layout>, ty: Layout, j: nat, matched: bool) {
    j <= |before| == |after|
    && (forall l :: 0 <= l < |before| ==> ItemScanned(before[l], after[l], ty, l < j))
    && (matched <==> exists l :: 0 <= l < j && SameName(Denote(before[l]), Denote(ty)))
  }

  lemma ScanStart(before: seq<Layout>, ty: Layout)
    ensures Scanned(before, before, ty, 0, false)
  {
  }

  lemma ScanNext(dst: Slice, before: seq<Layout>, after: seq<Layout>, ty: Layout, j: nat, matched: bool,
                 owned: set<object>)
    requires Scanned(before, after, ty, j, matched) && j < |before| && CanScan(dst, before, ty, owned)
    ensures |after| == |before| && after[j] == before[j] && Comparable(Denote(before[j]), Denote(ty))
  {
    assert DenoteItems(before)[j] == Denote(before[j]);
  }

  /** Before a match is merged: earlier matches have taken nothing of `ty`, if there were any. */
  lemma ScanReady(dst: Slice, before: seq<Layout>, after: seq<Layout>, ty: Layout, j: nat, matched: bool,
                  owned: set<object>)
    requires Scanned(before, after, ty, j, matched) && j < |before| && ty.TableAt?
    requires SameName(Denote(before[j]), Denote(ty)) && CanScan(dst, before, ty, owned)
    ensures !matched || Flat(Denote(ty))
    ensures Unshared(ListAt(dst, after)) && Foot(ty) !! Foot(ListAt(dst, after))
    ensures |after| == |before| && after[j] == before[j] && after[j].TableAt? && Mergeable(Denote(after[j]), Denote(ty))
    ensures {dst} + Touched(after[j], ty) <= owned * (Foot(ListAt(dst, before)) + Foot(ty))
  {
    hide Scanned, Denote, DenoteItems, Foot, Unshared, SameName, Mergeable, MergeableItem, Touched, WellFormed;
    SecondMatchIsFlat(before, after, ty, j, matched);
    TakenNothing(dst, before, after, ty, j, matched);
    SlotTouched(dst, before, ty, j, owned);
  }

  lemma SecondMatchIsFlat(before: seq<Layout>, after: seq<Layout>, ty: Layout, j: nat, matched: bool)
    requires Scanned(before, after, ty, j, matched) && j < |before| && ty.TableAt?
    requires SameName(Denote(before[j]), Denote(ty)) && MergeableItem(DenoteItems(before), Denote(ty))
    ensures |after| == |before| && after[j] == before[j] && after[j].TableAt? && Mergeable(Denote(after[j]), Denote(ty))
    ensures matched ==> Flat(Denote(ty)) && Foot(ty) == {ty.dict}
  {
    assert DenoteItems(before)[j] == Denote(before[j]);
    if matched {
      var l :| 0 <= l < j && SameName(Denote(before[l]), Denote(ty));
      assert SameName(DenoteItems(before)[l], Denote(ty));
      FlatFoot(ty);
    }
  }

  lemma SlotTouched(dst: Slice, before: seq<Layout>, ty: Layout, j: nat, owned: set<object>)
    requires j < |before| && Foot(before[j]) <= owned && dst in owned
    requires WellFormed(Denote(ty)) || Foot(ty) <= owned
    ensures {dst} + Touched(before[j], ty) <= owned * (Foot(ListAt(dst, before)) + Foot(ty))
  {
    FootChildren(ListAt(dst, before));
  }

  lemma TakenNothing(dst: Slice, before: seq<Layout>, after: seq<Layout>, ty: Layout, j: nat, matched: bool)
    requires Scanned(before, after, ty, j, matched) && ty.TableAt? && Unshared(ListAt(dst, before))
    requires matched ==> Foot(ty) == {ty.dict}
    ensures Unshared(ListAt(dst, after)) && Foot(ListAt(dst, after)) <= Foot(ListAt(dst, before))
  {
    hide Denote, Merge, SameName;
    FootChildren(ListAt(dst, before));
    forall l | 0 <= l < |before|
      ensures Foot(after[l]) <= Foot(before[l]) && Unshared(after[l])
    {
    }
  }

  lemma ScanHit(before: seq<Layout>, after: seq<Layout>, ty: Layout, j: nat, merged: Layout, matched: bool)
    requires Scanned(before, after, ty, j, matched) && j < |before| && SameName(Denote(before[j]), Denote(ty))
    requires MergedWith(before[j], merged, ty)
    ensures Scanned(before, after[j := merged], ty, j + 1, true)
  {
    ScanOn(before, after, ty, j);
    hide MergedWith, SameName, Denote;
    assert ItemScanned(before[j], merged, ty, true);
    hide ItemScanned;
  }

  lemma ScanMiss(before: seq<Layout>, after: seq<Layout>, ty: Layout, j: nat, matched: bool)
    requires Scanned(before, after, ty, j, matched) && j < |before|
    requires !SameName(Denote(before[j]), Denote(ty))
    ensures Scanned(before, after, ty, j + 1, matched)
  {
    ScanOn(before, after, ty, j);
    assert ItemScanned(before[j], after[j], ty, true) by {
      assert ItemScanned(before[j], after[j], ty, false);
      hide MergedWith, SameName, Denote;
    }
    hide MergedWith, SameName, Denote, ItemScanned;
  }

  lemma ScanOn(before: seq<Layout>, after: seq<Layout>, ty: Layout, j: nat)
    requires |before| == |after|
    requires forall l :: 0 <= l < |before| ==> ItemScanned(before[l], after[l], ty, l < j)
    ensures forall l :: 0 <= l < |before| && l != j ==> ItemScanned(before[l], after[l], ty, l < j + 1)
  {
    hide ItemScanned;
    forall l | 0 <= l < |before| && l != j
      ensures ItemScanned(before[l], after[l], ty, l < j + 1)
    {
      assert ItemScanned(before[l], after[l], ty, l < j);
    }
  }

  lemma MergedAll(dst: Slice, before: seq<Layout>, after: seq<Layout>, ty: Layout)
    requires Scanned(before, after, ty, |before|, true)
    requires Unshared(ListAt(dst, before)) && MergeableItem(DenoteItems(before), Denote(ty))
    requires Foot(ty) !! Foot(ListAt(dst, before))
    ensures Unshared(ListAt(dst, after)) && Foot(ListAt(dst, after)) <= Foot(ListAt(dst, before)) + Foot(ty)
    ensures DenoteItems(after) == MergeItem(DenoteItems(before), Denote(ty))
    ensures Grown(before, after, Denote(ty))
  {
    MergedApart(dst, before, after, ty);
    hide Unshared, Foot, Mergeable, MergeableItem, Denote, Merge, SameName, MergedWith;
    var xs, y := DenoteItems(before), Denote(ty);
    forall l | 0 <= l < |before|
      ensures Denote(after[l]) == if SameName(xs[l], y) then Merge(xs[l], y) else xs[l]
      ensures after[l] == before[l] || SameName(Denote(after[l]), y)
    {
      NamesComparable(xs, y, l);
      MergedValue(before[l], after[l], ty);
    }
    assert HasMatch(xs, y);
    hide *;
    MergedItems(xs, DenoteItems(after), y);
  }

  lemma MergedItems(xs: seq<Value>, zs: seq<Value>, y: Value)
    requires HasMatch(xs, y) && |zs| == |xs|
    requires forall l :: 0 <= l < |xs| ==> zs[l] == if SameName(xs[l], y) then Merge(xs[l], y) else xs[l]
    ensures zs == MergeItem(xs, y)
  {
    hide Merge, SameName;
  }

  lemma NamesComparable(xs: seq<Value>, y: Value, l: nat)
    requires l < |xs| && MergeableItem(xs, y)
    ensures Comparable(xs[l], y)
  {
  }

  lemma MergedValue(before: Layout, after: Layout, ty: Layout)
    requires ItemScanned(before, after, ty, true) && Comparable(Denote(before), Denote(ty))
    ensures Denote(after) == if SameName(Denote(before), Denote(ty)) then Merge(Denote(before), Denote(ty))
            else Denote(before)
    ensures after == before || SameName(Denote(after), Denote(ty))
  {
    hide Foot, Unshared, Denote;
    if SameName(Denote(before), Denote(ty)) {
      MergeKeepsName(Denote(before), Denote(ty));
    }
  }

  lemma MergedApart(dst: Slice, before: seq<Layout>, after: seq<Layout>, ty: Layout)
    requires Scanned(before, after, ty, |before|, true)
    requires Unshared(ListAt(dst, before)) && MergeableItem(DenoteItems(before), Denote(ty))
    requires Foot(ty) !! Foot(ListAt(dst, before))
    ensures Unshared(ListAt(dst, after)) && Foot(ListAt(dst, after)) <= Foot(ListAt(dst, before)) + Foot(ty)
  {
    FootChildren(ListAt(dst, before));
    forall i, j | 0 <= i < j < |before|
      ensures Foot(after[i]) !! Foot(after[j])
    {
      assert Foot(before[i]) !! Foot(before[j]) && Foot(before[i]) !! Foot(ty) && Foot(before[j]) !! Foot(ty);
      MeetOnce(before, ty, i, j);
      MergedPair(before[i], after[i], before[j], after[j], ty);
    }
    hide ItemScanned;
    forall i | 0 <= i < |before|
      ensures Unshared(after[i]) && Foot(after[i]) <= Foot(before[i]) + Foot(ty) && dst !in Foot(after[i])
    {
      MergedItem(before[i], after[i], ty);
    }
  }

  lemma MeetOnce(before: seq<Layout>, ty: Layout, i: nat, j: nat)
    requires i < j < |before| && MergeableItem(DenoteItems(before), Denote(ty))
    ensures SameName(Denote(before[i]), Denote(ty)) && SameName(Denote(before[j]), Denote(ty)) ==>
              ty.TableAt? && Foot(ty) == {ty.dict}
  {
    assert DenoteItems(before)[i] == Denote(before[i]) && DenoteItems(before)[j] == Denote(before[j]);
    if Flat(Denote(ty)) {
      FlatFoot(ty);
    }
  }

  lemma MergedItem(before: Layout, after: Layout, ty: Layout)
    requires ItemScanned(before, after, ty, true) && Unshared(before)
    ensures Unshared(after) && Foot(after) <= Foot(before) + Foot(ty)
  {
    hide Denote, SameName, Merge;
  }

  lemma MergedPair(xb: Layout, xa: Layout, yb: Layout, ya: Layout, ty: Layout)
    requires ItemScanned(xb, xa, ty, true) && ItemScanned(yb, ya, ty, true)
    requires Foot(xb) !! Foot(yb) && Foot(xb) !! Foot(ty) && Foot(yb) !! Foot(ty)
    requires SameName(Denote(xb), Denote(ty)) && SameName(Denote(yb), Denote(ty)) ==>
               ty.TableAt? && Foot(ty) == {ty.dict}
    ensures Foot(xa) !! Foot(ya)
  {
    var matchX, matchY := SameName(Denote(xb), Denote(ty)), SameName(Denote(yb), Denote(ty));
    MergedFoot(xb, xa, ty, matchX && matchY);
    MergedFoot(yb, ya, ty, matchX && matchY);
    hide *;
    if matchX {
      Apart(Foot(xa), Foot(xb), Foot(ya), Foot(yb), Foot(ty));
    } else {
      Apart(Foot(ya), Foot(yb), Foot(xa), Foot(xb), Foot(ty));
    }
  }

  /** A merged item takes objects of `ty` only if it matched, and none if there are several matches. */
  lemma MergedFoot(before: Layout, after: Layout, ty: Layout, several: bool)
    requires ItemScanned(before, after, ty, true)
    requires several ==> ty.TableAt? && Foot(ty) == {ty.dict}
    ensures Foot(after) <= Foot(before) + Foot(ty)
    ensures several || !SameName(Denote(before), Denote(ty)) ==> Foot(after) <= Foot(before)
  {
    hide Foot, Unshared, Denote, SameName, Merge;
    if several && SameName(Denote(before), Denote(ty)) {
      WithoutRoot(Foot(after), Foot(before), ty.dict);
    }
  }

  lemma Apart(xa: set<object>, xb: set<object>, ya: set<object>, yb: set<object>, t: set<object>)
    requires xa <= xb + t && ya <= yb && xb !! yb && yb !! t
    ensures xa !! ya
  {
  }

  lemma WithoutRoot(after: set<object>, before: set<object>, root: object)
    requires after <= before + {root} && root !in after
    ensures after <= before
  {
  }

  lemma Appended(dst: Slice, before: seq<Layout>, after: seq<Layout>, ty: Layout)
    requires !HasMatch(DenoteItems(before), Denote(ty)) && after == before + [ty]
    requires Unshared(ListAt(dst, before)) && Unshared(ty) && Foot(ty) !! Foot(ListAt(dst, before))
    ensures Unshared(ListAt(dst, after)) && Foot(ListAt(dst, after)) <= Foot(ListAt(dst, before)) + Foot(ty)
    ensures DenoteItems(after) == MergeItem(DenoteItems(before), Denote(ty))
    ensures Grown(before, after, Denote(ty))
  {
    hide Unshared, Foot, Merge;
    UnsharedAppend(dst, before, ty);
    assert DenoteItems(after) == DenoteItems(before) + [Denote(ty)];
  }

  lemma FootPrefix(slice: Slice, items: seq<Layout>, i: nat)
    requires i < |items| && Unshared(ListAt(slice, items))
    ensures FootItems(items[..i + 1]) == FootItems(items[..i]) + Foot(items[i])
    ensures Foot(items[i]) !! FootItems(items[..i])
    ensures Foot(items[i]) <= Foot(ListAt(slice, items)) && FootItems(items[..i]) <= Foot(ListAt(slice, items))
  {
    FootChildren(ListAt(slice, items));
    assert items[..i + 1] == items[..i] + [items[i]];
    forall o | o in FootItems(items[..i + 1])
      ensures o in FootItems(items[..i]) + Foot(items[i])
    {
      var l :| 0 <= l < i + 1 && o in Foot(items[..i + 1][l]);
      if l < i { assert items[..i][l] == items[l]; }
    }
    forall o | o in FootItems(items[..i]) + Foot(items[i])
      ensures o in FootItems(items[..i + 1])
    {
      if o in FootItems(items[..i]) {
        var l :| 0 <= l < i && o in Foot(items[..i][l]);
        assert items[..i + 1][l] == items[l];
      } else {
        assert items[..i + 1][i] == items[i];
      }
    }
  }

  lemma PendingOwned(cur: seq<Layout>, owned: set<object>, ys: seq<Value>, i: nat)
    requires i < |ys| && UniqueNames(ys) && Settled(cur, owned, ys[..i])
    ensures forall j :: 0 <= j < |cur| && SameName(Denote(cur[j]), ys[i]) ==> Foot(cur[j]) <= owned
  {
    forall j | 0 <= j < |cur| && SameName(Denote(cur[j]), ys[i])
      ensures !HasMatch(ys[..i], Denote(cur[j]))
    {
      forall l | 0 <= l < i
        ensures !SameName(ys[..i][l], Denote(cur[j]))
      {
        assert !SameName(ys[l], ys[i]);
      }
    }
  }

  lemma SettledStep(before: seq<Layout>, after: seq<Layout>, owned: set<object>, ys: seq<Value>, i: nat)
    requires i < |ys| && Settled(before, owned, ys[..i]) && Grown(before, after, ys[i])
    ensures Settled(after, owned, ys[..i + 1])
  {
    forall j | 0 <= j < |after| && Denote(after[j]).Obj?
      ensures Foot(after[j]) <= owned || HasMatch(ys[..i + 1], Denote(after[j]))
    {
      if j < |before| && after[j] == before[j] {
        if HasMatch(ys[..i], Denote(before[j])) {
          var l :| 0 <= l < i && SameName(ys[..i][l], Denote(before[j]));
          assert SameName(ys[..i + 1][l], Denote(after[j]));
        }
      } else {
        assert SameName(ys[..i + 1][i], Denote(after[j]));
      }
    }
  }

  // ----- The map branch -----

  /** The state of the map merge while the keys `pending` are still to be visited, apart from the heap. */
  ghost predicate MapProgress(te: Layout, tn: Layout, cur: map<Scalar, Layout>, pending: set<Scalar>)
    requires te.TableAt? && tn.TableAt?
  {
    pending <= tn.fields.Keys
    && cur.Keys == te.fields.Keys + (tn.fields.Keys - pending)
    && forall k :: k in cur ==> FieldMerged(te, tn, cur[k], k, k in tn.fields && k !in pending)
  }

  ghost predicate FieldMerged(te: Layout, tn: Layout, t: Layout, k: Scalar, visited: bool)
    requires te.TableAt? && tn.TableAt?
  {
    if !visited then
      k in te.fields && t == te.fields[k]
    else
      k in tn.fields
      && if k !in te.fields then
           t == tn.fields[k]
         else
           Unshared(t) && Denote(t) == Merge(Denote(te.fields[k]), Denote(tn.fields[k]))
           && Root(t) == Survivor(Root(te.fields[k]), Root(tn.fields[k]))
           && Foot(t) <= Foot(te.fields[k]) + Foot(tn.fields[k])
  }

  /** Which nodes a merged map holds: what only one side has is linked as it is. */
  ghost predicate Linked(te: Layout, tn: Layout, tr: Layout) {
    te.TableAt? && tn.TableAt? && tr.TableAt?
    && tr.fields.Keys == te.fields.Keys + tn.fields.Keys
    && (forall k :: k in te.fields && k !in tn.fields ==> tr.fields[k] == te.fields[k])
    && (forall k :: k in tn.fields && k !in te.fields ==> tr.fields[k] == tn.fields[k])
    && forall k :: k in te.fields && k in tn.fields ==>
                     Root(tr.fields[k]) == Survivor(Root(te.fields[k]), Root(tn.fields[k]))
  }

  /** The new fields that are still to be visited are untouched. */
  ghost predicate PendingStored(tn: Layout, pending: set<Scalar>)
    requires tn.TableAt?
    reads Foot(tn)
  {
    FootChildren(tn);
    tn.dict.fields.Keys == tn.fields.Keys
    && forall k :: k in pending && k in tn.fields ==> tn.dict.fields[k] == Root(tn.fields[k]) && Stored(tn.fields[k])
  }

  /** The keys of the new map are visited in an arbitrary order. */
  method MergeMaps(dst: Dict, src: Dict, ghost te: Layout, ghost tn: Layout)
    returns (ghost tr: Layout)
    requires te.TableAt? && tn.TableAt?
    requires Represents(Table(dst), te) && Represents(Table(src), tn)
    requires Foot(te) !! Foot(tn) && Mergeable(Denote(te), Denote(tn))
    modifies Touched(te, tn)
    ensures tr.TableAt? && Root(tr) == Table(dst) && Stored(tr) && Unshared(tr)
    ensures Denote(tr) == Merge(Denote(te), Denote(tn))
    ensures Foot(tr) <= Foot(te) + Foot(tn)
    ensures src !in Foot(tr) && src.fields == old(src.fields)
    ensures Linked(te, tn, tr)
    decreases tn, 1, 0
  {
    ghost var cur := te.fields;
    PendingAtStart(tn);
    MapStart(te, tn);
    hide *;
    var pending := src.fields.Keys;
    while pending != {}
      invariant MapProgress(te, tn, cur, pending) && src.fields == old(src.fields)
      invariant PendingStored(tn, pending) && Stored(TableAt(dst, cur))
    {
      var k :| k in pending;
      cur := MergeField(dst, src, te, tn, cur, pending, k);
      pending := pending - {k};
    }
    tr := TableAt(dst, cur);
    MapEnd(te, tn, cur);
  }

  lemma PendingAtStart(tn: Layout)
    requires tn.TableAt? && Stored(tn)
    ensures tn.dict.fields.Keys == tn.fields.Keys && PendingStored(tn, tn.fields.Keys)
  {
  }

  method MergeField(dst: Dict, src: Dict, ghost te: Layout, ghost tn: Layout,
                    ghost before: map<Scalar, Layout>, ghost pending: set<Scalar>, k: Scalar)
    returns (ghost after: map<Scalar, Layout>)
    requires te.TableAt? && tn.TableAt? && te.dict == dst && tn.dict == src
    requires Unshared(te) && Unshared(tn) && Foot(te) !! Foot(tn) && Mergeable(Denote(te), Denote(tn))
    requires MapProgress(te, tn, before, pending) && k in pending
    requires PendingStored(tn, pending) && Stored(TableAt(dst, before))
    modifies Touched(te, tn)
    ensures MapProgress(te, tn, after, pending - {k})
    ensures PendingStored(tn, pending - {k}) && Stored(TableAt(dst, after)) && src.fields == old(src.fields)
    decreases tn, 0, 2
  {
    FieldReady(te, tn, before, pending, k);
    PendingApart(te, tn, pending, k);
    RootOutside(te, tn);
    hide *;
    var r;
    ghost var t;
    r, t := MergeSlot(dst, src, te, tn, before, pending, k);
    label Merged:
    SetField(dst, k, r, before, t, FieldWritten(te, tn, k));
    PendingFrame@Merged(tn, pending - {k}, k, {dst});
    after := before[k := t];
    SamePending(pending, k);
    FieldStep(te, tn, before, pending, k, t);
  }

  lemma SamePending(pending: set<Scalar>, k: Scalar)
    ensures pending - {k} - {k} == pending - {k}
  {
  }

  lemma RootOutside(te: Layout, tn: Layout)
    requires te.TableAt? && tn.TableAt? && Foot(te) !! Foot(tn)
    ensures te.dict in Touched(te, tn) && te.dict != tn.dict
    ensures forall pending :: PendingOutside(tn, pending, {te.dict})
  {
    FootChildren(tn);
  }

  /** Puts the merged node in its place. */
  method SetField(dst: Dict, k: Scalar, r: Node, ghost before: map<Scalar, Layout>, ghost t: Layout,
                  ghost written: set<object>)
    requires r == Root(t) && Stored(t) && dst !in Foot(t)
    requires OthersStored(TableAt(dst, before), k) && OthersOutside(before, k, written) && dst in written
    modifies dst
    ensures Stored(TableAt(dst, before[k := t]))
  {
    label Before:
    assert forall l :: l in before && l != k ==> dst !in Foot(before[l]);
    hide Foot, Stored;
    dst.fields := dst.fields[k := r];
    StoredFrame@Before(t);
    forall l | l in before && l != k
      ensures Stored(before[l])
    {
      StoredFrame@Before(before[l]);
    }
    StoredPut(dst, before, k, t);
  }

  /** The fields other than `k` are in the heap. */
  ghost predicate OthersStored(l: Layout, k: Scalar)
    requires l.TableAt?
    reads Foot(l)
  {
    FootChildren(l);
    l.dict.fields.Keys == l.fields.Keys
    && forall j :: j in l.fields && j != k ==> l.dict.fields[j] == Root(l.fields[j]) && Stored(l.fields[j])
  }

  /** Merges or takes over the value of one key. */
  method MergeSlot(dst: Dict, src: Dict, ghost te: Layout, ghost tn: Layout,
                   ghost before: map<Scalar, Layout>, ghost pending: set<Scalar>, k: Scalar)
    returns (r: Node, ghost t: Layout)
    requires te.TableAt? && tn.TableAt? && te.dict == dst && tn.dict == src
    requires Unshared(te) && Unshared(tn) && Foot(te) !! Foot(tn) && Mergeable(Denote(te), Denote(tn))
    requires MapProgress(te, tn, before, pending) && k in pending
    requires PendingStored(tn, pending) && Stored(TableAt(dst, before))
    modifies Touched(te, tn)
    ensures k in tn.fields && FieldMerged(te, tn, t, k, true) && dst !in Foot(t) && r == Root(t) && Stored(t)
    ensures OthersStored(TableAt(dst, before), k) && PendingStored(tn, pending - {k})
    ensures src.fields == old(src.fields)
    decreases tn, 0, 1
  {
    hide *;
    SlotFacts(dst, te, tn, before, pending, k);
    t := tn.fields[k];
    r := src.fields[k];
    label Before:
    if k in dst.fields {
      r, t := MergeObjects(dst.fields[k], src.fields[k], before[k], tn.fields[k]);
      SlotMerged(r, t);
    }
    FieldMergedNow(te, tn, t, k);
    PendingFrame@Before(tn, pending, k, FieldWritten(te, tn, k));
    OthersFrame@Before(TableAt(dst, before), k, FieldWritten(te, tn, k) - {dst});
  }

  lemma SlotMerged(r: Node, t: Layout)
    requires Represents(r, t)
    ensures r == Root(t) && Stored(t) && Unshared(t)
  {
  }

  /** All that the merge of one field needs. */
  lemma SlotFacts(dst: Dict, te: Layout, tn: Layout, before: map<Scalar, Layout>, pending: set<Scalar>, k: Scalar)
    requires te.TableAt? && tn.TableAt? && te.dict == dst
    requires Unshared(te) && Unshared(tn) && Foot(te) !! Foot(tn) && Mergeable(Denote(te), Denote(tn))
    requires MapProgress(te, tn, before, pending) && k in pending
    requires PendingStored(tn, pending) && Stored(TableAt(dst, before))
    ensures k in tn.fields && (k in before <==> k in te.fields)
    ensures dst.fields.Keys == before.Keys && tn.dict.fields.Keys == tn.fields.Keys
    ensures dst !in Foot(tn.fields[k]) && Unshared(tn.fields[k]) && Represents(tn.dict.fields[k], tn.fields[k])
    ensures tn.dict.fields[k] == Root(tn.fields[k]) && Stored(tn.fields[k])
    ensures k in te.fields ==>
              before[k] == te.fields[k] && Represents(dst.fields[k], before[k]) && dst !in Foot(before[k])
              && dst.fields[k] == Root(te.fields[k])
              && Foot(before[k]) !! Foot(tn.fields[k]) && Mergeable(Denote(before[k]), Denote(tn.fields[k]))
              && Touched(before[k], tn.fields[k]) <= Touched(te, tn)
              && Touched(before[k], tn.fields[k]) <= FieldWritten(te, tn, k) - {dst}
    ensures OthersStored(TableAt(dst, before), k) && OthersOutside(before, k, FieldWritten(te, tn, k) - {dst})
    ensures PendingOutside(tn, pending - {k}, FieldWritten(te, tn, k))
  {
    hide *;
    FieldReady(te, tn, before, pending, k);
    PendingField(tn, pending, k);
    SlotReady(dst, te, tn, before, k);
    FieldTouched(te, tn, k);
    PendingApart(te, tn, pending, k);
    FewerOutside(before, k, FieldWritten(te, tn, k), {dst});
  }

  lemma SlotReady(dst: Dict, te: Layout, tn: Layout, before: map<Scalar, Layout>, k: Scalar)
    requires te.TableAt? && tn.TableAt? && te.dict == dst && k in tn.fields && Stored(TableAt(dst, before))
    requires tn.dict.fields.Keys == tn.fields.Keys && tn.dict.fields[k] == Root(tn.fields[k]) && Stored(tn.fields[k])
    requires Unshared(tn.fields[k]) && (k in before <==> k in te.fields)
    requires k in te.fields ==> before[k] == te.fields[k] && Unshared(before[k])
    ensures Represents(tn.dict.fields[k], tn.fields[k]) && dst.fields.Keys == before.Keys
    ensures k in before ==> Represents(dst.fields[k], before[k]) && dst.fields[k] == Root(before[k])
    ensures OthersStored(TableAt(dst, before), k)
  {
  }

  /** What the merge of one field may write at most. */
  ghost function FieldWritten(te: Layout, tn: Layout, k: Scalar): set<object>
    requires te.TableAt? && tn.TableAt? && k in tn.fields
  {
    {te.dict} + (if k in te.fields then Foot(te.fields[k]) else {}) + Foot(tn.fields[k])
  }

  ghost predicate OthersOutside(before: map<Scalar, Layout>, k: Scalar, written: set<object>) {
    forall l :: l in before && l != k ==> Foot(before[l]) !! written
  }

  lemma FewerOutside(before: map<Scalar, Layout>, k: Scalar, written: set<object>, spared: set<object>)
    requires OthersOutside(before, k, written)
    ensures OthersOutside(before, k, written - spared)
  {
  }

  twostate lemma OthersFrame(l: Layout, new k: Scalar, new written: set<object>)
    requires l.TableAt? && old(OthersStored(l, k)) && OthersOutside(l.fields, k, written) && l.dict !in written
    requires forall o: object :: old(allocated(o)) && o !in written ==> unchanged(o)
    ensures OthersStored(l, k)
  {
    FootAllocated(l);
    FootChildren(l);
    forall j | j in l.fields && j != k
      ensures Stored(l.fields[j])
    {
      StoredFrame(l.fields[j]);
    }
  }

  lemma PendingField(tn: Layout, pending: set<Scalar>, k: Scalar)
    requires tn.TableAt? && PendingStored(tn, pending) && k in pending && k in tn.fields
    ensures tn.dict.fields.Keys == tn.fields.Keys && tn.dict.fields[k] == Root(tn.fields[k]) && Stored(tn.fields[k])
  {
  }

  /** The merge of one field writes no more than the merge of the maps may. */
  lemma FieldTouched(te: Layout, tn: Layout, k: Scalar)
    requires te.TableAt? && tn.TableAt? && k in tn.fields && Mergeable(Denote(te), Denote(tn))
    ensures te.dict in Touched(te, tn)
    ensures k in te.fields && te.dict !in Foot(te.fields[k]) && te.dict !in Foot(tn.fields[k]) ==>
              Touched(te.fields[k], tn.fields[k]) <= FieldWritten(te, tn, k) - {te.dict}
    ensures k in te.fields ==>
              Touched(te.fields[k], tn.fields[k]) <= Touched(te, tn)
              && Mergeable(Denote(te.fields[k]), Denote(tn.fields[k]))
  {
    FootChildren(te);
    FootChildren(tn);
    assert Denote(tn).fields[k] == Denote(tn.fields[k]);
    assert k in te.fields ==> Denote(te).fields[k] == Denote(te.fields[k]);
  }

  ghost predicate PendingOutside(tn: Layout, pending: set<Scalar>, written: set<object>)
    requires tn.TableAt?
  {
    tn.dict !in written && forall l :: l in pending && l in tn.fields ==> Foot(tn.fields[l]) !! written
  }

  lemma PendingApart(te: Layout, tn: Layout, pending: set<Scalar>, k: Scalar)
    requires te.TableAt? && tn.TableAt? && k in tn.fields && Unshared(tn) && Foot(te) !! Foot(tn)
    ensures PendingOutside(tn, pending - {k}, FieldWritten(te, tn, k)) && te.dict in FieldWritten(te, tn, k)
  {
    FootChildren(te);
    FootChildren(tn);
  }

  twostate lemma PendingFrame(tn: Layout, new pending: set<Scalar>, new k: Scalar, new written: set<object>)
    requires tn.TableAt?
    requires old(PendingStored(tn, pending))
    requires PendingOutside(tn, pending - {k}, written)
    requires forall o: object :: old(allocated(o)) && o !in written ==> unchanged(o)
    ensures PendingStored(tn, pending - {k}) && tn.dict.fields == old(tn.dict.fields)
  {
    FootAllocated(tn);
    FootChildren(tn);
    forall l | l in pending - {k} && l in tn.fields
      ensures Stored(tn.fields[l])
    {
      StoredFrame(tn.fields[l]);
    }
  }

  lemma FieldMergedNow(te: Layout, tn: Layout, t: Layout, k: Scalar)
    requires te.TableAt? && tn.TableAt? && k in tn.fields && Unshared(t) && te.dict !in Foot(tn.fields[k])
    requires k in te.fields ==> te.dict !in Foot(te.fields[k])
    requires if k !in te.fields then t == tn.fields[k]
             else Denote(t) == Merge(Denote(te.fields[k]), Denote(tn.fields[k]))
                  && Root(t) == Survivor(Root(te.fields[k]), Root(tn.fields[k]))
                  && Foot(t) <= Foot(te.fields[k]) + Foot(tn.fields[k])
    ensures FieldMerged(te, tn, t, k, true)
    ensures te.dict !in Foot(t)
  {
  }

  lemma StoredPut(dst: Dict, before: map<Scalar, Layout>, k: Scalar, t: Layout)
    requires dst.fields.Keys == before.Keys + {k} && dst.fields[k] == Root(t) && Stored(t)
    requires forall l :: l in before && l != k ==> dst.fields[l] == Root(before[l]) && Stored(before[l])
    ensures Stored(TableAt(dst, before[k := t]))
  {
  }

  lemma FieldReady(te: Layout, tn: Layout, before: map<Scalar, Layout>, pending: set<Scalar>, k: Scalar)
    requires te.TableAt? && tn.TableAt? && MapProgress(te, tn, before, pending) && k in pending
    requires Unshared(te) && Unshared(tn) && Foot(te) !! Foot(tn)
    ensures k in tn.fields && (k in before <==> k in te.fields) && te.dict !in Foot(tn.fields[k])
    ensures Unshared(tn.fields[k])
    ensures k in te.fields ==>
              before[k] == te.fields[k] && Unshared(before[k]) && te.dict !in Foot(before[k])
              && Foot(before[k]) !! Foot(tn.fields[k])
    ensures OthersOutside(before, k, FieldWritten(te, tn, k))
  {
    hide Denote, Unshared;
    TableChild(tn, k);
    TableRoot(te);
    if k in te.fields {
      TableChild(te, k);
      assert FieldMerged(te, tn, before[k], k, k in tn.fields && k !in pending);
    }
    forall l | l in before && l != k
      ensures te.dict !in Foot(before[l]) && Foot(before[l]) !! Foot(tn.fields[k])
      ensures k in te.fields ==> Foot(before[l]) !! Foot(te.fields[k])
    {
      FieldFoot(te, tn, before[l], l, l in tn.fields && l !in pending);
      if l in te.fields { TableChild(te, l); }
      if l in tn.fields { TableChild(tn, l); }
      FieldsApart(te, tn, k, l);
    }
  }

  lemma TableRoot(l: Layout)
    requires l.TableAt?
    ensures l.dict in Foot(l)
  {
  }

  lemma TableChild(l: Layout, k: Scalar)
    requires l.TableAt? && k in l.fields && Unshared(l)
    ensures Unshared(l.fields[k]) && Foot(l.fields[k]) <= Foot(l) && l.dict !in Foot(l.fields[k]) && l.dict in Foot(l)
  {
    FootChildren(l);
  }

  /** What a merged field is made of. */
  lemma FieldFoot(te: Layout, tn: Layout, t: Layout, k: Scalar, visited: bool)
    requires te.TableAt? && tn.TableAt? && FieldMerged(te, tn, t, k, visited)
    ensures k in te.fields || k in tn.fields
    ensures Foot(t) <= (if k in te.fields then Foot(te.fields[k]) else {}) + (if k in tn.fields then Foot(tn.fields[k])
            else {})
  {
  }

  lemma FieldStep(te: Layout, tn: Layout, before: map<Scalar, Layout>, pending: set<Scalar>, k: Scalar, t: Layout)
    requires te.TableAt? && tn.TableAt? && MapProgress(te, tn, before, pending) && k in pending
    requires FieldMerged(te, tn, t, k, true)
    ensures MapProgress(te, tn, before[k := t], pending - {k})
  {
    var after := before[k := t];
    forall l | l in after
      ensures FieldMerged(te, tn, after[l], l, l in tn.fields && l !in pending - {k})
    {
      if l != k { assert FieldMerged(te, tn, before[l], l, l in tn.fields && l !in pending); }
    }
  }

  lemma MapStart(te: Layout, tn: Layout)
    requires te.TableAt? && tn.TableAt?
    ensures MapProgress(te, tn, te.fields, tn.fields.Keys)
  {
  }

  lemma MapEnd(te: Layout, tn: Layout, cur: map<Scalar, Layout>)
    requires te.TableAt? && tn.TableAt? && MapProgress(te, tn, cur, {})
    requires Unshared(te) && Unshared(tn) && Foot(te) !! Foot(tn)
    ensures Unshared(TableAt(te.dict, cur)) && Denote(TableAt(te.dict, cur)) == Merge(Denote(te), Denote(tn))
    ensures Foot(TableAt(te.dict, cur)) <= Foot(te) + Foot(tn) && tn.dict !in Foot(TableAt(te.dict, cur))
    ensures Linked(te, tn, TableAt(te.dict, cur))
  {
    forall k | k in cur
      ensures FieldMerged(te, tn, cur[k], k, k in tn.fields)
    {
      assert FieldMerged(te, tn, cur[k], k, k in tn.fields && k !in {});
    }
    hide Merge, Denote, Unshared, Foot, Root, Survivor;
    assert Linked(te, tn, TableAt(te.dict, cur));
    hide FieldMerged, Linked;
    MapEndShape(te, tn, cur);
    MapEndValue(te, tn, cur);
  }

  lemma MapEndShape(te: Layout, tn: Layout, cur: map<Scalar, Layout>)
    requires te.TableAt? && tn.TableAt? && cur.Keys == te.fields.Keys + tn.fields.Keys
    requires forall k :: k in cur ==> FieldMerged(te, tn, cur[k], k, k in tn.fields)
    requires Unshared(te) && Unshared(tn) && Foot(te) !! Foot(tn)
    ensures Unshared(TableAt(te.dict, cur))
    ensures Foot(TableAt(te.dict, cur)) <= Foot(te) + Foot(tn) && tn.dict !in Foot(TableAt(te.dict, cur))
  {
    hide *;
    forall k | k in cur
      ensures Foot(cur[k]) <= Foot(te) + Foot(tn) && Unshared(cur[k]) && te.dict !in Foot(cur[k])
              && tn.dict !in Foot(cur[k])
    {
      FieldShape(te, tn, cur[k], k);
    }
    forall k, l | k in cur && l in cur && k != l
      ensures Foot(cur[k]) !! Foot(cur[l])
    {
      FieldFoot(te, tn, cur[k], k, k in tn.fields);
      FieldFoot(te, tn, cur[l], l, l in tn.fields);
      FieldsApart(te, tn, k, l);
    }
    TableRoot(te);
    TableRoot(tn);
    TableShape(te.dict, cur, Foot(te) + Foot(tn), tn.dict);
  }

  lemma TableShape(dict: Dict, fields: map<Scalar, Layout>, all: set<object>, spared: Dict)
    requires dict in all && spared != dict
    requires forall k :: k in fields ==>
               Foot(fields[k]) <= all && Unshared(fields[k]) && dict !in Foot(fields[k]) && spared !in Foot(fields[k])
    requires forall k, l :: k in fields && l in fields && k != l ==> Foot(fields[k]) !! Foot(fields[l])
    ensures Unshared(TableAt(dict, fields)) && Foot(TableAt(dict, fields)) <= all
            && spared !in Foot(TableAt(dict, fields))
  {
  }

  lemma FieldShape(te: Layout, tn: Layout, t: Layout, k: Scalar)
    requires te.TableAt? && tn.TableAt? && FieldMerged(te, tn, t, k, k in tn.fields)
    requires Unshared(te) && Unshared(tn) && Foot(te) !! Foot(tn)
    ensures Foot(t) <= Foot(te) + Foot(tn) && Unshared(t) && te.dict !in Foot(t) && tn.dict !in Foot(t)
  {
    FieldFoot(te, tn, t, k, k in tn.fields);
    TableRoot(te);
    TableRoot(tn);
    if k in te.fields { TableChild(te, k); }
    if k in tn.fields { TableChild(tn, k); }
    hide Foot, Unshared, Denote, Merge;
  }

  lemma FieldsApart(te: Layout, tn: Layout, k: Scalar, l: Scalar)
    requires te.TableAt? && tn.TableAt? && k != l && Unshared(te) && Unshared(tn) && Foot(te) !! Foot(tn)
    ensures k in te.fields && l in te.fields ==> Foot(te.fields[k]) !! Foot(te.fields[l])
    ensures k in tn.fields && l in tn.fields ==> Foot(tn.fields[k]) !! Foot(tn.fields[l])
    ensures k in te.fields && l in tn.fields ==> Foot(te.fields[k]) !! Foot(tn.fields[l])
    ensures k in tn.fields && l in te.fields ==> Foot(tn.fields[k]) !! Foot(te.fields[l])
  {
    FootChildren(te);
    FootChildren(tn);
  }

  lemma MapEndValue(te: Layout, tn: Layout, cur: map<Scalar, Layout>)
    requires te.TableAt? && tn.TableAt? && cur.Keys == te.fields.Keys + tn.fields.Keys
    requires forall k :: k in cur ==> FieldMerged(te, tn, cur[k], k, k in tn.fields)
    ensures Denote(TableAt(te.dict, cur)) == Merge(Denote(te), Denote(tn))
  {
    hide Foot, Unshared, Root, Survivor, Linked;
    var left, right := Denote(TableAt(te.dict, cur)), Merge(Denote(te), Denote(tn));
    assert left.fields.Keys == right.fields.Keys;
    forall k | k in cur
      ensures left.fields[k] == right.fields[k]
    {
      assert FieldMerged(te, tn, cur[k], k, k in tn.fields);
    }
    assert left.fields == right.fields;
  }
}
