/** Algebra of the deep merge: when layers may be regrouped, and when applying a layer twice is harmless. */
module MergeLaws {
  import opened Basics
  import opened ConfigValues

  predicate Associates(a: Value, b: Value, c: Value) {
    Merge(Merge(a, b), c) == Merge(a, Merge(b, c))
  }

  // ----- Regrouping layers -----

  /** Regrouping goes wrong only where the middle layer holds another kind of value than the outer two: merged
      first, the middle value wipes out what `a` had there. It is harmless if `c` overrides `a` there anyway. */
  predicate Regroups(a: Value, b: Value, c: Value)
    decreases c
  {
    if a.Obj? && b.Obj? && c.Obj? then
      forall k :: k in a.fields && k in b.fields && k in c.fields ==> Regroups(a.fields[k], b.fields[k], c.fields[k])
    else if a.Arr? && b.Arr? && c.Arr? then
      forall i, j, l :: 0 <= i < |a.items| && 0 <= j < |b.items| && 0 <= l < |c.items|
                        && SameName(a.items[i], c.items[l]) && SameName(b.items[j], c.items[l])
                        ==> Regroups(a.items[i], b.items[j], c.items[l])
    else
      SameKind(a, c) && !SameKind(b, c) ==> Covers(a, c)
  }

  /** Whatever `a` holds, `c` overrides: all keys of a map, and the leading elements of an array, name by name. */
  predicate Covers(a: Value, c: Value)
    decreases c
  {
    if a.Obj? && c.Obj? then
      forall k :: k in a.fields ==> k in c.fields && Covers(a.fields[k], c.fields[k])
    else if a.Arr? && c.Arr? then
      |a.items| <= |c.items|
      && forall i :: 0 <= i < |a.items| ==> SameName(a.items[i], c.items[i]) && Covers(a.items[i], c.items[i])
    else
      true
  }

  /** `c` overrides all of `a` exactly if merging it onto `a` yields `c`. */
  lemma {:induction false} CoversIff(a: Value, c: Value)
    requires WellFormed(a) && WellFormed(c)
    ensures Merge(a, c) == c <==> Covers(a, c)
    decreases c
  {
    if a.Obj? && c.Obj? {
      forall k | k in a.fields && k in c.fields
        ensures Merge(a.fields[k], c.fields[k]) == c.fields[k] <==> Covers(a.fields[k], c.fields[k])
      {
        CoversIff(a.fields[k], c.fields[k]);
      }
      ObjectCovered(a, c);
    } else if a.Arr? && c.Arr? {
      forall i | 0 <= i < |a.items| && i < |c.items|
        ensures Merge(a.items[i], c.items[i]) == c.items[i] <==> Covers(a.items[i], c.items[i])
      {
        CoversIff(a.items[i], c.items[i]);
      }
      if ItemsCovered(a.items, c.items) {
        CoveredItemsMerge(a.items, c.items);
      } else if MergeItems(a.items, c.items) == c.items {
        MergedItemsCover(a.items, c.items);
      }
    } else {
    }
  }

  lemma ObjectCovered(a: Value, c: Value)
    requires a.Obj? && c.Obj?
    ensures Merge(a, c) == c <==>
            forall k :: k in a.fields ==> k in c.fields && Merge(a.fields[k], c.fields[k]) == c.fields[k]
  {
    var r := Merge(a, c);
    if forall k :: k in a.fields ==> k in c.fields && Merge(a.fields[k], c.fields[k]) == c.fields[k] {
      assert r.fields.Keys == c.fields.Keys;
      assert r.fields == c.fields;
    } else {
      var k :| k in a.fields && !(k in c.fields && Merge(a.fields[k], c.fields[k]) == c.fields[k]);
      assert k in r.fields;
    }
  }

  predicate ItemsCovered(xs: seq<Value>, zs: seq<Value>) {
    |xs| <= |zs| && forall i :: 0 <= i < |xs| ==> SameName(xs[i], zs[i]) && Merge(xs[i], zs[i]) == zs[i]
  }

  /** After the first `k` elements of `zs`, the covered elements of `xs` have been replaced one by one. */
  lemma {:induction false} CoveredPrefix(xs: seq<Value>, zs: seq<Value>, k: nat)
    requires WellFormedItems(xs) && WellFormedItems(zs) && ItemsCovered(xs, zs) && k <= |zs|
    ensures MergeItems(xs, zs[..k]) == zs[..k] + if k <= |xs| then xs[k..] else []
  {
    if k == 0 {
    } else {
      var i := k - 1;
      CoveredPrefix(xs, zs, i);
      MergeItemsWellFormed(xs, zs[..i]);
      assert zs[..k] == zs[..i] + [zs[i]];
      MergeItemsSnoc(xs, zs[..i], zs[i]);
      if i < |xs| {
        CoverOne(xs, zs, i);
      } else {
        AddOne(zs, i);
        assert zs[..i] + [] == zs[..i] && zs[..k] + [] == zs[..k];
      }
    }
  }

  lemma CoverOne(xs: seq<Value>, zs: seq<Value>, i: nat)
    requires i < |xs| <= |zs| && UniqueNames(zs[..i] + xs[i..])
    requires SameName(xs[i], zs[i]) && Merge(xs[i], zs[i]) == zs[i]
    ensures MergeItem(zs[..i] + xs[i..], zs[i]) == zs[..i + 1] + xs[i + 1..]
  {
    var q := zs[..i] + xs[i..];
    assert q[i] == xs[i];
    MergeItemAt(q, zs[i], i);
    hide *;
    assert q[i := zs[i]] == zs[..i + 1] + xs[i + 1..];
  }

  /** Elements with distinct names are appended. */
  lemma AddOne(zs: seq<Value>, i: nat)
    requires i < |zs| && UniqueNames(zs)
    ensures MergeItem(zs[..i], zs[i]) == zs[..i + 1]
  {
    forall j | 0 <= j < i
      ensures !SameName(zs[..i][j], zs[i])
    {
      assert !SameName(zs[j], zs[i]);
    }
    assert !HasMatch(zs[..i], zs[i]);
    assert zs[..i] + [zs[i]] == zs[..i + 1];
  }

  lemma CoveredItemsMerge(xs: seq<Value>, zs: seq<Value>)
    requires WellFormedItems(xs) && WellFormedItems(zs) && ItemsCovered(xs, zs)
    ensures MergeItems(xs, zs) == zs
  {
    CoveredPrefix(xs, zs, |zs|);
    assert zs[..|zs|] == zs;
    assert (if |zs| <= |xs| then xs[|zs|..] else []) == [];
  }

  function Bare(xs: seq<Value>): nat {
    if xs == [] then 0 else Bare(xs[..|xs| - 1]) + if xs[|xs| - 1].Obj? then 0 else 1
  }

  lemma {:induction false} BareUpdate(xs: seq<Value>, m: nat, v: Value)
    requires m < |xs| && xs[m].Obj? && v.Obj?
    ensures Bare(xs[m := v]) == Bare(xs)
  {
    var n := |xs| - 1;
    if m == n {
      assert xs[m := v][..n] == xs[..n];
    } else {
      BareUpdate(xs[..n], m, v);
      assert xs[m := v][..n] == xs[..n][m := v];
    }
  }

  lemma {:induction false} BareZero(xs: seq<Value>)
    ensures Bare(xs) == 0 <==> forall i :: 0 <= i < |xs| ==> xs[i].Obj?
  {
    if xs == [] {
    } else {
      BareZero(xs[..|xs| - 1]);
      assert forall i :: 0 <= i < |xs| - 1 ==> xs[..|xs| - 1][i] == xs[i];
    }
  }

  /** Elements that are not maps are always appended. */
  lemma {:induction false} BareAdds(xs: seq<Value>, ys: seq<Value>)
    requires WellFormedItems(xs) && WellFormedItems(ys)
    ensures Bare(MergeItems(xs, ys)) == Bare(xs) + Bare(ys)
    ensures |MergeItems(xs, ys)| >= |xs|
    ensures forall i :: 0 <= i < |xs| && xs[i].Obj? ==> SameName(MergeItems(xs, ys)[i], xs[i])
  {
    if ys == [] {
    } else {
      var n := |ys| - 1;
      var front, y := ys[..n], ys[n];
      BareAdds(xs, front);
      MergeItemsWellFormed(xs, front);
      BareStep(MergeItems(xs, front), y);
    }
  }

  lemma BareStep(q: seq<Value>, y: Value)
    requires WellFormedItems(q) && ScalarName(y)
    ensures Bare(MergeItem(q, y)) == Bare(q) + (if y.Obj? then 0 else 1)
    ensures |MergeItem(q, y)| >= |q|
    ensures forall i :: 0 <= i < |q| && q[i].Obj? ==> SameName(MergeItem(q, y)[i], q[i])
  {
    if HasMatch(q, y) {
      var m :| 0 <= m < |q| && SameName(q[m], y);
      MergeItemAt(q, y, m);
      MergeKeepsName(q[m], y);
      BareUpdate(q, m, Merge(q[m], y));
    } else {
      assert (q + [y])[..|q|] == q;
    }
  }

  lemma MergedItemsCover(xs: seq<Value>, zs: seq<Value>)
    requires WellFormedItems(xs) && WellFormedItems(zs) && MergeItems(xs, zs) == zs
    ensures ItemsCovered(xs, zs)
  {
    BareAdds(xs, zs);
    BareZero(xs);
    forall i | 0 <= i < |xs|
      ensures SameName(xs[i], zs[i]) && Merge(xs[i], zs[i]) == zs[i]
    {
      assert SameName(zs[i], xs[i]);
      AtMergeItems(xs, zs, xs[i]);
      AtUnique(xs, i, xs[i]);
      AtUnique(zs, i, xs[i]);
    }
  }

  /** Merging layers (a then b) then c gives the same as a then (b then c) exactly when `Regroups` holds. */
  lemma {:induction false} AssociativeIff(a: Value, b: Value, c: Value)
    requires WellFormed(a) && WellFormed(b) && WellFormed(c)
    ensures Associates(a, b, c) <==> Regroups(a, b, c)
    decreases c
  {
    if a.Obj? && b.Obj? && c.Obj? {
      forall k | k in a.fields && k in b.fields && k in c.fields
        ensures Associates(a.fields[k], b.fields[k], c.fields[k]) <==> Regroups(a.fields[k], b.fields[k], c.fields[k])
      {
        AssociativeIff(a.fields[k], b.fields[k], c.fields[k]);
      }
      ObjectsAssociate(a, b, c);
    } else if a.Arr? && b.Arr? && c.Arr? {
      forall i, j, l | 0 <= i < |a.items| && 0 <= j < |b.items| && 0 <= l < |c.items|
        ensures Associates(a.items[i], b.items[j], c.items[l]) <==> Regroups(a.items[i], b.items[j], c.items[l])
      {
        AssociativeIff(a.items[i], b.items[j], c.items[l]);
      }
      ArraysAssociate(a.items, b.items, c.items);
      ArrayAssociates(a, b, c);
    } else {
      CoversIff(a, c);
      MismatchAssociates(a, b, c);
    }
  }

  lemma MismatchAssociates(a: Value, b: Value, c: Value)
    requires !(a.Obj? && b.Obj? && c.Obj?) && !(a.Arr? && b.Arr? && c.Arr?)
    requires Merge(a, c) == c <==> Covers(a, c)
    ensures Associates(a, b, c) <==> Regroups(a, b, c)
  {
  }

  lemma ArraysAssociate(xs: seq<Value>, ys: seq<Value>, zs: seq<Value>)
    requires WellFormedItems(xs) && WellFormedItems(ys) && WellFormedItems(zs)
    ensures MergeItems(MergeItems(xs, ys), zs) == MergeItems(xs, MergeItems(ys, zs)) <==> ItemsRegroup(xs, ys, zs)
  {
    if ItemsRegroup(xs, ys, zs) {
      ItemsAssociate(xs, ys, zs);
    } else {
      var i, j, l :| 0 <= i < |xs| && 0 <= j < |ys| && 0 <= l < |zs|
        && SameName(xs[i], zs[l]) && SameName(ys[j], zs[l]) && !Associates(xs[i], ys[j], zs[l]);
      ItemsDoNotAssociate(xs, ys, zs, i, j, l);
    }
  }

  lemma ArrayAssociates(a: Value, b: Value, c: Value)
    requires a.Arr? && b.Arr? && c.Arr?
    ensures Associates(a, b, c) <==>
            MergeItems(MergeItems(a.items, b.items), c.items) == MergeItems(a.items, MergeItems(b.items, c.items))
  {
  }

  lemma ObjectsAssociate(a: Value, b: Value, c: Value)
    requires a.Obj? && b.Obj? && c.Obj?
    ensures Associates(a, b, c) <==>
            forall k :: k in a.fields && k in b.fields && k in c.fields ==>
              Associates(a.fields[k], b.fields[k], c.fields[k])
  {
    var left, right := Merge(Merge(a, b), c), Merge(a, Merge(b, c));
    assert left.fields.Keys == right.fields.Keys;
    forall k | k in left.fields && !(k in a.fields && k in b.fields && k in c.fields)
      ensures left.fields[k] == right.fields[k]
    {
    }
    if forall k :: k in a.fields && k in b.fields && k in c.fields ==>
      Associates(a.fields[k], b.fields[k], c.fields[k]) {
      forall k | k in left.fields
        ensures left.fields[k] == right.fields[k]
      {
        if k in a.fields && k in b.fields && k in c.fields {
          assert Associates(a.fields[k], b.fields[k], c.fields[k]);
        }
      }
      assert left.fields == right.fields;
    } else {
      var k :| k in a.fields && k in b.fields && k in c.fields && !Associates(a.fields[k], b.fields[k], c.fields[k]);
      assert left.fields[k] != right.fields[k];
    }
  }

  ghost predicate ItemsRegroup(xs: seq<Value>, ys: seq<Value>, zs: seq<Value>) {
    forall i, j, l :: 0 <= i < |xs| && 0 <= j < |ys| && 0 <= l < |zs|
                      && SameName(xs[i], zs[l]) && SameName(ys[j], zs[l])
                      ==> Associates(xs[i], ys[j], zs[l])
  }

  lemma {:induction false} ItemsAssociate(xs: seq<Value>, ys: seq<Value>, zs: seq<Value>)
    requires WellFormedItems(xs) && WellFormedItems(ys) && WellFormedItems(zs)
    requires ItemsRegroup(xs, ys, zs)
    ensures MergeItems(MergeItems(xs, ys), zs) == MergeItems(xs, MergeItems(ys, zs))
  {
    if zs == [] {
    } else {
      var n := |zs| - 1;
      var front, z := zs[..n], zs[n];
      ItemsAssociate(xs, ys, front);
      var bs := MergeItems(ys, front);
      MergeItemsWellFormed(ys, front);
      if HasMatch(bs, z) {
        var j :| 0 <= j < |bs| && SameName(bs[j], z);
        MergeItemAt(bs, z, j);
        AtUnique(bs, j, z);
        AtMergeItems(ys, front, z);
        NoEarlierNamesake(zs, z);
        var jy := AtFound(ys, z);
        assert bs[j] == ys[jy];
        forall i | 0 <= i < |xs| && SameName(xs[i], z)
          ensures Associates(xs[i], bs[j], z)
        {
        }
        MergeLater(xs, bs, j, z);
      } else {
        MergeItemsSnoc(xs, bs, z);
      }
    }
  }

  /** Merging `z` into the second array first, or into the merged array afterwards, comes to the same. */
  lemma {:induction false} MergeLater(xs: seq<Value>, ys: seq<Value>, j: nat, z: Value)
    requires WellFormedItems(xs) && WellFormedItems(ys) && ScalarName(z) && WellFormed(z)
    requires j < |ys| && SameName(ys[j], z)
    requires forall i :: 0 <= i < |xs| && SameName(xs[i], z) ==> Associates(xs[i], ys[j], z)
    ensures MergeItem(MergeItems(xs, ys), z) == MergeItems(xs, ys[j := Merge(ys[j], z)])
  {
    var n := |ys| - 1;
    if j == n {
      MergeLaterLast(xs, ys, z);
    } else {
      var front, y := ys[..n], ys[n];
      var w := Merge(ys[j], z);
      MergeLater(xs, front, j, z);
      assert ys[j := w] == front[j := w] + [y];
      MergeItemsSnoc(xs, front[j := w], y);
      MatchSurvives(xs, front, j, z);
      assert !SameName(ys[j], ys[n]);
      MergesCommute(MergeItems(xs, front), z, y);
    }
  }

  lemma MergeLaterLast(xs: seq<Value>, ys: seq<Value>, z: Value)
    requires WellFormedItems(xs) && WellFormedItems(ys) && ScalarName(z)
    requires ys != [] && SameName(ys[|ys| - 1], z)
    requires forall i :: 0 <= i < |xs| && SameName(xs[i], z) ==> Associates(xs[i], ys[|ys| - 1], z)
    ensures MergeItem(MergeItems(xs, ys), z) == MergeItems(xs, ys[|ys| - 1 := Merge(ys[|ys| - 1], z)])
  {
    var n := |ys| - 1;
    var front, y := ys[..n], ys[n];
    assert ys[n := Merge(y, z)] == front + [Merge(y, z)];
    MergeItemsSnoc(xs, front, Merge(y, z));
    MergeItemsWellFormed(xs, front);
    NoEarlierNamesake(ys, y);
    AtMergeItems(xs, front, y);
    MergeTwice(MergeItems(xs, front), y, z, xs);
  }

  lemma MatchSurvives(xs: seq<Value>, ys: seq<Value>, j: nat, z: Value)
    requires WellFormedItems(xs) && WellFormedItems(ys)
    requires j < |ys| && SameName(ys[j], z)
    ensures WellFormedItems(MergeItems(xs, ys)) && HasMatch(MergeItems(xs, ys), z)
  {
    MergeItemsWellFormed(xs, ys);
    AtMergeItems(xs, ys, z);
    AtUnique(ys, j, z);
    AtMissing(MergeItems(xs, ys), z);
  }

  /** `q` is an array whose namesake of `y`, if any, comes from `xs`. */
  lemma MergeTwice(q: seq<Value>, y: Value, z: Value, xs: seq<Value>)
    requires WellFormedItems(q) && WellFormedItems(xs) && SameName(y, z) && ScalarName(y) && ScalarName(z)
    requires At(q, y) == At(xs, y)
    requires forall i :: 0 <= i < |xs| && SameName(xs[i], z) ==> Associates(xs[i], y, z)
    ensures MergeItem(MergeItem(q, y), z) == MergeItem(q, Merge(y, z))
  {
    AtMissing(q, y);
    if HasMatch(q, y) {
      var m := AtFound(q, y);
      var i := AtFound(xs, y);
      assert Associates(xs[i], y, z);
      MergeTwiceAt(q, y, z, m);
    } else {
      MergeTwiceFresh(q, y, z);
    }
  }

  lemma MergeTwiceAt(q: seq<Value>, y: Value, z: Value, m: nat)
    requires UniqueNames(q) && SameName(y, z) && ScalarName(y) && ScalarName(z)
    requires m < |q| && SameName(q[m], y) && Associates(q[m], y, z)
    ensures MergeItem(MergeItem(q, y), z) == MergeItem(q, Merge(y, z))
  {
    MergeKeepsName(y, z);
    MergeItemAt(q, y, m);
    MergeItemAt(q, Merge(y, z), m);
    MergeKeepsName(q[m], y);
    UpdateKeepsUnique(q, m, Merge(q[m], y));
    MergeItemAt(q[m := Merge(q[m], y)], z, m);
  }

  lemma MergeTwiceFresh(q: seq<Value>, y: Value, z: Value)
    requires UniqueNames(q) && SameName(y, z) && ScalarName(y) && ScalarName(z)
    requires !HasMatch(q, y)
    ensures MergeItem(MergeItem(q, y), z) == MergeItem(q, Merge(y, z))
  {
    var w := Merge(y, z);
    MergeKeepsName(y, z);
    assert !HasMatch(q, w) by {
      forall j | 0 <= j < |q|
        ensures !SameName(q[j], w)
      {
        assert !SameName(q[j], y);
      }
    }
    AppendKeepsUnique(q, y);
    MergeItemAt(q + [y], z, |q|);
  }

  lemma AppendKeepsUnique(q: seq<Value>, y: Value)
    requires UniqueNames(q) && !HasMatch(q, y)
    ensures UniqueNames(q + [y])
  {
    var q' := q + [y];
    forall i, j | 0 <= i < j < |q'|
      ensures !SameName(q'[i], q'[j])
    {
      if j == |q| { assert !SameName(q[i], y); }
    }
  }

  lemma MergesCommute(q: seq<Value>, z: Value, y: Value)
    requires WellFormedItems(q) && ScalarName(z) && ScalarName(y)
    requires HasMatch(q, z) && !SameName(z, y)
    ensures MergeItem(MergeItem(q, z), y) == MergeItem(MergeItem(q, y), z)
  {
    var m :| 0 <= m < |q| && SameName(q[m], z);
    if HasMatch(q, y) {
      var l :| 0 <= l < |q| && SameName(q[l], y);
      MergesCommuteAt(q, z, y, m, l);
    } else {
      MergesCommuteFresh(q, z, y, m);
    }
  }

  lemma MergesCommuteAt(q: seq<Value>, z: Value, y: Value, m: nat, l: nat)
    requires UniqueNames(q) && ScalarName(z) && ScalarName(y)
    requires m < |q| && l < |q| && m != l && SameName(q[m], z) && SameName(q[l], y)
    ensures MergeItem(MergeItem(q, z), y) == MergeItem(MergeItem(q, y), z)
  {
    var qz, qy := q[m := Merge(q[m], z)], q[l := Merge(q[l], y)];
    MergeItemAt(q, z, m);
    MergeKeepsName(q[m], z);
    UpdateKeepsUnique(q, m, Merge(q[m], z));
    MergeItemAt(qz, y, l);
    MergeItemAt(q, y, l);
    MergeKeepsName(q[l], y);
    UpdateKeepsUnique(q, l, Merge(q[l], y));
    MergeItemAt(qy, z, m);
    assert qz[l := Merge(q[l], y)] == qy[m := Merge(q[m], z)];
  }

  lemma MergesCommuteFresh(q: seq<Value>, z: Value, y: Value, m: nat)
    requires UniqueNames(q) && ScalarName(z) && ScalarName(y)
    requires m < |q| && SameName(q[m], z) && !HasMatch(q, y) && !SameName(z, y)
    ensures MergeItem(MergeItem(q, z), y) == MergeItem(MergeItem(q, y), z)
  {
    var qz := q[m := Merge(q[m], z)];
    MergeItemAt(q, z, m);
    MergeKeepsName(q[m], z);
    assert !HasMatch(qz, y) by {
      forall j | 0 <= j < |qz|
        ensures !SameName(qz[j], y)
      {
        assert !SameName(q[j], y);
      }
    }
    AppendKeepsUnique(q, y);
    assert SameName((q + [y])[m], z);
    MergeItemAt(q + [y], z, m);
    assert (q + [y])[m := Merge(q[m], z)] == qz + [y];
  }

  lemma ItemsDoNotAssociate(xs: seq<Value>, ys: seq<Value>, zs: seq<Value>, i: nat, j: nat, l: nat)
    requires WellFormedItems(xs) && WellFormedItems(ys) && WellFormedItems(zs)
    requires i < |xs| && j < |ys| && l < |zs| && SameName(xs[i], zs[l]) && SameName(ys[j], zs[l])
    requires !Associates(xs[i], ys[j], zs[l])
    ensures MergeItems(MergeItems(xs, ys), zs) != MergeItems(xs, MergeItems(ys, zs))
  {
    var p := zs[l];
    AtUnique(xs, i, p);
    AtUnique(ys, j, p);
    AtUnique(zs, l, p);
    MergeItemsWellFormed(xs, ys);
    MergeItemsWellFormed(ys, zs);
    AtMergeItems(xs, ys, p);
    AtMergeItems(MergeItems(xs, ys), zs, p);
    AtMergeItems(ys, zs, p);
    AtMergeItems(xs, MergeItems(ys, zs), p);
  }

  /** Layers agree on the kind of value wherever both define one. */
  predicate KindCompatible(a: Value, b: Value)
    decreases b
  {
    SameKind(a, b)
    && (a.Obj? ==> forall k :: k in a.fields && k in b.fields ==> KindCompatible(a.fields[k], b.fields[k]))
    && (a.Arr? ==> forall i, j :: 0 <= i < |a.items| && 0 <= j < |b.items| && SameName(a.items[i], b.items[j]) ==>
                     KindCompatible(a.items[i], b.items[j]))
  }

  /** Layers that agree on kinds may be regrouped. */
  lemma CompatibleLayersAssociate(a: Value, b: Value, c: Value)
    requires WellFormed(a) && WellFormed(b) && WellFormed(c)
    requires KindCompatible(a, b) && KindCompatible(b, c)
    ensures Merge(Merge(a, b), c) == Merge(a, Merge(b, c))
  {
    CompatibleRegroups(a, b, c);
    AssociativeIff(a, b, c);
  }

  lemma {:induction false} CompatibleRegroups(a: Value, b: Value, c: Value)
    requires KindCompatible(a, b) && KindCompatible(b, c)
    ensures Regroups(a, b, c)
    decreases c
  {
    if a.Obj? {
      forall k | k in a.fields && k in b.fields && k in c.fields
        ensures Regroups(a.fields[k], b.fields[k], c.fields[k])
      {
        CompatibleRegroups(a.fields[k], b.fields[k], c.fields[k]);
      }
    } else if a.Arr? {
      forall i, j, l | 0 <= i < |a.items| && 0 <= j < |b.items| && 0 <= l < |c.items|
                       && SameName(a.items[i], c.items[l]) && SameName(b.items[j], c.items[l])
        ensures Regroups(a.items[i], b.items[j], c.items[l])
      {
        assert SameName(a.items[i], b.items[j]);
        CompatibleRegroups(a.items[i], b.items[j], c.items[l]);
      }
    }
  }

  lemma {:induction false} KindCompatibleSymmetric(a: Value, b: Value)
    requires KindCompatible(a, b)
    ensures KindCompatible(b, a)
    decreases b
  {
    if a.Obj? {
      forall k | k in a.fields && k in b.fields
        ensures KindCompatible(b.fields[k], a.fields[k])
      {
        KindCompatibleSymmetric(a.fields[k], b.fields[k]);
      }
    } else if a.Arr? {
      forall i, j | 0 <= i < |a.items| && 0 <= j < |b.items| && SameName(b.items[j], a.items[i])
        ensures KindCompatible(b.items[j], a.items[i])
      {
        KindCompatibleSymmetric(a.items[i], b.items[j]);
      }
    }
  }

  /** What agrees with two layers agrees with their merge. */
  lemma {:induction false} MergeKindCompatible(a: Value, b: Value, c: Value)
    requires WellFormed(a) && WellFormed(b)
    requires KindCompatible(a, b) && KindCompatible(a, c) && KindCompatible(b, c)
    ensures KindCompatible(Merge(a, b), c)
    decreases c
  {
    if a.Obj? {
      forall k | k in a.fields && k in b.fields && k in c.fields
        ensures KindCompatible(Merge(a.fields[k], b.fields[k]), c.fields[k])
      {
        MergeKindCompatible(a.fields[k], b.fields[k], c.fields[k]);
      }
    } else if a.Arr? {
      MergeItemsWellFormed(a.items, b.items);
      var rs := MergeItems(a.items, b.items);
      forall i, l | 0 <= i < |rs| && 0 <= l < |c.items| && SameName(rs[i], c.items[l])
        ensures KindCompatible(rs[i], c.items[l])
      {
        MergedItemCompatible(a, b, c, i, l);
      }
    }
  }

  lemma {:induction false} MergedItemCompatible(a: Value, b: Value, c: Value, i: nat, l: nat)
    requires a.Arr? && b.Arr? && c.Arr? && WellFormed(a) && WellFormed(b)
    requires KindCompatible(a, b) && KindCompatible(a, c) && KindCompatible(b, c)
    requires i < |MergeItems(a.items, b.items)| && l < |c.items|
            && SameName(MergeItems(a.items, b.items)[i], c.items[l])
    ensures KindCompatible(MergeItems(a.items, b.items)[i], c.items[l])
    decreases c, 0
  {
    var p := c.items[l];
    MergeItemsWellFormed(a.items, b.items);
    AtMergeItems(a.items, b.items, p);
    AtUnique(MergeItems(a.items, b.items), i, p);
    if At(a.items, p).Some? {
      var m := AtFound(a.items, p);
      if At(b.items, p).Some? {
        var n := AtFound(b.items, p);
        assert SameName(a.items[m], b.items[n]);
        MergeKindCompatible(a.items[m], b.items[n], p);
      }
    } else {
      var n := AtFound(b.items, p);
    }
  }

  function MergeLayers(vs: seq<Value>): Value
    requires vs != []
  {
    Layered(None, vs).value
  }

  lemma MergeLayersUnfold(vs: seq<Value>)
    requires vs != []
    ensures MergeLayers(vs) == if |vs| == 1 then vs[0] else Merge(MergeLayers(vs[..|vs| - 1]), vs[|vs| - 1])
  {
    if |vs| == 1 { assert Layered(None, vs[..0]) == None; }
  }

  predicate PairwiseCompatible(vs: seq<Value>) {
    (forall i :: 0 <= i < |vs| ==> WellFormed(vs[i]))
    && forall i, j :: 0 <= i < j < |vs| ==> KindCompatible(vs[i], vs[j])
  }

  lemma {:induction false} LayersCompatible(vs: seq<Value>, c: Value)
    requires vs != [] && PairwiseCompatible(vs)
    requires forall i :: 0 <= i < |vs| ==> KindCompatible(vs[i], c)
    ensures WellFormed(MergeLayers(vs)) && KindCompatible(MergeLayers(vs), c)
  {
    hide MergeLayers;
    MergeLayersUnfold(vs);
    var n := |vs| - 1;
    if n == 0 {
    } else {
      LayersCompatible(vs[..n], c);
      LayersCompatible(vs[..n], vs[n]);
      MergeWellFormed(MergeLayers(vs[..n]), vs[n]);
      MergeKindCompatible(MergeLayers(vs[..n]), vs[n], c);
    }
  }

  /** Layers that agree on kinds may be regrouped at any point of the stack. */
  lemma {:induction false} LayersRegroup(vs: seq<Value>, ws: seq<Value>)
    requires vs != [] && ws != [] && PairwiseCompatible(vs + ws)
    ensures MergeLayers(vs + ws) == Merge(MergeLayers(vs), MergeLayers(ws))
  {
    hide MergeLayers, KindCompatible, Merge;
    var n := |ws| - 1;
    var front, w := ws[..n], ws[n];
    assert vs + ws == (vs + front) + [w];
    MergeLayersUnfold(vs + ws);
    MergeLayersUnfold(ws);
    assert forall i :: 0 <= i < |vs| ==> (vs + ws)[i] == vs[i];
    assert forall i :: 0 <= i < |ws| ==> (vs + ws)[|vs| + i] == ws[i];
    if n > 0 {
      assert PairwiseCompatible(vs + front);
      LayersRegroup(vs, front);
      forall i | 0 <= i < |front|
        ensures KindCompatible(front[i], w)
      {
        assert KindCompatible((vs + ws)[|vs| + i], (vs + ws)[|vs| + n]);
      }
      CompatibleHalves(vs, front);
      LayersCompatible(front, w);
      CompatibleLayersAssociate(MergeLayers(vs), MergeLayers(front), w);
    } else {
      assert front == [] && vs + front == vs;
    }
  }

  lemma CompatibleHalves(vs: seq<Value>, ws: seq<Value>)
    requires vs != [] && ws != [] && PairwiseCompatible(vs + ws)
    ensures PairwiseCompatible(vs) && PairwiseCompatible(ws)
    ensures WellFormed(MergeLayers(vs)) && KindCompatible(MergeLayers(vs), MergeLayers(ws))
  {
    var all := vs + ws;
    assert forall i :: 0 <= i < |vs| ==> all[i] == vs[i];
    assert forall i :: 0 <= i < |ws| ==> all[|vs| + i] == ws[i];
    forall i, j | 0 <= i < j < |ws|
      ensures KindCompatible(ws[i], ws[j])
    {
      assert KindCompatible(all[|vs| + i], all[|vs| + j]);
    }
    forall i, j | 0 <= i < |vs| && 0 <= j < |ws|
      ensures KindCompatible(vs[i], ws[j])
    {
      assert KindCompatible(all[i], all[|vs| + j]);
    }
    forall j | 0 <= j < |ws|
      ensures KindCompatible(ws[j], MergeLayers(vs))
    {
      LayersCompatible(vs, ws[j]);
      KindCompatibleSymmetric(MergeLayers(vs), ws[j]);
    }
    LayersCompatible(vs, ws[0]);
    LayersCompatible(ws, MergeLayers(vs));
    KindCompatibleSymmetric(MergeLayers(ws), MergeLayers(vs));
  }

  /** A scalar between two maps: regrouping resurrects what the scalar had overridden. */
  lemma SandwichedScalarBreaksRegrouping()
    ensures exists a, b, c :: WellFormed(a) && WellFormed(b) && WellFormed(c) && !Associates(a, b, c)
  {
    var a := Obj(map[Str("host") := Leaf(Str("db"))]);
    var b := Leaf(Str("off"));
    var c := Obj(map[Str("port") := Leaf(Int(80))]);
    assert Str("host") in Merge(a, Merge(b, c)).fields;
    assert !Associates(a, b, c);
  }

  // ----- Applying a layer twice -----

  /** Every array, at any depth, holds maps only. */
  predicate ArraysOfMaps(v: Value) {
    match v
    case Leaf(_) => true
    case Arr(items) => forall i :: 0 <= i < |items| ==> items[i].Obj? && ArraysOfMaps(items[i])
    case Obj(fields) => forall k :: k in fields ==> ArraysOfMaps(fields[k])
  }

  predicate Absorbs(a: Value, b: Value) {
    Merge(Merge(a, b), b) == Merge(a, b)
  }

  /** Applying the same layer again changes nothing exactly when its arrays hold maps only: a bare scalar or a
      nested array is appended once more each time. */
  lemma {:induction false} IdempotentIff(a: Value, b: Value)
    requires WellFormed(a) && WellFormed(b)
    ensures Absorbs(a, b) <==> ArraysOfMaps(b)
    decreases b
  {
    match b
    case Leaf(_) =>
    case Arr(ys) =>
      var xs := if a.Arr? then a.items else [];
      ArrayIdempotentIff(xs, ys);
      EmptyMergeItems(ys);
      if !a.Arr? {
        assert Merge(a, b) == b == Arr(MergeItems([], ys));
      }
    case Obj(fields) =>
      forall k | k in fields
        ensures Absorbs(if a.Obj? && k in a.fields then a.fields[k] else Leaf(Null), fields[k]) <==>
                ArraysOfMaps(fields[k])
      {
        IdempotentIff(if a.Obj? && k in a.fields then a.fields[k] else Leaf(Null), fields[k]);
      }
      ObjectIdempotent(a, b);
  }

  lemma ObjectIdempotent(a: Value, b: Value)
    requires b.Obj?
    ensures Absorbs(a, b) <==>
            forall k :: k in b.fields ==>
              Absorbs(if a.Obj? && k in a.fields then a.fields[k] else Leaf(Null), b.fields[k])
  {
    var once := Merge(a, b);
    var twice := Merge(once, b);
    assert once.fields.Keys == twice.fields.Keys;
    forall k | k in b.fields
      ensures once.fields[k] == twice.fields[k] <==>
              Absorbs(if a.Obj? && k in a.fields then a.fields[k] else Leaf(Null), b.fields[k])
    {
      assert twice.fields[k] == Merge(once.fields[k], b.fields[k]);
    }
    if forall k :: k in b.fields ==> once.fields[k] == twice.fields[k] {
      assert once.fields == twice.fields;
    }
  }

  /** With distinct names, merging into the empty array just copies. */
  lemma {:induction false} EmptyMergeItems(ys: seq<Value>)
    requires UniqueNames(ys)
    ensures MergeItems([], ys) == ys
  {
    if ys == [] {
    } else {
      var n := |ys| - 1;
      var front, y := ys[..n], ys[n];
      EmptyMergeItems(front);
      assert !HasMatch(front, y) by {
        forall j | 0 <= j < n
          ensures !SameName(front[j], y)
        {
          assert !SameName(ys[j], ys[n]);
        }
      }
      assert ys == front + [y];
      MergeItemsSnoc([], front, y);
    }
  }

  lemma {:induction false} ArrayIdempotentIff(xs: seq<Value>, ys: seq<Value>)
    requires WellFormedItems(xs) && WellFormedItems(ys)
    ensures MergeItems(MergeItems(xs, ys), ys) == MergeItems(xs, ys) <==> ArraysOfMaps(Arr(ys))
    decreases ys
  {
    var q := MergeItems(xs, ys);
    MergeItemsWellFormed(xs, ys);
    forall j | 0 <= j < |ys| && ys[j].Obj?
      ensures At(q, ys[j]).Some?
      ensures Merge(At(q, ys[j]).value, ys[j]) == At(q, ys[j]).value <==> ArraysOfMaps(ys[j])
    {
      var y := ys[j];
      AtMergeItems(xs, ys, y);
      AtUnique(ys, j, y);
      IdempotentIff(if At(xs, y).Some? then AtValue(xs, y) else Leaf(Null), y);
    }
    if ArraysOfMaps(Arr(ys)) {
      AbsorbItems(q, ys);
    } else if forall j :: 0 <= j < |ys| ==> ys[j].Obj? {
      var j :| 0 <= j < |ys| && !ArraysOfMaps(ys[j]);
      AtMergeItems(q, ys, ys[j]);
      AtUnique(ys, j, ys[j]);
    } else {
      MergeItemsGrows(q, ys);
    }
  }

  function AtValue(xs: seq<Value>, p: Value): (v: Value)
    requires WellFormedItems(xs) && At(xs, p).Some?
    ensures WellFormed(v)
  {
    AtWellFormed(xs, p);
    At(xs, p).value
  }

  lemma AtWellFormed(xs: seq<Value>, p: Value)
    requires WellFormedItems(xs) && At(xs, p).Some?
    ensures WellFormed(At(xs, p).value)
  {
    var m := AtFound(xs, p);
  }

  lemma {:induction false} AbsorbItems(q: seq<Value>, ys: seq<Value>)
    requires WellFormedItems(q)
    requires forall j :: 0 <= j < |ys| ==> At(q, ys[j]).Some? && Merge(At(q, ys[j]).value, ys[j]) == At(q, ys[j]).value
    ensures MergeItems(q, ys) == q
  {
    if ys == [] {
    } else {
      var n := |ys| - 1;
      AbsorbItems(q, ys[..n]);
      var m := AtFound(q, ys[n]);
      MergeItemAt(q, ys[n], m);
    }
  }

  lemma {:induction false} MergeItemsGrows(xs: seq<Value>, ys: seq<Value>)
    ensures |xs| <= |MergeItems(xs, ys)|
    ensures (exists j :: 0 <= j < |ys| && !ys[j].Obj?) ==> |xs| < |MergeItems(xs, ys)|
  {
    if ys == [] {
    } else {
      MergeItemsGrows(xs, ys[..|ys| - 1]);
    }
  }
}
