/** Parsed configuration values and the deep merge that layers them.

    `Merge` is the value-level meaning of the operator's in-place merge: maps merge by key, arrays merge
    their map elements by the "name" entry, and everything else is replaced or appended. */
module ConfigValues {
  import opened Basics

  /** The atoms a YAML document decodes to; they are also the only legal map keys. */
  datatype Scalar = Null | Bool(b: bool) | Int(i: int) | Float(r: real) | Str(s: string)

  datatype Value = Leaf(scalar: Scalar) | Arr(items: seq<Value>) | Obj(fields: map<Scalar, Value>)

  const NAME: Scalar := Str("name")

  /** A missing entry reads as null, so two maps without a name have the same name. */
  function NameOf(v: Value): Value
    requires v.Obj?
  {
    if NAME in v.fields then v.fields[NAME] else Leaf(Null)
  }

  predicate SameName(x: Value, y: Value) {
    x.Obj? && y.Obj? && NameOf(x) == NameOf(y)
  }

  predicate SameKind(x: Value, y: Value) {
    (x.Leaf? && y.Leaf?) || (x.Arr? && y.Arr?) || (x.Obj? && y.Obj?)
  }

  predicate HasMatch(xs: seq<Value>, y: Value) {
    exists j :: 0 <= j < |xs| && SameName(xs[j], y)
  }

  // ----- The deep merge -----

  function Merge(a: Value, b: Value): Value
    decreases b, 0
  {
    if a.Arr? && b.Arr? then
      Arr(MergeItems(a.items, b.items))
    else if a.Obj? && b.Obj? then
      Obj(map k | k in a.fields.Keys + b.fields.Keys ::
            if k !in b.fields then a.fields[k]
            else if k !in a.fields then b.fields[k]
            else Merge(a.fields[k], b.fields[k]))
    else
      b
  }

  /** The elements of `ys` are taken one by one, so each sees what the earlier ones appended. */
  function MergeItems(xs: seq<Value>, ys: seq<Value>): seq<Value>
    decreases ys, 2
  {
    if ys == [] then xs else MergeItem(MergeItems(xs, ys[..|ys| - 1]), ys[|ys| - 1])
  }

  /** A map element is merged into every element of that name; anything without a match is appended. */
  function MergeItem(xs: seq<Value>, y: Value): seq<Value>
    decreases y, 1
  {
    if HasMatch(xs, y) then
      seq(|xs|, j requires 0 <= j < |xs| => if SameName(xs[j], y) then Merge(xs[j], y) else xs[j])
    else
      xs + [y]
  }

  /** Maps with the same scalar under `name`, or both without one, become one element; with different scalars they stay
      two. */
  lemma NameDecides(x: Value, y: Value)
    requires x.Obj? && y.Obj?
    requires Str("name") in x.fields ==> x.fields[Str("name")].Leaf?
    requires Str("name") in y.fields ==> y.fields[Str("name")].Leaf?
    ensures var a := if Str("name") in x.fields then x.fields[Str("name")].scalar else Null;
            var b := if Str("name") in y.fields then y.fields[Str("name")].scalar else Null;
            Merge(Arr([x]), Arr([y])) == Arr(if a == b then [Merge(x, y)] else [x, y])
  {
    assert [y][..0] == [] && MergeItems([x], []) == [x];
    assert MergeItems([x], [y]) == MergeItem([x], y);
    assert HasMatch([x], y) <==> SameName([x][0], y);
    hide Merge;
    if SameName(x, y) {
      assert MergeItem([x], y) == [Merge(x, y)];
    }
  }

  /** Maps merge by key, and what is not a pair of maps or of arrays gives way to the newer value. */
  lemma FieldsDecide(a: map<Scalar, Value>, b: map<Scalar, Value>, k: Scalar)
    ensures var fields := Merge(Obj(a), Obj(b)).fields;
            (k in fields <==> k in a || k in b)
            && (k in a && k !in b ==> fields[k] == a[k])
            && (k in b && (k !in a || !SameKind(a[k], b[k]) || b[k].Leaf?) ==> fields[k] == b[k])
            && (k in a && k in b && SameKind(a[k], b[k]) ==> fields[k] == Merge(a[k], b[k]))
  {
  }

  // ----- Well-formed values -----

  predicate UniqueNames(xs: seq<Value>) {
    forall i, j :: 0 <= i < j < |xs| ==> !SameName(xs[i], xs[j])
  }

  /** Comparing two names that are maps or arrays panics, so names are scalars. */
  predicate ScalarName(v: Value) {
    v.Obj? ==> NameOf(v).Leaf?
  }

  /** Within each array the maps have scalar names (or none), and no two share a name. */
  predicate WellFormed(v: Value)
    decreases v, 0
  {
    match v
    case Leaf(_) => true
    case Arr(items) => WellFormedItems(items)
    case Obj(fields) => forall k :: k in fields ==> WellFormed(fields[k])
  }

  predicate WellFormedItems(xs: seq<Value>)
    decreases xs, 1
  {
    UniqueNames(xs) && forall i :: 0 <= i < |xs| ==> ScalarName(xs[i]) && WellFormed(xs[i])
  }

  // ----- Values that can be merged in place -----

  /** Two names can be compared; Go panics on two arrays or two maps. */
  predicate Comparable(x: Value, y: Value) {
    x.Obj? && y.Obj? ==> NameOf(x).Leaf? || !SameKind(NameOf(x), NameOf(y))
  }

  /** A map of atoms; nothing in it can be shared. */
  predicate Flat(v: Value) {
    v.Obj? && forall k :: k in v.fields ==> v.fields[k].Leaf?
  }

  /** No nested value of `b` would be merged into several maps of the same name, and all names that meet can be
      compared. Arrays that are not merged into may repeat names, and a map of atoms may meet any number of namesakes.
      */
  predicate Mergeable(a: Value, b: Value)
    decreases b, 0
  {
    if a.Arr? && b.Arr? then MergeableItems(a.items, b.items)
    else if a.Obj? && b.Obj? then
      forall k :: k in a.fields && k in b.fields ==> Mergeable(a.fields[k], b.fields[k])
    else true
  }

  predicate MergeableItems(xs: seq<Value>, ys: seq<Value>)
    decreases ys, 2
  {
    ys != [] ==>
      MergeableItems(xs, ys[..|ys| - 1]) && MergeableItem(MergeItems(xs, ys[..|ys| - 1]), ys[|ys| - 1])
  }

  predicate MergeableItem(xs: seq<Value>, y: Value)
    decreases y, 1
  {
    (forall j :: 0 <= j < |xs| ==> Comparable(xs[j], y) && (SameName(xs[j], y) ==> Mergeable(xs[j], y)))
    && (Flat(y) || OneNamesake(xs, y))
  }

  predicate OneNamesake(xs: seq<Value>, y: Value) {
    forall i, j :: 0 <= i < j < |xs| ==> !(SameName(xs[i], y) && SameName(xs[j], y))
  }

  lemma {:induction false} MergeablePrefix(xs: seq<Value>, ys: seq<Value>, i: nat)
    requires MergeableItems(xs, ys) && i < |ys|
    ensures MergeableItem(MergeItems(xs, ys[..i]), ys[i])
  {
    var n := |ys| - 1;
    if i < n {
      MergeablePrefix(xs, ys[..n], i);
      assert ys[..n][..i] == ys[..i];
    }
  }

  /** Well-formed values can always be merged. */
  lemma {:induction false} WellFormedMergeable(a: Value, b: Value)
    requires WellFormed(a) && WellFormed(b)
    ensures Mergeable(a, b)
    decreases b, 0
  {
    if a.Arr? && b.Arr? {
      WellFormedMergeableItems(a.items, b.items);
    } else if a.Obj? && b.Obj? {
      forall k | k in a.fields && k in b.fields
        ensures Mergeable(a.fields[k], b.fields[k])
      {
        WellFormedMergeable(a.fields[k], b.fields[k]);
      }
    }
  }

  lemma {:induction false} WellFormedMergeableItems(xs: seq<Value>, ys: seq<Value>)
    requires WellFormedItems(xs) && WellFormedItems(ys)
    ensures MergeableItems(xs, ys)
    decreases ys, 1
  {
    if ys == [] {
    } else {
      var front, y := ys[..|ys| - 1], ys[|ys| - 1];
      WellFormedMergeableItems(xs, front);
      MergeItemsWellFormed(xs, front);
      var q := MergeItems(xs, front);
      forall j | 0 <= j < |q| && SameName(q[j], y)
        ensures Mergeable(q[j], y)
      {
        WellFormedMergeable(q[j], y);
      }
      NamesakesMeetOnce(q, y);
    }
  }

  lemma NamesakesMeetOnce(xs: seq<Value>, y: Value)
    requires UniqueNames(xs)
    ensures OneNamesake(xs, y)
  {
    forall i, j | 0 <= i < j < |xs| && SameName(xs[i], y)
      ensures !SameName(xs[j], y)
    {
      assert !SameName(xs[i], xs[j]);
    }
  }

  // ----- One element at a time -----

  /** With unique names the scan changes exactly the one matching element. */
  lemma MergeItemAt(xs: seq<Value>, y: Value, m: nat)
    requires UniqueNames(xs) && m < |xs| && SameName(xs[m], y)
    ensures MergeItem(xs, y) == xs[m := Merge(xs[m], y)]
  {
    forall j | 0 <= j < |xs| && j != m
      ensures !SameName(xs[j], y)
    {
      if SameName(xs[j], y) {
        if j < m { assert SameName(xs[j], xs[m]); } else { assert SameName(xs[m], xs[j]); }
      }
    }
  }

  lemma MergeKeepsName(x: Value, y: Value)
    requires SameName(x, y) && ScalarName(y)
    ensures SameName(Merge(x, y), x) && SameName(Merge(x, y), y) && ScalarName(Merge(x, y))
  {
  }

  lemma MergeItemsSnoc(xs: seq<Value>, ys: seq<Value>, y: Value)
    ensures MergeItems(xs, ys + [y]) == MergeItem(MergeItems(xs, ys), y)
  {
    assert (ys + [y])[..|ys|] == ys;
  }

  lemma UpdateKeepsUnique(xs: seq<Value>, m: nat, v: Value)
    requires UniqueNames(xs) && m < |xs| && SameName(v, xs[m])
    ensures UniqueNames(xs[m := v])
  {
    var us := xs[m := v];
    forall i, j | 0 <= i < j < |us|
      ensures !SameName(us[i], us[j])
    {
      assert !SameName(xs[i], xs[j]);
    }
  }

  // ----- The merge preserves well-formedness -----

  lemma {:induction false} MergeWellFormed(a: Value, b: Value)
    requires WellFormed(a) && WellFormed(b)
    ensures WellFormed(Merge(a, b))
    decreases b, 0
  {
    if a.Arr? && b.Arr? {
      MergeItemsWellFormed(a.items, b.items);
    } else if a.Obj? && b.Obj? {
      forall k | k in a.fields && k in b.fields
        ensures WellFormed(Merge(a.fields[k], b.fields[k]))
      {
        MergeWellFormed(a.fields[k], b.fields[k]);
      }
    }
  }

  lemma {:induction false} MergeItemsWellFormed(xs: seq<Value>, ys: seq<Value>)
    requires WellFormedItems(xs) && WellFormedItems(ys)
    ensures WellFormedItems(MergeItems(xs, ys))
    decreases ys, 2
  {
    if ys == [] {
    } else {
      var front, y := ys[..|ys| - 1], ys[|ys| - 1];
      MergeItemsWellFormed(xs, front);
      MergeItemWellFormed(MergeItems(xs, front), y);
    }
  }

  lemma {:induction false} MergeItemWellFormed(xs: seq<Value>, y: Value)
    requires WellFormedItems(xs) && ScalarName(y) && WellFormed(y)
    ensures WellFormedItems(MergeItem(xs, y))
    decreases y, 1
  {
    if HasMatch(xs, y) {
      var m :| 0 <= m < |xs| && SameName(xs[m], y);
      MergeItemAt(xs, y, m);
      MergeWellFormed(xs[m], y);
      MergeKeepsName(xs[m], y);
      UpdateKeepsUnique(xs, m, Merge(xs[m], y));
    }
  }

  // ----- Looking an element up by name -----

  /** The element of `xs` with the name of `p`. */
  function At(xs: seq<Value>, p: Value): Option<Value> {
    if xs == [] then None
    else if SameName(xs[|xs| - 1], p) then Some(xs[|xs| - 1])
    else At(xs[..|xs| - 1], p)
  }

  lemma {:induction false} AtFound(xs: seq<Value>, p: Value) returns (m: nat)
    requires At(xs, p).Some?
    ensures m < |xs| && xs[m] == At(xs, p).value && SameName(xs[m], p)
  {
    m := |xs| - 1;
    if !SameName(xs[m], p) {
      m := AtFound(xs[..m], p);
    }
  }

  lemma {:induction false} AtUnique(xs: seq<Value>, m: nat, p: Value)
    requires UniqueNames(xs) && m < |xs| && SameName(xs[m], p)
    ensures At(xs, p) == Some(xs[m])
  {
    var n := |xs| - 1;
    if m < n {
      assert !SameName(xs[m], xs[n]);
      AtUnique(xs[..n], m, p);
    }
  }

  lemma AtMissing(xs: seq<Value>, p: Value)
    ensures HasMatch(xs, p) <==> At(xs, p).Some?
  {
    if At(xs, p).Some? {
      var m := AtFound(xs, p);
    } else if HasMatch(xs, p) {
      var m :| 0 <= m < |xs| && SameName(xs[m], p);
      AtNoneAt(xs, p, m);
    }
  }

  lemma {:induction false} AtNoneAt(xs: seq<Value>, p: Value, m: nat)
    requires At(xs, p).None? && m < |xs|
    ensures !SameName(xs[m], p)
  {
    if m < |xs| - 1 {
      AtNoneAt(xs[..|xs| - 1], p, m);
    }
  }

  lemma AtAppend(xs: seq<Value>, y: Value, p: Value)
    ensures At(xs + [y], p) == if SameName(y, p) then Some(y) else At(xs, p)
  {
    assert (xs + [y])[..|xs|] == xs;
  }

  lemma {:induction false} AtUpdate(xs: seq<Value>, m: nat, v: Value, p: Value)
    requires UniqueNames(xs) && m < |xs| && SameName(v, xs[m])
    ensures At(xs[m := v], p) == if SameName(v, p) then Some(v) else At(xs, p)
  {
    var n := |xs| - 1;
    if SameName(v, p) {
      UpdateKeepsUnique(xs, m, v);
      AtUnique(xs[m := v], m, p);
    } else if m < n {
      AtUpdate(xs[..n], m, v, p);
      assert xs[m := v][..n] == xs[..n][m := v];
    } else {
      assert xs[m := v][..n] == xs[..n];
    }
  }

  lemma NoEarlierNamesake(zs: seq<Value>, p: Value)
    requires UniqueNames(zs) && zs != [] && SameName(zs[|zs| - 1], p)
    ensures At(zs[..|zs| - 1], p).None?
  {
    var n := |zs| - 1;
    forall m | 0 <= m < n
      ensures !SameName(zs[..n][m], p)
    {
      assert !SameName(zs[m], zs[n]);
    }
    AtMissing(zs[..n], p);
  }

  function MergeOption(x: Option<Value>, y: Option<Value>): Option<Value> {
    if x.Some? && y.Some? then Some(Merge(x.value, y.value)) else if y.Some? then y else x
  }

  lemma AtMergeItem(xs: seq<Value>, y: Value, p: Value)
    requires WellFormedItems(xs) && ScalarName(y) && p.Obj?
    ensures At(MergeItem(xs, y), p) == if SameName(y, p) then MergeOption(At(xs, p), Some(y)) else At(xs, p)
  {
    if HasMatch(xs, y) {
      var m :| 0 <= m < |xs| && SameName(xs[m], y);
      MergeItemAt(xs, y, m);
      MergeKeepsName(xs[m], y);
      AtUpdate(xs, m, Merge(xs[m], y), p);
      if SameName(y, p) {
        AtUnique(xs, m, p);
      }
    } else {
      AtAppend(xs, y, p);
      if SameName(y, p) {
        AtMissing(xs, p);
      }
    }
  }

  /** After an array merge, the map of a given name is the merge of the two maps of that name. */
  lemma {:induction false} AtMergeItems(xs: seq<Value>, ys: seq<Value>, p: Value)
    requires WellFormedItems(xs) && WellFormedItems(ys) && p.Obj?
    ensures At(MergeItems(xs, ys), p) == MergeOption(At(xs, p), At(ys, p))
  {
    if ys == [] {
    } else {
      var n := |ys| - 1;
      var front, y := ys[..n], ys[n];
      AtMergeItems(xs, front, p);
      MergeItemsWellFormed(xs, front);
      AtMergeItem(MergeItems(xs, front), y, p);
      if SameName(y, p) {
        NoEarlierNamesake(ys, p);
      }
    }
  }

  // ----- Stacks of layers -----

  function LayerOn(base: Option<Value>, v: Value): Option<Value> {
    MergeOption(base, Some(v))
  }

  /** The values merged from the left onto `base`. */
  function Layered(base: Option<Value>, vs: seq<Value>): (r: Option<Value>)
    ensures vs != [] ==> r.Some?
  {
    if vs == [] then base else LayerOn(Layered(base, vs[..|vs| - 1]), vs[|vs| - 1])
  }

  lemma LayeredSnoc(base: Option<Value>, vs: seq<Value>, v: Value)
    ensures Layered(base, vs + [v]) == LayerOn(Layered(base, vs), v)
  {
    assert (vs + [v])[..|vs|] == vs;
  }

  lemma {:induction false} LayeredConcat(base: Option<Value>, vs: seq<Value>, ws: seq<Value>)
    ensures Layered(base, vs + ws) == Layered(Layered(base, vs), ws)
  {
    if ws == [] {
      assert vs + ws == vs;
    } else {
      var n := |ws| - 1;
      LayeredConcat(base, vs, ws[..n]);
      assert vs + ws == (vs + ws[..n]) + [ws[n]];
      LayeredSnoc(base, vs + ws[..n], ws[n]);
    }
  }

  /** The values can be merged in place, one after the other. */
  predicate CanLayer(base: Option<Value>, v: Value) {
    base.Some? ==> Mergeable(base.value, v)
  }

  predicate CanStack(base: Option<Value>, vs: seq<Value>) {
    vs != [] ==>
      CanStack(base, vs[..|vs| - 1]) && CanLayer(Layered(base, vs[..|vs| - 1]), vs[|vs| - 1])
  }

  lemma CanStackLast(base: Option<Value>, vs: seq<Value>, v: Value)
    requires CanStack(base, vs + [v])
    ensures CanStack(base, vs) && CanLayer(Layered(base, vs), v)
  {
    assert (vs + [v])[..|vs|] == vs;
  }

  lemma {:induction false} CanStackConcat(base: Option<Value>, vs: seq<Value>, ws: seq<Value>)
    ensures CanStack(base, vs + ws) <==> CanStack(base, vs) && CanStack(Layered(base, vs), ws)
  {
    if ws == [] {
      assert vs + ws == vs;
    } else {
      var n := |ws| - 1;
      CanStackConcat(base, vs, ws[..n]);
      LayeredConcat(base, vs, ws[..n]);
      assert (vs + ws)[..|vs + ws| - 1] == vs + ws[..n];
    }
  }

  /** Well-formed values can always be stacked. */
  lemma {:induction false} WellFormedCanStack(base: Option<Value>, vs: seq<Value>)
    requires base.Some? ==> WellFormed(base.value)
    requires forall i :: 0 <= i < |vs| ==> WellFormed(vs[i])
    ensures CanStack(base, vs) && (Layered(base, vs).Some? ==> WellFormed(Layered(base, vs).value))
  {
    if vs == [] {
    } else {
      var n := |vs| - 1;
      WellFormedCanStack(base, vs[..n]);
      if below :| Layered(base, vs[..n]) == Some(below) {
        WellFormedMergeable(below, vs[n]);
        MergeWellFormed(below, vs[n]);
      }
    }
  }
}
