/** The configuration data collected for one assignment: a Go map from key to a parsed object, on the heap. */
module ConfigStore {
  import opened ConfigValues
  import opened ConfigLayout
  import opened ConfigHeap

  // ----- One entry -----

  /** Adds an object under a key, merging it in place into what the key holds already. */
  method PutField(dst: Dict, k: Scalar, n: Node, ghost cur: map<Scalar, Layout>, ghost t: Layout)
    returns (ghost after: map<Scalar, Layout>)
    requires Represents(Table(dst), TableAt(dst, cur)) && Represents(n, t)
    requires Foot(t) !! Foot(TableAt(dst, cur)) && (k in cur ==> Mergeable(Denote(cur[k]), Denote(t)))
    modifies Foot(TableAt(dst, cur)) + Foot(t)
    ensures Represents(Table(dst), TableAt(dst, after))
    ensures Foot(TableAt(dst, after)) <= Foot(TableAt(dst, cur)) + Foot(t)
    ensures Denote(TableAt(dst, after)).Obj? && Denote(TableAt(dst, cur)).Obj?
    ensures Denote(TableAt(dst, after)).fields == Put(Denote(TableAt(dst, cur)).fields, k, Denote(t))
  {
    PutReady(dst, cur, k, n, t);
    ghost var written := {dst} + (if k in cur then Foot(cur[k]) else {}) + Foot(t);
    hide *;
    label Before:
    ghost var merged := t;
    var r := n;
    if k in dst.fields {
      r, merged := MergeObjects(dst.fields[k], n, cur[k], t);
    }
    PutMerged(dst, cur, k, r, merged, t);
    OthersFrame@Before(TableAt(dst, cur), k, written - {dst});
    SetField(dst, k, r, cur, merged, written);
    after := cur[k := merged];
    PutShape(dst, cur, k, merged, t);
    PutValue(dst, cur, k, merged, t);
    PutDone(dst, after);
  }

  lemma PutReady(dst: Dict, cur: map<Scalar, Layout>, k: Scalar, n: Node, t: Layout)
    requires Represents(Table(dst), TableAt(dst, cur)) && Represents(n, t) && Foot(t) !! Foot(TableAt(dst, cur))
    ensures var written := {dst} + (if k in cur then Foot(cur[k]) else {}) + Foot(t);
            OthersOutside(cur, k, written) && OthersOutside(cur, k, written - {dst})
            && written <= Foot(TableAt(dst, cur)) + Foot(t)
            && (k in cur ==> Touched(cur[k], t) <= written - {dst})
    ensures OthersStored(TableAt(dst, cur), k) && dst.fields.Keys == cur.Keys && dst !in Foot(t)
    ensures k in cur ==> Represents(dst.fields[k], cur[k]) && Foot(cur[k]) !! Foot(t) && dst !in Foot(cur[k])
    ensures n == Root(t) && Stored(t) && Unshared(t) && Unshared(TableAt(dst, cur))
  {
    FootChildren(TableAt(dst, cur));
  }

  lemma PutMerged(dst: Dict, cur: map<Scalar, Layout>, k: Scalar, r: Node, merged: Layout, t: Layout)
    requires dst !in Foot(t) && (k in cur ==> dst !in Foot(cur[k]))
    requires if k in cur then Represents(r, merged) && Foot(merged) <= Foot(cur[k]) + Foot(t)
             else r == Root(merged) && Stored(merged) && Unshared(merged) && merged == t
    ensures r == Root(merged) && Stored(merged) && Unshared(merged) && dst !in Foot(merged)
    ensures Foot(merged) <= (if k in cur then Foot(cur[k]) else {}) + Foot(t)
  {
  }

  lemma PutDone(dst: Dict, after: map<Scalar, Layout>)
    requires Stored(TableAt(dst, after)) && Unshared(TableAt(dst, after))
    ensures Represents(Table(dst), TableAt(dst, after))
  {
  }

  function Put(data: map<Scalar, Value>, k: Scalar, v: Value): map<Scalar, Value> {
    data[k := if k in data then Merge(data[k], v) else v]
  }

  lemma PutShape(dst: Dict, cur: map<Scalar, Layout>, k: Scalar, merged: Layout, t: Layout)
    requires Unshared(TableAt(dst, cur)) && Unshared(merged) && Foot(t) !! Foot(TableAt(dst, cur))
    requires Foot(merged) <= (if k in cur then Foot(cur[k]) else {}) + Foot(t)
    ensures Unshared(TableAt(dst, cur[k := merged]))
    ensures Foot(TableAt(dst, cur[k := merged])) <= Foot(TableAt(dst, cur)) + Foot(t)
  {
    FootChildren(TableAt(dst, cur));
  }

  lemma PutValue(dst: Dict, cur: map<Scalar, Layout>, k: Scalar, merged: Layout, t: Layout)
    requires Denote(merged) == if k in cur then Merge(Denote(cur[k]), Denote(t)) else Denote(t)
    ensures Denote(TableAt(dst, cur[k := merged])).Obj? && Denote(TableAt(dst, cur)).Obj?
    ensures Denote(TableAt(dst, cur[k := merged])).fields == Put(Denote(TableAt(dst, cur)).fields, k, Denote(t))
  {
    hide Merge;
    var data := Denote(TableAt(dst, cur)).fields;
    var after := Denote(TableAt(dst, cur[k := merged])).fields;
    assert k in cur ==> data[k] == Denote(cur[k]);
    assert after == Put(data, k, Denote(t));
  }

  // ----- Fresh objects, as the YAML decoder returns them -----

  method Materialize(v: Value) returns (n: Node, ghost t: Layout)
    ensures Represents(n, t) && Denote(t) == v && fresh(Foot(t))
    decreases v, 1
  {
    match v
    case Leaf(s) =>
      n, t := Atom(s), AtomAt(s);
    case Arr(items) =>
      var slice;
      slice, t := MaterializeItems(items);
      n := List(slice);
    case Obj(_) =>
      var dict;
      dict, t := MaterializeFields(v);
      n := Table(dict);
  }

  method MaterializeItems(items: seq<Value>) returns (slice: Slice, ghost t: Layout)
    ensures Root(t) == List(slice) && Stored(t) && Unshared(t) && Denote(t) == Arr(items) && fresh(Foot(t))
    decreases items, 0
  {
    hide Denote, Foot, Stored, Unshared;
    slice := new Slice([]);
    ghost var lays: seq<Layout> := [];
    EmptyList(slice);
    var i := 0;
    while i < |items|
      invariant 0 <= i <= |items|
      invariant Stored(ListAt(slice, lays)) && Unshared(ListAt(slice, lays))
      invariant DenoteItems(lays) == items[..i]
      invariant fresh(Foot(ListAt(slice, lays)))
    {
      label L:
      ghost var before := ListAt(slice, lays);
      var n;
      ghost var t;
      n, t := Materialize(items[i]);
      FootAllocated@L(before);
      StoredFrame@L(before);
      Append(slice, n, lays, t);
      UnsharedAppend(slice, lays, t);
      lays := lays + [t];
      i := i + 1;
    }
    assert items[..i] == items;
    DenoteList(slice, lays);
    t := ListAt(slice, lays);
  }

  method MaterializeFields(v: Value) returns (dict: Dict, ghost t: Layout)
    requires v.Obj?
    ensures Root(t) == Table(dict) && Stored(t) && Unshared(t) && Denote(t) == v && fresh(Foot(t))
    decreases v, 0
  {
    assert Visited(v.fields, v.fields.Keys) == map[] && Visited(v.fields, {}) == v.fields;
    hide Denote, Foot, Stored, Unshared, Merge, Mergeable, Put;
    dict := new Dict(map[]);
    ghost var lays: map<Scalar, Layout> := map[];
    var pending := v.fields.Keys;
    EmptyTable(dict);
    while pending != {}
      invariant pending <= v.fields.Keys
      invariant Represents(Table(dict), TableAt(dict, lays)) && fresh(Foot(TableAt(dict, lays)))
      invariant Denote(TableAt(dict, lays)).Obj?
      invariant Denote(TableAt(dict, lays)).fields == Visited(v.fields, pending)
    {
      var k :| k in pending;
      label L:
      ghost var before := TableAt(dict, lays);
      var n;
      ghost var f;
      n, f := Materialize(v.fields[k]);
      FootAllocated@L(before);
      StoredFrame@L(before);
      TableFields(dict, lays);
      lays := PutField(dict, k, n, lays, f);
      VisitedStep(v.fields, pending, k);
      pending := pending - {k};
    }
    t := TableAt(dict, lays);
  }

  lemma TableFields(dict: Dict, lays: map<Scalar, Layout>)
    ensures Denote(TableAt(dict, lays)).Obj? && Denote(TableAt(dict, lays)).fields.Keys == lays.Keys
    ensures forall k :: k in lays ==> Denote(TableAt(dict, lays)).fields[k] == Denote(lays[k])
  {
  }

  function Visited(fields: map<Scalar, Value>, pending: set<Scalar>): map<Scalar, Value> {
    map k | k in fields && k !in pending :: fields[k]
  }

  lemma VisitedStep(fields: map<Scalar, Value>, pending: set<Scalar>, k: Scalar)
    requires k in pending && k in fields
    ensures Put(Visited(fields, pending), k, fields[k]) == Visited(fields, pending - {k})
  {
  }

  lemma EmptyList(slice: Slice)
    requires slice.items == []
    ensures Stored(ListAt(slice, [])) && Unshared(ListAt(slice, [])) && Foot(ListAt(slice, [])) == {slice}
  {
  }

  lemma EmptyTable(dict: Dict)
    requires dict.fields == map[]
    ensures Represents(Table(dict), TableAt(dict, map[])) && Foot(TableAt(dict, map[])) == {dict}
    ensures Denote(TableAt(dict, map[])) == Obj(map[])
  {
  }

  // ----- The collected data -----

  class ConfigData {
    const entries: Dict
    ghost var layouts: map<Scalar, Layout>
    ghost var Repr: set<object>

    ghost predicate Valid()
      reads this, Repr
    {
      this in Repr && this !in Foot(TableAt(entries, layouts)) && Foot(TableAt(entries, layouts)) <= Repr
      && Represents(Table(entries), TableAt(entries, layouts))
    }

    /** The collected values; the keys are strings. */
    ghost function Contents(): map<Scalar, Value>
      reads this
    {
      Denote(TableAt(entries, layouts)).fields
    }

    constructor ()
      ensures Valid() && fresh(Repr) && Contents() == map[]
    {
      entries := new Dict(map[]);
      layouts := map[];
      new;
      EmptyTable(entries);
      Repr := {this, entries};
    }

    /** Adds one parsed value under `key`: merged in place into an object that is there already. */
    method Add(key: string, v: Value)
      requires Valid() && (Str(key) in Contents() ==> Mergeable(Contents()[Str(key)], v))
      modifies Repr
      ensures Valid() && fresh(Repr - old(Repr))
      ensures Contents() == Put(old(Contents()), Str(key), v)
    {
      hide Denote, Foot, Stored, Unshared, Merge, Mergeable, Put;
      label Before:
      ghost var before := TableAt(entries, layouts);
      var n;
      ghost var t;
      n, t := Materialize(v);
      FootAllocated@Before(before);
      StoredFrame@Before(before);
      TableFields(entries, layouts);
      ghost var after := PutField(entries, Str(key), n, layouts, t);
      label Added:
      layouts := after;
      Repr := Repr + Foot(TableAt(entries, after));
      StoredFrame@Added(TableAt(entries, after));
    }
  }
}
