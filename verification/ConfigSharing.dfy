/** What the in-place merge does when a new map meets two existing maps of its name, the case that `Mergeable`
    leaves out for nested values. */
module ConfigSharing {
  import opened ConfigValues
  import opened ConfigLayout
  import opened ConfigHeap

  /** The two merges of the scan. Both namesakes end up with the right value, but an entry that only the new map has
      is now one and the same node in both. */
  method MergeIntoTwo(first: Dict, second: Dict, newer: Dict, ghost tf: Layout, ghost ts: Layout, ghost tn: Layout)
    returns (ghost rf: Layout, ghost rs: Layout)
    requires tf.TableAt? && ts.TableAt? && tn.TableAt?
    requires Represents(Table(first), tf) && Represents(Table(second), ts) && Represents(Table(newer), tn)
    requires Foot(tf) !! Foot(ts) && Foot(tf) !! Foot(tn) && Foot(ts) !! Foot(tn)
    requires Mergeable(Denote(tf), Denote(tn)) && Mergeable(Denote(ts), Denote(tn)) && WellFormed(Denote(tn))
    modifies Foot(tf) + Foot(ts)
    ensures Represents(Table(first), rf) && Denote(rf) == Merge(Denote(tf), Denote(tn))
    ensures Represents(Table(second), rs) && Denote(rs) == Merge(Denote(ts), Denote(tn))
    ensures Linked(tf, tn, rf) && Linked(ts, tn, rs)
    ensures forall k :: k in tn.fields && k !in tf.fields && k !in ts.fields ==>
                          k in first.fields && k in second.fields
                          && first.fields[k] == second.fields[k] == newer.fields[k]
  {
    hide Mergeable, WellFormed, Denote, Unshared, Stored, Linked, Merge, Foot;
    rf := MergeMaps(first, newer, tf, tn);
    label First:
    StoredFrame(tn);
    StoredFrame(ts);
    rs := MergeMaps(second, newer, ts, tn);
    StoredFrame@First(rf);
    StoredFrame@First(tn);
    SharedEntries(tf, tn, rf);
    SharedEntries(ts, tn, rs);
  }

  lemma SharedEntries(te: Layout, tn: Layout, r: Layout)
    requires Linked(te, tn, r) && Stored(r) && Stored(tn)
    ensures te.TableAt? && tn.TableAt? && r.TableAt?
    ensures forall k :: k in tn.fields && k !in te.fields ==>
                          k in r.dict.fields && k in tn.dict.fields && r.dict.fields[k] == tn.dict.fields[k]
  {
  }

  // ----- The next layer -----

  function Leaves(xs: seq<Scalar>): seq<Value> {
    seq(|xs|, i requires 0 <= i < |xs| => Leaf(xs[i]))
  }

  function Nodes(xs: seq<Scalar>): seq<Node> {
    seq(|xs|, i requires 0 <= i < |xs| => Atom(xs[i]))
  }

  ghost function Atoms(xs: seq<Scalar>): seq<Layout> {
    seq(|xs|, i requires 0 <= i < |xs| => AtomAt(xs[i]))
  }

  /** A map with a name and a list of atoms. */
  function Listing(name: Scalar, key: Scalar, xs: seq<Scalar>): Value {
    Obj(map[NAME := Leaf(name), key := Arr(Leaves(xs))])
  }

  ghost function ListingAt(dict: Dict, name: Scalar, key: Scalar, list: Slice, xs: seq<Scalar>): Layout {
    TableAt(dict, map[NAME := AtomAt(name), key := ListAt(list, Atoms(xs))])
  }

  /** The list is stored in the map. */
  ghost predicate Holds(dict: Dict, name: Scalar, key: Scalar, list: Slice, xs: seq<Scalar>)
    reads dict, list
  {
    dict.fields == map[NAME := Atom(name), key := List(list)] && list.items == Nodes(xs)
  }

  lemma HoldsListing(dict: Dict, name: Scalar, key: Scalar, list: Slice, xs: seq<Scalar>)
    requires key != NAME && Holds(dict, name, key, list, xs)
    ensures Represents(Table(dict), ListingAt(dict, name, key, list, xs))
  {
    UnsharedListing(dict, name, key, list, xs);
    assert Stored(ListAt(list, Atoms(xs)));
    hide Unshared, Foot;
    var l := ListingAt(dict, name, key, list, xs);
    assert dict.fields[NAME] == Root(l.fields[NAME]) && Stored(l.fields[NAME]);
    assert dict.fields[key] == Root(l.fields[key]) && Stored(l.fields[key]);
  }

  lemma UnsharedListing(dict: Dict, name: Scalar, key: Scalar, list: Slice, xs: seq<Scalar>)
    requires key != NAME
    ensures Unshared(ListingAt(dict, name, key, list, xs))
  {
    AtomsFacts(list, xs);
    hide Atoms, Denote;
    var l := ListingAt(dict, name, key, list, xs);
    assert l.fields.Keys == {NAME, key} && Foot(l.fields[NAME]) == {} && Foot(l.fields[key]) == {list};
  }

  lemma AtomsFacts(list: Slice, xs: seq<Scalar>)
    ensures var l := ListAt(list, Atoms(xs)); Denote(l) == Arr(Leaves(xs)) && Foot(l) == {list} && Unshared(l)
  {
    assert forall i :: 0 <= i < |xs| ==> Foot(Atoms(xs)[i]) == {};
    assert FootItems(Atoms(xs)) == {};
  }

  lemma ListingFacts(dict: Dict, name: Scalar, key: Scalar, list: Slice, xs: seq<Scalar>)
    requires key != NAME
    ensures var l := ListingAt(dict, name, key, list, xs);
            Denote(l) == Listing(name, key, xs) && Foot(l) == {dict, list}
  {
    var l := ListingAt(dict, name, key, list, xs);
    AtomsFacts(list, xs);
    hide Atoms, Leaves, FootItems;
    assert l.fields.Keys == {NAME, key} && Foot(l.fields[NAME]) == {} && Foot(l.fields[key]) == {list};
    assert Denote(l).fields == Listing(name, key, xs).fields;
  }

  /** By value, the lists are put one after the other. */
  lemma {:induction false} LeavesAppend(xs: seq<Scalar>, ys: seq<Scalar>)
    ensures MergeItems(Leaves(xs), Leaves(ys)) == Leaves(xs + ys)
  {
    if ys == [] {
      assert xs + ys == xs;
    } else {
      var n := |ys| - 1;
      LeavesAppend(xs, ys[..n]);
      assert Leaves(ys)[..n] == Leaves(ys[..n]);
      assert Leaves(xs + ys) == Leaves(xs + ys[..n]) + [Leaf(ys[n])];
    }
  }

  lemma ListingsMerge(name: Scalar, key: Scalar, xs: seq<Scalar>, ys: seq<Scalar>)
    requires key != NAME
    ensures Merge(Listing(name, key, xs), Listing(name, key, ys)) == Listing(name, key, xs + ys)
    ensures Mergeable(Listing(name, key, xs), Listing(name, key, ys)) && WellFormed(Listing(name, key, ys))
  {
    LeavesAppend(xs, ys);
    LeavesMergeable(Leaves(xs), ys);
    ListingWellFormed(name, key, ys);
    hide WellFormed, MergeableItems, MergeItems, Leaves;
    var a, b := Listing(name, key, xs), Listing(name, key, ys);
    assert a.fields.Keys == b.fields.Keys == {NAME, key};
    assert Merge(a, b).fields == Listing(name, key, xs + ys).fields;
  }

  lemma ListingWellFormed(name: Scalar, key: Scalar, xs: seq<Scalar>)
    requires key != NAME
    ensures WellFormed(Listing(name, key, xs))
  {
    assert WellFormedItems(Leaves(xs));
    hide WellFormedItems;
  }

  lemma {:induction false} LeavesMergeable(vs: seq<Value>, ys: seq<Scalar>)
    ensures MergeableItems(vs, Leaves(ys))
  {
    if ys == [] {
    } else {
      var n := |ys| - 1;
      LeavesMergeable(vs, ys[..n]);
      assert Leaves(ys)[..n] == Leaves(ys[..n]);
    }
  }

  /** A merged listing is a listing again, in the same list object. */
  method MergeListing(dict: Dict, newer: Dict, name: Scalar, key: Scalar, list: Slice, more: Slice,
                      xs: seq<Scalar>, ys: seq<Scalar>)
    requires key != NAME && dict != newer && list != more
    requires Holds(dict, name, key, list, xs) && Holds(newer, name, key, more, ys)
    modifies dict, list
    ensures Holds(dict, name, key, list, xs + ys)
  {
    HoldsListing(dict, name, key, list, xs);
    HoldsListing(newer, name, key, more, ys);
    ListingFacts(dict, name, key, list, xs);
    ListingFacts(newer, name, key, more, ys);
    ListingsMerge(name, key, xs, ys);
    WrittenListing(dict, newer, name, key, list, more, xs, ys);
    ghost var te, tn := ListingAt(dict, name, key, list, xs), ListingAt(newer, name, key, more, ys);
    hide *;
    ghost var tr := MergeMaps(dict, newer, te, tn);
    SameList(dict, newer, name, key, list, more, xs, ys, tr);
    ListingHeld(dict, name, key, list, xs + ys, tr);
  }

  lemma WrittenListing(dict: Dict, newer: Dict, name: Scalar, key: Scalar, list: Slice, more: Slice,
                       xs: seq<Scalar>, ys: seq<Scalar>)
    requires key != NAME
    ensures var te, tn := ListingAt(dict, name, key, list, xs), ListingAt(newer, name, key, more, ys);
            te.TableAt? && tn.TableAt? && te.dict == dict && Touched(te, tn) == {dict, list}
  {
    ListingFacts(dict, name, key, list, xs);
    ListingFacts(newer, name, key, more, ys);
    ListingsMerge(name, key, ys, ys);
    hide Foot, Denote, Atoms, Listing, WellFormed;
  }

  lemma SameList(dict: Dict, newer: Dict, name: Scalar, key: Scalar, list: Slice, more: Slice,
                 xs: seq<Scalar>, ys: seq<Scalar>, r: Layout)
    requires key != NAME && Root(r) == Table(dict)
    requires Linked(ListingAt(dict, name, key, list, xs), ListingAt(newer, name, key, more, ys), r)
    ensures r.TableAt? && r.dict == dict && key in r.fields && Root(r.fields[key]) == List(list)
  {
    hide Atoms;
  }

  lemma ListingHeld(dict: Dict, name: Scalar, key: Scalar, list: Slice, xs: seq<Scalar>, l: Layout)
    requires key != NAME && l.TableAt? && l.dict == dict && Stored(l) && Denote(l) == Listing(name, key, xs)
    requires key in l.fields && Root(l.fields[key]) == List(list)
    ensures Holds(dict, name, key, list, xs)
  {
    assert l.fields.Keys == Denote(l).fields.Keys == {NAME, key};
    assert Denote(l).fields[NAME] == Denote(l.fields[NAME]);
    assert Denote(l).fields[key] == Denote(l.fields[key]);
    var t := l.fields[key];
    assert Stored(t);
    forall i | 0 <= i < |xs|
      ensures list.items[i] == Atom(xs[i])
    {
      assert Denote(t).items[i] == Denote(t.items[i]);
    }
  }

  // ----- Two layers over two namesakes -----

  /** The value of one namesake alone: both lists, each once. */
  lemma LayersByValue(name: Scalar, key: Scalar, xs: seq<Scalar>, ys: seq<Scalar>)
    requires key != NAME
    ensures var v := Obj(map[NAME := Leaf(name)]);
            Merge(v, Listing(name, key, xs)) == Listing(name, key, xs)
            && Merge(Merge(v, Listing(name, key, xs)), Listing(name, key, ys)) == Listing(name, key, xs + ys)
  {
    ListingsMerge(name, key, xs, ys);
    var v := Obj(map[NAME := Leaf(name)]);
    hide Leaves;
    assert Merge(v, Listing(name, key, xs)).fields == Listing(name, key, xs).fields;
  }

  lemma AloneFacts(dict: Dict, name: Scalar, key: Scalar, xs: seq<Scalar>)
    requires dict.fields == map[NAME := Atom(name)]
    ensures var l := TableAt(dict, map[NAME := AtomAt(name)]);
            Represents(Table(dict), l) && Foot(l) == {dict} && Denote(l) == Obj(map[NAME := Leaf(name)])
            && Mergeable(Denote(l), Listing(name, key, xs))
  {
    var l := TableAt(dict, map[NAME := AtomAt(name)]);
    assert Denote(l).fields == map[NAME := Leaf(name)];
    assert Foot(l.fields[NAME]) == {};
  }

  /** The layer that brings the list. */
  method FirstLayer(first: Dict, second: Dict, newer: Dict, name: Scalar, key: Scalar, list: Slice, xs: seq<Scalar>)
    requires key != NAME && first != second && first != newer && second != newer && Holds(newer, name, key, list, xs)
    requires first.fields == second.fields == map[NAME := Atom(name)]
    modifies first, second
    ensures Holds(first, name, key, list, xs) && Holds(second, name, key, list, xs)
  {
    AloneFacts(first, name, key, xs);
    AloneFacts(second, name, key, xs);
    HoldsListing(newer, name, key, list, xs);
    ListingFacts(newer, name, key, list, xs);
    ListingsMerge(name, key, xs, xs);
    LayersByValue(name, key, xs, xs);
    ghost var alone, tn := map[NAME := AtomAt(name)], ListingAt(newer, name, key, list, xs);
    hide *;
    ghost var rf, rs := MergeIntoTwo(first, second, newer, TableAt(first, alone), TableAt(second, alone), tn);
    LinkedListing(first, newer, name, key, list, xs, rf);
    LinkedListing(second, newer, name, key, list, xs, rs);
  }

  lemma LinkedListing(dict: Dict, newer: Dict, name: Scalar, key: Scalar, list: Slice, xs: seq<Scalar>, r: Layout)
    requires key != NAME && Represents(Table(dict), r) && Denote(r) == Listing(name, key, xs)
    requires Linked(TableAt(dict, map[NAME := AtomAt(name)]), ListingAt(newer, name, key, list, xs), r)
    ensures Holds(dict, name, key, list, xs)
  {
    hide Denote, Listing, Atoms;
    assert r.fields[key] == ListAt(list, Atoms(xs));
    ListingHeld(dict, name, key, list, xs, r);
  }

  /** Two maps of one name, layered with a map that brings a list and then with one that adds to it, as the scan
      does it: the second list is added twice, in both. */
  method NamesakesDouble(name: Scalar, key: Scalar, xs: seq<Scalar>, ys: seq<Scalar>)
    returns (first: Dict, second: Dict, list: Slice)
    requires key != NAME
    ensures first != second
    ensures Holds(first, name, key, list, xs + ys + ys) && Holds(second, name, key, list, xs + ys + ys)
  {
    first := new Dict(map[NAME := Atom(name)]);
    second := new Dict(map[NAME := Atom(name)]);
    list := new Slice(Nodes(xs));
    var newer := new Dict(map[NAME := Atom(name), key := List(list)]);
    FirstLayer(first, second, newer, name, key, list, xs);
    var more := new Slice(Nodes(ys));
    var next := new Dict(map[NAME := Atom(name), key := List(more)]);
    MergeListing(first, next, name, key, list, more, xs, ys);
    MergeListing(second, next, name, key, list, more, xs + ys, ys);
  }
}
