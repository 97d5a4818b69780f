/** Parsed configuration objects on the heap.

    Slices and maps are mutable objects; a ghost `Layout` records which objects make up a value, so the heap can
    be related to the pure values of `ConfigValues` and sharing can be ruled out. */
module ConfigLayout {
  import opened ConfigValues

  class Slice {
    var items: seq<Node>

    constructor (items: seq<Node>)
      ensures this.items == items
    {
      this.items := items;
    }
  }

  class Dict {
    var fields: map<Scalar, Node>

    constructor (fields: map<Scalar, Node>)
      ensures this.fields == fields
    {
      this.fields := fields;
    }

    /** Indexing a Go map with a missing key yields nil. */
    function Name(): Node
      reads this
    {
      if NAME in fields then fields[NAME] else Atom(Null)
    }
  }

  datatype Node = Atom(scalar: Scalar) | List(slice: Slice) | Table(dict: Dict)

  // ----- Layouts -----

  datatype Layout =
    | AtomAt(scalar: Scalar)
    | ListAt(slice: Slice, items: seq<Layout>)
    | TableAt(dict: Dict, fields: map<Scalar, Layout>)

  ghost function Root(l: Layout): Node {
    match l
    case AtomAt(s) => Atom(s)
    case ListAt(slice, _) => List(slice)
    case TableAt(dict, _) => Table(dict)
  }

  /** The value a layout stands for. */
  ghost function Denote(l: Layout): Value {
    match l
    case AtomAt(s) => Leaf(s)
    case ListAt(_, items) => Arr(seq(|items|, i requires 0 <= i < |items| => Denote(items[i])))
    case TableAt(_, fields) => Obj(map k | k in fields :: Denote(fields[k]))
  }

  ghost function DenoteItems(items: seq<Layout>): (vs: seq<Value>)
    ensures |vs| == |items|
    ensures forall i :: 0 <= i < |items| ==> vs[i] == Denote(items[i])
  {
    seq(|items|, i requires 0 <= i < |items| => Denote(items[i]))
  }

  /** The objects a layout is made of. */
  ghost function Foot(l: Layout): set<object> {
    match l
    case AtomAt(_) => {}
    case ListAt(slice, items) => {slice} + FootItems(items)
    case TableAt(dict, fields) => {dict} + (set k, o: object | k in fields && o in Foot(fields[k]) :: o)
  }

  ghost function FootItems(items: seq<Layout>): set<object> {
    set i, o: object | 0 <= i < |items| && o in Foot(items[i]) :: o
  }

  lemma FootChildren(l: Layout)
    ensures l.ListAt? ==> forall i :: 0 <= i < |l.items| ==> Foot(l.items[i]) <= Foot(l)
    ensures l.TableAt? ==> forall k :: k in l.fields ==> Foot(l.fields[k]) <= Foot(l)
  {
  }

  /** No object occurs twice. */
  ghost predicate Unshared(l: Layout) {
    match l
    case AtomAt(_) => true
    case ListAt(slice, items) =>
      (forall i :: 0 <= i < |items| ==> Unshared(items[i]) && slice !in Foot(items[i]))
      && forall i, j :: 0 <= i < j < |items| ==> Foot(items[i]) !! Foot(items[j])
    case TableAt(dict, fields) =>
      (forall k :: k in fields ==> Unshared(fields[k]) && dict !in Foot(fields[k]))
      && forall k, l :: k in fields && l in fields && k != l ==> Foot(fields[k]) !! Foot(fields[l])
  }

  /** The heap holds the layout. */
  ghost predicate Stored(l: Layout)
    reads Foot(l)
    decreases l
  {
    FootChildren(l);
    match l
    case AtomAt(_) => true
    case ListAt(slice, items) =>
      |slice.items| == |items|
      && forall i :: 0 <= i < |items| ==> slice.items[i] == Root(items[i]) && Stored(items[i])
    case TableAt(dict, fields) =>
      dict.fields.Keys == fields.Keys
      && forall k :: k in fields ==> dict.fields[k] == Root(fields[k]) && Stored(fields[k])
  }

  /** `n` is the root of an unshared object graph laid out as `l`. */
  ghost predicate Represents(n: Node, l: Layout)
    reads Foot(l)
  {
    n == Root(l) && Stored(l) && Unshared(l)
  }

  // ----- Facts about layouts -----

  lemma DenoteList(slice: Slice, items: seq<Layout>)
    ensures Denote(ListAt(slice, items)) == Arr(DenoteItems(items))
  {
  }

  twostate lemma {:induction false} FootAllocated(l: Layout)
    ensures forall o :: o in Foot(l) ==> old(allocated(o))
    decreases l
  {
    match l
    case AtomAt(_) =>
    case ListAt(_, items) =>
      forall i | 0 <= i < |items|
        ensures forall o :: o in Foot(items[i]) ==> old(allocated(o))
      {
        FootAllocated(items[i]);
      }
      assert forall o :: o in FootItems(items) ==> old(allocated(o));
    case TableAt(_, fields) =>
      forall k | k in fields
        ensures forall o :: o in Foot(fields[k]) ==> old(allocated(o))
      {
        FootAllocated(fields[k]);
      }
  }

  /** A layout none of whose objects is written stays in the heap. */
  twostate lemma {:induction false} StoredFrame(l: Layout)
    requires old(Stored(l))
    requires forall o :: o in Foot(l) && old(allocated(o)) ==> unchanged(o)
    ensures Stored(l)
    decreases l
  {
    FootAllocated(l);
    FootChildren(l);
    match l
    case AtomAt(_) =>
    case ListAt(slice, items) =>
      forall i | 0 <= i < |items|
        ensures Stored(items[i])
      {
        StoredFrame(items[i]);
      }
    case TableAt(dict, fields) =>
      forall k | k in fields
        ensures Stored(fields[k])
      {
        StoredFrame(fields[k]);
      }
  }

  lemma StoredItems(l: Layout)
    requires l.ListAt? && Stored(l)
    ensures l.slice in Foot(l) && |l.slice.items| == |l.items|
    ensures forall i :: 0 <= i < |l.items| ==> l.slice.items[i] == Root(l.items[i]) && Stored(l.items[i])
  {
  }

  /** The node under which a map holds its name. */
  ghost function NameNode(l: Layout): Node
    requires l.TableAt?
  {
    if NAME in l.fields then Root(l.fields[NAME]) else Atom(Null)
  }

  lemma StoredName(l: Layout)
    requires l.TableAt? && Stored(l)
    ensures l.dict.Name() == NameNode(l)
  {
  }

  lemma NameOfNode(l: Layout)
    requires l.TableAt?
    ensures NameOf(Denote(l)).Leaf? <==> NameNode(l).Atom?
    ensures NameOf(Denote(l)).Arr? <==> NameNode(l).List?
    ensures NameNode(l).Atom? ==> NameOf(Denote(l)) == Leaf(NameNode(l).scalar)
  {
    if NAME in l.fields {
      assert Denote(l).fields[NAME] == Denote(l.fields[NAME]);
    }
  }

  /** Comparing the name nodes compares the names. */
  lemma NameTest(a: Layout, b: Layout)
    requires Stored(a) && b.TableAt? && Comparable(Denote(a), Denote(b))
    ensures Root(a).Table? && Root(a).dict.Name() == NameNode(b) <==> SameName(Denote(a), Denote(b))
  {
    if a.TableAt? {
      StoredName(a);
      assert Denote(a).Obj? && Denote(b).Obj?;
      NameOfNode(a);
      NameOfNode(b);
      hide Denote, Stored, NameNode, NameOf;
    }
  }

  lemma FlatFoot(l: Layout)
    requires l.TableAt? && Flat(Denote(l))
    ensures Foot(l) == {l.dict}
  {
    forall k | k in l.fields
      ensures Foot(l.fields[k]) == {}
    {
      assert Denote(l).fields[k] == Denote(l.fields[k]);
    }
  }

  /** A map of atoms is in the heap if its dictionary is as before. */
  lemma FlatStored(l: Layout)
    requires l.TableAt? && Flat(Denote(l)) && l.dict.fields.Keys == l.fields.Keys
    requires forall k :: k in l.fields ==> l.dict.fields[k] == Root(l.fields[k])
    ensures Stored(l)
  {
    forall k | k in l.fields
      ensures Stored(l.fields[k])
    {
      assert Denote(l).fields[k] == Denote(l.fields[k]);
      assert l.fields[k].AtomAt?;
    }
  }

  lemma UnsharedAppend(slice: Slice, items: seq<Layout>, t: Layout)
    requires Unshared(ListAt(slice, items)) && Unshared(t)
    requires Foot(t) !! Foot(ListAt(slice, items))
    ensures Unshared(ListAt(slice, items + [t]))
    ensures Foot(ListAt(slice, items + [t])) <= Foot(ListAt(slice, items)) + Foot(t)
  {
    var us := items + [t];
    FootChildren(ListAt(slice, items));
  }
}
