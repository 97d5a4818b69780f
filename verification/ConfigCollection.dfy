/** Collecting the configuration data for a cluster type and deployment target from the config maps of a namespace. */
module ConfigCollection {
  import opened Api
  import opened Text
  import opened Basics
  import opened ConfigValues
  import opened ConfigLabels
  import opened ConfigStore

  datatype ConfigMap = ConfigMap(name: string, labels: Labels, data: Labels)

  /** What the collection is for, and the YAML decoder it uses (None on a decoding error). */
  datatype Scope = Scope(ct: ClusterType, dt: DeploymentTarget, decode: string -> Option<Value>)
  {
    predicate Matches(labels: Labels) {
      Applies(labels, ct, dt)
    }

    /** The text of a config value, parsed: arrays and maps become structures, everything else stays text. */
    function Parse(text: string): (v: Value)
      ensures !Quoted(TrimSpace(text)) && decode(text).Some? && !decode(text).value.Leaf? ==> v == decode(text).value
      ensures v.Leaf? ==> v.scalar.Str?
    {
      var trimmed := TrimSpace(text);
      if Quoted(trimmed) then Leaf(Str(TrimQuotes(trimmed)))
      else
        var decoded := decode(text);
        if decoded.Some? && (decoded.value.Arr? || decoded.value.Obj?) then decoded.value else Leaf(Str(text))
    }
  }

  predicate Quoted(s: string) {
    s != [] && s[0] == '\'' && s[|s| - 1] == '\''
  }

  predicate IsSpace(c: char) {
    c in " \t\n\r" || c in ['\U{0B}', '\U{0C}', '\U{85}', '\U{A0}', '\U{1680}', '\U{2028}', '\U{2029}', '\U{202F}',
      '\U{205F}', '\U{3000}']
    || '\U{2000}' <= c <= '\U{200A}'
  }

  function TrimSpace(s: string): string {
    if s == [] then s
    else if IsSpace(s[0]) then TrimSpace(s[1..])
    else if IsSpace(s[|s| - 1]) then TrimSpace(s[..|s| - 1])
    else s
  }

  /** Strips every leading and trailing quote. */
  function TrimQuotes(s: string): string {
    if s == [] then s
    else if s[0] == '\'' then TrimQuotes(s[1..])
    else if s[|s| - 1] == '\'' then TrimQuotes(s[..|s| - 1])
    else s
  }

  // ----- Config values -----

  predicate Blank(s: string) {
    forall i :: 0 <= i < |s| ==> s[i] in " \t\n\r"
  }

  /** The text neither begins nor ends with a blank or another special character. */
  predicate Solid(s: string) {
    s != [] && '!' <= s[0] <= '~' && '!' <= s[|s| - 1] <= '~'
  }

  predicate Quotes(s: string) {
    forall i :: 0 <= i < |s| ==> s[i] == '\''
  }

  /** A text in single quotes, however many, loses the quotes and the blanks around them, and is never decoded. */
  lemma QuotedText(scope: Scope, before: string, left: string, text: string, right: string, after: string)
    requires Blank(before) && Blank(after) && Quotes(left) && Quotes(right) && left != [] && right != []
    requires text != [] ==> text[0] != '\'' && text[|text| - 1] != '\''
    ensures scope.Parse(before + (left + text + right) + after) == Leaf(Str(text))
  {
    var core := left + text + right;
    assert core[0] == left[0] && core[|core| - 1] == right[|right| - 1];
    Trimmed(before, core, after);
    QuotesTrimmed(left, text, right);
  }

  lemma {:induction false} QuotesTrimmed(left: string, text: string, right: string)
    requires Quotes(left) && Quotes(right)
    requires text != [] ==> text[0] != '\'' && text[|text| - 1] != '\''
    ensures TrimQuotes(left + text + right) == text
    decreases |left| + |right|
  {
    var s := left + text + right;
    if left != [] {
      assert s[0] == left[0] && s[1..] == left[1..] + text + right;
      QuotesTrimmed(left[1..], text, right);
    } else if right != [] {
      var n := |right| - 1;
      if text == [] {
        assert s[0] == right[0] && s[1..] == [] + text + right[1..];
        QuotesTrimmed([], text, right[1..]);
      } else {
        assert s[0] == text[0] && s[|s| - 1] == right[n] && s[..|s| - 1] == left + text + right[..n];
        QuotesTrimmed(left, text, right[..n]);
      }
    } else {
      assert s == text;
    }
  }

  /** A single quote alone is an empty text. */
  lemma LoneQuote(scope: Scope, before: string, after: string)
    requires Blank(before) && Blank(after)
    ensures scope.Parse(before + "'" + after) == Leaf(Str(""))
  {
    Trimmed(before, "'", after);
    QuotesTrimmed("'", "", "");
    assert "'" + "" + "" == "'";
  }

  /** Any other text is the array or map that it decodes to, or else stays as it is, with its blanks. */
  lemma UnquotedText(scope: Scope, before: string, core: string, after: string)
    requires Blank(before) && Blank(after) && Solid(core) && !(core[0] == '\'' && core[|core| - 1] == '\'')
    ensures var text := before + core + after;
            var decoded := scope.decode(text);
            scope.Parse(text) == if decoded.Some? && !decoded.value.Leaf? then decoded.value else Leaf(Str(text))
  {
    Trimmed(before, core, after);
  }

  lemma BlankText(scope: Scope, text: string)
    requires Blank(text)
    ensures var decoded := scope.decode(text);
            scope.Parse(text) == if decoded.Some? && !decoded.value.Leaf? then decoded.value else Leaf(Str(text))
  {
    TrimmedBlank(text);
  }

  lemma {:induction false} TrimmedBlank(s: string)
    requires Blank(s)
    ensures TrimSpace(s) == ""
  {
    if s == [] {
    } else {
      assert IsSpace(s[0]);
      TrimmedBlank(s[1..]);
    }
  }

  lemma {:induction false} Trimmed(before: string, core: string, after: string)
    requires Blank(before) && Blank(after) && Solid(core)
    ensures TrimSpace(before + core + after) == core
    decreases |before| + |after|
  {
    var s := before + core + after;
    if before != [] {
      SpaceOrNot(before[0]);
      hide IsSpace;
      assert s[0] == before[0] && s[1..] == before[1..] + core + after;
      Trimmed(before[1..], core, after);
    } else if after != [] {
      var n := |after| - 1;
      SpaceOrNot(core[0]);
      SpaceOrNot(after[n]);
      hide IsSpace;
      assert s[0] == core[0] && s[|s| - 1] == after[n] && s[..|s| - 1] == before + core + after[..n];
      Trimmed(before, core, after[..n]);
    } else {
      SpaceOrNot(core[0]);
      SpaceOrNot(core[|core| - 1]);
      hide IsSpace;
      assert s == core;
    }
  }

  lemma SpaceOrNot(c: char)
    ensures c in " \t\n\r" ==> IsSpace(c)
    ensures '!' <= c <= '~' ==> !IsSpace(c)
  {
  }

  // ----- Layers -----

  function Entry(data: map<Scalar, Value>, key: string): Option<Value> {
    if Str(key) in data then Some(data[Str(key)]) else None
  }

  lemma EntryPut(data: map<Scalar, Value>, key: string, v: Value)
    ensures forall k :: Entry(Put(data, Str(key), v), k) == if k == key then LayerOn(Entry(data, k), v)
            else Entry(data, k)
  {
  }

  // ----- The platform config maps -----

  /** The values that the applicable maps of `ms` supply for `key`, in order. */
  function Supplied(ms: seq<ConfigMap>, key: string, scope: Scope): seq<Value> {
    if ms == [] then []
    else
      var m := ms[|ms| - 1];
      Supplied(ms[..|ms| - 1], key, scope)
      + if scope.Matches(m.labels) && key in m.data then [scope.Parse(m.data[key])] else []
  }

  ghost predicate SortedByName(ms: seq<ConfigMap>) {
    forall i, j :: 0 <= i < j < |ms| ==> !Less(ms[j].name, ms[i].name)
  }

  /** The outcome of sorting the listed maps by name. */
  ghost predicate NameOrder(sorted: seq<ConfigMap>, listed: seq<ConfigMap>) {
    multiset(sorted) == multiset(listed) && SortedByName(sorted)
  }

  ghost predicate UniqueMapNames(ms: seq<ConfigMap>) {
    forall i, j :: 0 <= i < j < |ms| ==> ms[i].name != ms[j].name
  }

  /** Every key holds the values supplied for it, merged from the left; no key holds anything else. */
  ghost predicate PlatformData(data: map<Scalar, Value>, ms: seq<ConfigMap>, scope: Scope) {
    forall key :: Entry(data, key) == Layered(None, Supplied(ms, key, scope))
  }

  /** `after` is `before` with the data of one map merged in. */
  ghost predicate MapAdded(before: map<Scalar, Value>, after: map<Scalar, Value>, data: Labels, scope: Scope) {
    forall key :: Entry(after, key) ==
                  if key in data then LayerOn(Entry(before, key), scope.Parse(data[key])) else Entry(before, key)
  }

  /** The supplied values can be merged in place. */
  ghost predicate PlatformCan(sorted: seq<ConfigMap>, scope: Scope) {
    forall key :: CanStack(None, Supplied(sorted, key, scope))
  }

  ghost predicate MapCan(before: map<Scalar, Value>, data: Labels, scope: Scope) {
    forall key :: key in data ==> CanLayer(Entry(before, key), scope.Parse(data[key]))
  }

  lemma {:induction false} SuppliedCan(ms: seq<ConfigMap>, k: nat, key: string, scope: Scope)
    requires k <= |ms| && CanStack(None, Supplied(ms, key, scope))
    ensures CanStack(None, Supplied(ms[..k], key, scope))
  {
    hide *;
    if k == |ms| {
      assert ms[..k] == ms;
    } else {
      var front, m := ms[..|ms| - 1], ms[|ms| - 1];
      SuppliedUnfold(ms, key, scope);
      if scope.Matches(m.labels) && key in m.data {
        CanStackLast(None, Supplied(front, key, scope), scope.Parse(m.data[key]));
      }
      SuppliedCan(front, k, key, scope);
      assert front[..k] == ms[..k];
    }
  }

  lemma SuppliedUnfold(ms: seq<ConfigMap>, key: string, scope: Scope)
    requires ms != []
    ensures var front, m := ms[..|ms| - 1], ms[|ms| - 1];
            Supplied(ms, key, scope) ==
            if scope.Matches(m.labels) && key in m.data then Supplied(front, key, scope) + [scope.Parse(m.data[key])]
            else Supplied(front, key, scope)
  {
    hide Applies, Scope.Parse;
    var vs := Supplied(ms[..|ms| - 1], key, scope);
    assert vs + [] == vs;
  }

  lemma SuppliedNext(ms: seq<ConfigMap>, i: nat, key: string, scope: Scope)
    requires i < |ms| && scope.Matches(ms[i].labels) && key in ms[i].data
    ensures Supplied(ms[..i + 1], key, scope) == Supplied(ms[..i], key, scope) + [scope.Parse(ms[i].data[key])]
  {
    hide Applies;
    assert ms[..i + 1][..i] == ms[..i];
  }

  /** Each map in its turn can be added. */
  lemma PlatformCanAdd(data: map<Scalar, Value>, sorted: seq<ConfigMap>, i: nat, scope: Scope)
    requires i < |sorted| && PlatformData(data, sorted[..i], scope) && PlatformCan(sorted, scope)
    ensures scope.Matches(sorted[i].labels) ==> MapCan(data, sorted[i].data, scope)
  {
    var m := sorted[i];
    if scope.Matches(m.labels) {
      forall key | key in m.data
        ensures CanLayer(Entry(data, key), scope.Parse(m.data[key]))
      {
        SuppliedNext(sorted, i, key, scope);
        hide Layered, CanLayer, CanStack, Entry, Applies, Supplied;
        SuppliedCan(sorted, i + 1, key, scope);
        CanStackLast(None, Supplied(sorted[..i], key, scope), scope.Parse(m.data[key]));
      }
    }
  }

  /** Maps in name order; the keys of each map in an arbitrary order. */
  method CollectPlatformConfig(sorted: seq<ConfigMap>, scope: Scope, store: ConfigData)
    requires store.Valid() && store.Contents() == map[] && PlatformCan(sorted, scope)
    modifies store.Repr
    ensures store.Valid() && fresh(store.Repr - old(store.Repr))
    ensures PlatformData(store.Contents(), sorted, scope)
  {
    hide PlatformData, PlatformCan, MapAdded, MapCan, Applies;
    PlatformStart(scope);
    var i := 0;
    while i < |sorted|
      invariant 0 <= i <= |sorted|
      invariant store.Valid() && fresh(store.Repr - old(store.Repr))
      invariant PlatformData(store.Contents(), sorted[..i], scope)
    {
      ghost var before := store.Contents();
      var matches := IsConfigForClusterTypeAndTarget(sorted[i].labels, scope.ct, scope.dt);
      PlatformCanAdd(before, sorted, i, scope);
      if matches {
        AddMap(sorted[i], scope, store);
      }
      PlatformStep(before, store.Contents(), sorted, i, scope);
      i := i + 1;
    }
    assert sorted[..i] == sorted;
  }

  method AddMap(m: ConfigMap, scope: Scope, store: ConfigData)
    requires store.Valid() && MapCan(store.Contents(), m.data, scope)
    modifies store.Repr
    ensures store.Valid() && fresh(store.Repr - old(store.Repr))
    ensures MapAdded(old(store.Contents()), store.Contents(), m.data, scope)
  {
    hide MapAdded, MapCan, Put, Merge, Mergeable;
    ghost var before := store.Contents();
    var pending := m.data.Keys;
    MapAddedStart(before, scope);
    assert Taken(m.data, pending) == map[];
    while pending != {}
      invariant pending <= m.data.Keys
      invariant store.Valid() && fresh(store.Repr - old(store.Repr))
      invariant MapAdded(before, store.Contents(), Taken(m.data, pending), scope)
    {
      var key :| key in pending;
      MapAddedStep(before, store.Contents(), m.data, pending, key, scope);
      store.Add(key, scope.Parse(m.data[key]));
      pending := pending - {key};
    }
    assert Taken(m.data, pending) == m.data;
  }

  /** The entries of `data` whose keys have been visited. */
  function Taken(data: Labels, pending: set<string>): Labels {
    map k | k in data && k !in pending :: data[k]
  }

  lemma PlatformStart(scope: Scope)
    ensures PlatformData(map[], [], scope)
  {
  }

  lemma PlatformStep(before: map<Scalar, Value>, after: map<Scalar, Value>, sorted: seq<ConfigMap>, i: nat,
                     scope: Scope)
    requires i < |sorted| && PlatformData(before, sorted[..i], scope)
    requires if scope.Matches(sorted[i].labels) then MapAdded(before, after, sorted[i].data, scope) else after == before
    ensures PlatformData(after, sorted[..i + 1], scope)
  {
    hide Layered, LayerOn;
    assert sorted[..i + 1][..i] == sorted[..i];
    forall key
      ensures Entry(after, key) == Layered(None, Supplied(sorted[..i + 1], key, scope))
    {
      var vs := Supplied(sorted[..i], key, scope);
      assert Entry(before, key) == Layered(None, vs);
      if scope.Matches(sorted[i].labels) && key in sorted[i].data {
        LayeredSnoc(None, vs, scope.Parse(sorted[i].data[key]));
      } else {
        assert vs + [] == vs;
      }
    }
  }

  lemma MapAddedStart(before: map<Scalar, Value>, scope: Scope)
    ensures MapAdded(before, before, map[], scope)
  {
  }

  lemma MapAddedStep(before: map<Scalar, Value>, now: map<Scalar, Value>, data: Labels, pending: set<string>,
                     key: string, scope: Scope)
    requires key in pending && key in data
    requires MapAdded(before, now, Taken(data, pending), scope) && MapCan(before, data, scope)
    ensures Str(key) in now ==> Mergeable(now[Str(key)], scope.Parse(data[key]))
    ensures MapAdded(before, Put(now, Str(key), scope.Parse(data[key])),
                     Taken(data, pending - {key}), scope)
  {
    EntryPut(now, key, scope.Parse(data[key]));
    assert Entry(now, key) == if Str(key) in now then Some(now[Str(key)]) else None;
    hide Put, LayerOn, Entry, Mergeable;
    assert CanLayer(Entry(before, key), scope.Parse(data[key]));
    assert key !in Taken(data, pending) && Entry(now, key) == Entry(before, key);
  }

  // ----- The order in which the API lists the maps is irrelevant -----

  predicate NamesIdentify(maps: seq<ConfigMap>) {
    forall x, y :: x in maps && y in maps && x.name == y.name ==> x == y
  }

  /** Whatever order the API lists the maps in, sorting yields the same sequence, so the same data. */
  lemma NameOrderUnique(a: seq<ConfigMap>, b: seq<ConfigMap>, listedA: seq<ConfigMap>, listedB: seq<ConfigMap>)
    requires NameOrder(a, listedA) && NameOrder(b, listedB)
    requires multiset(listedA) == multiset(listedB) && UniqueMapNames(listedA)
    ensures a == b
  {
    forall x, y | x in a && y in a && x.name == y.name
      ensures x == y
    {
      assert x in multiset(listedA) && y in multiset(listedA);
      var i, j :| 0 <= i < |listedA| && 0 <= j < |listedA| && listedA[i] == x && listedA[j] == y;
    }
    SortedUnique(a, b);
  }

  lemma {:induction false} SortedUnique(a: seq<ConfigMap>, b: seq<ConfigMap>)
    requires SortedByName(a) && SortedByName(b) && multiset(a) == multiset(b) && NamesIdentify(a)
    ensures a == b
  {
    if a == [] {
      assert |multiset(b)| == 0;
    } else {
      assert a[0] in multiset(b);
      SmallestFirst(a, b);
      SortedTail(a);
      SortedTail(b);
      hide *;
      SortedUnique(a[1..], b[1..]);
      SameHeadAndTail(a, b);
    }
  }

  lemma SameHeadAndTail(a: seq<ConfigMap>, b: seq<ConfigMap>)
    requires a != [] && b != [] && a[0] == b[0] && a[1..] == b[1..]
    ensures a == b
  {
    assert a == [a[0]] + a[1..] && b == [b[0]] + b[1..];
  }

  lemma SortedTail(a: seq<ConfigMap>)
    requires a != [] && SortedByName(a)
    ensures SortedByName(a[1..]) && multiset(a[1..]) == multiset(a) - multiset{a[0]}
    ensures NamesIdentify(a) ==> NamesIdentify(a[1..])
  {
    hide NamesIdentify;
    assert a == [a[0]] + a[1..];
    if NamesIdentify(a) {
      TailIdentify(a);
    }
  }

  lemma TailIdentify(a: seq<ConfigMap>)
    requires a != [] && NamesIdentify(a)
    ensures NamesIdentify(a[1..])
  {
    forall x | x in a[1..]
      ensures x in a
    {
    }
  }

  lemma SmallestFirst(a: seq<ConfigMap>, b: seq<ConfigMap>)
    requires SortedByName(a) && SortedByName(b) && multiset(a) == multiset(b) && a != [] && b != []
    requires NamesIdentify(a)
    ensures a[0] == b[0]
  {
    assert a[0] in multiset(b) && b[0] in multiset(a);
    var i :| 0 <= i < |a| && a[i] == b[0];
    var j :| 0 <= j < |b| && b[j] == a[0];
    LessTotal(a[0].name, b[0].name);
  }

  // ----- The Azure app-configuration maps -----

  /** `key` is meant for this scope and stands for `name`. */
  predicate KeySupplies(key: string, name: string, scope: Scope) {
    scope.Matches(KeyLabels(key)) && TrimmedKey(key) == name
  }

  /** The values that the keys of `m`, taken in the given order, supply for `name`. */
  function AzureSupplied(m: ConfigMap, keys: seq<string>, name: string, scope: Scope): seq<Value> {
    if keys == [] then []
    else
      var key := keys[|keys| - 1];
      AzureSupplied(m, keys[..|keys| - 1], name, scope)
      + if key in m.data && KeySupplies(key, name, scope) then [scope.Parse(m.data[key])] else []
  }

  /** An outcome of the unstable sort of `keys` by length. */
  ghost predicate LengthOrder(order: seq<string>, keys: set<string>) {
    multiset(order) == multiset(keys)
    && forall i, j :: 0 <= i < j < |order| ==> |order[i]| <= |order[j]|
  }

  lemma {:induction false} Shortest(keys: set<string>) returns (k: string)
    requires keys != {}
    ensures k in keys && forall l :: l in keys ==> |k| <= |l|
  {
    k :| k in keys;
    if keys != {k} {
      var s := Shortest(keys - {k});
      k := if |k| < |s| then k else s;
    }
  }

  /** Any of the shortest keys may come next. */
  method SortKeysByLength(keys: set<string>) returns (order: seq<string>)
    ensures LengthOrder(order, keys)
  {
    hide LengthOrder;
    order := [];
    var pending := keys;
    assert LengthOrder([], {}) by { EmptyOrder(); }
    assert keys - pending == {};
    while pending != {}
      invariant pending <= keys && LengthOrder(order, keys - pending)
      invariant forall k, l :: k in keys - pending && l in pending ==> |k| <= |l|
    {
      ghost var shortest := Shortest(pending);
      var k :| k in pending && forall l :: l in pending ==> |k| <= |l|;
      OrderSnoc(order, keys - pending, k);
      assert keys - (pending - {k}) == (keys - pending) + {k};
      order := order + [k];
      pending := pending - {k};
    }
    assert keys - pending == keys;
  }

  lemma EmptyOrder()
    ensures LengthOrder([], {})
  {
  }

  lemma OrderSnoc(order: seq<string>, keys: set<string>, k: string)
    requires LengthOrder(order, keys) && k !in keys && forall l :: l in keys ==> |l| <= |k|
    ensures LengthOrder(order + [k], keys + {k})
  {
    OrderKeys(order, keys);
    assert multiset(keys + {k}) == multiset(keys) + multiset{k};
    forall i | 0 <= i < |order|
      ensures |order[i]| <= |k|
    {
      assert order[i] in order;
    }
  }

  lemma OrderKeys(order: seq<string>, keys: set<string>)
    requires LengthOrder(order, keys)
    ensures forall k :: k in order <==> k in keys
  {
    forall k
      ensures k in order <==> k in keys
    {
      assert k in order <==> k in multiset(order);
    }
  }

  /** `now` is `before` with the given keys of `m` merged in, in that order, under their bare names. */
  ghost predicate AzureAdded(before: map<Scalar, Value>, now: map<Scalar, Value>, m: ConfigMap, keys: seq<string>,
                             scope: Scope) {
    forall name :: Entry(now, name) == Layered(Entry(before, name), AzureSupplied(m, keys, name, scope))
  }

  /** Whatever order the keys are taken in, their values can be merged in place. */
  ghost predicate AzureCan(before: map<Scalar, Value>, m: ConfigMap, scope: Scope) {
    forall order, name :: LengthOrder(order, m.data.Keys) ==>
      CanStack(Entry(before, name), AzureSupplied(m, order, name, scope))
  }

  lemma {:induction false} AzurePrefixCan(base: Option<Value>, m: ConfigMap, keys: seq<string>, k: nat, name: string,
                                          scope: Scope)
    requires k <= |keys| && CanStack(base, AzureSupplied(m, keys, name, scope))
    ensures CanStack(base, AzureSupplied(m, keys[..k], name, scope))
  {
    hide *;
    if k == |keys| {
      assert keys[..k] == keys;
    } else {
      var front, key := keys[..|keys| - 1], keys[|keys| - 1];
      AzureUnfold(m, keys, name, scope);
      if key in m.data && KeySupplies(key, name, scope) {
        CanStackLast(base, AzureSupplied(m, front, name, scope), scope.Parse(m.data[key]));
      }
      AzurePrefixCan(base, m, front, k, name, scope);
      assert front[..k] == keys[..k];
    }
  }

  /** Each applicable key in its turn can be added. */
  lemma AzureCanAdd(m: ConfigMap, keys: seq<string>, i: nat, before: map<Scalar, Value>, now: map<Scalar, Value>,
                    scope: Scope)
    requires i < |keys| && keys[i] in m.data && LengthOrder(keys, m.data.Keys)
    requires AzureCan(before, m, scope) && AzureAdded(before, now, m, keys[..i], scope)
    ensures var name, v := TrimmedKey(keys[i]), scope.Parse(m.data[keys[i]]);
            scope.Matches(KeyLabels(keys[i])) && Str(name) in now ==> Mergeable(now[Str(name)], v)
  {
    var name, v := TrimmedKey(keys[i]), scope.Parse(m.data[keys[i]]);
    if scope.Matches(KeyLabels(keys[i])) {
      var vs := AzureSupplied(m, keys[..i], name, scope);
      AzureNext(m, keys, i, scope);
      hide Layered, Mergeable, CanStack, LengthOrder, TrimmedKey, KeyLabels, Applies, AzureSupplied;
      AzurePrefixCan(Entry(before, name), m, keys, i + 1, name, scope);
      CanStackLast(Entry(before, name), vs, v);
      assert Entry(now, name) == Layered(Entry(before, name), vs);
    }
  }

  lemma AzureNext(m: ConfigMap, keys: seq<string>, i: nat, scope: Scope)
    requires i < |keys| && keys[i] in m.data && scope.Matches(KeyLabels(keys[i]))
    ensures var name := TrimmedKey(keys[i]);
            AzureSupplied(m, keys[..i + 1], name, scope) ==
            AzureSupplied(m, keys[..i], name, scope) + [scope.Parse(m.data[keys[i]])]
  {
    hide TrimmedKey, KeyLabels, Applies;
    assert keys[..i + 1][..i] == keys[..i];
  }

  /** One map: each applicable key is merged, shorter keys first, onto what its bare name holds. */
  method CollectAzureConfig(m: ConfigMap, scope: Scope, store: ConfigData) returns (ghost order: seq<string>)
    requires store.Valid() && AzureCan(store.Contents(), m, scope)
    modifies store.Repr
    ensures store.Valid() && fresh(store.Repr - old(store.Repr))
    ensures LengthOrder(order, m.data.Keys)
    ensures AzureAdded(old(store.Contents()), store.Contents(), m, order, scope)
  {
    hide Put, Merge, Mergeable, KeyLabels, TrimmedKey, Applies, AzureAdded, AzureCan;
    ghost var before := store.Contents();
    var keys := SortKeysByLength(m.data.Keys);
    OrderKeys(keys, m.data.Keys);
    AzureStart(before, m, scope);
    var i := 0;
    while i < |keys|
      invariant 0 <= i <= |keys| && store.Valid() && fresh(store.Repr - old(store.Repr))
      invariant AzureAdded(before, store.Contents(), m, keys[..i], scope)
    {
      var key := keys[i];
      var labels, trimmedKey := GetLabelsFromKey(key);
      AzureStep(m, keys, i, before, store.Contents(), scope);
      AzureCanAdd(m, keys, i, before, store.Contents(), scope);
      var matches := IsConfigForClusterTypeAndTarget(labels, scope.ct, scope.dt);
      if matches {
        store.Add(trimmedKey, scope.Parse(m.data[key]));
      }
      i := i + 1;
    }
    assert keys[..i] == keys;
    order := keys;
  }

  lemma AzureStart(before: map<Scalar, Value>, m: ConfigMap, scope: Scope)
    ensures AzureAdded(before, before, m, [], scope)
  {
  }

  lemma AzureStep(m: ConfigMap, keys: seq<string>, i: nat, before: map<Scalar, Value>, now: map<Scalar, Value>,
                  scope: Scope)
    requires i < |keys| && keys[i] in m.data && AzureAdded(before, now, m, keys[..i], scope)
    ensures var key := keys[i];
            AzureAdded(before,
                       if scope.Matches(KeyLabels(key)) then Put(now, Str(TrimmedKey(key)), scope.Parse(m.data[key]))
                         else now,
                       m, keys[..i + 1], scope)
  {
    hide Put, Layered, LayerOn, Entry, KeyLabels, TrimmedKey, Applies;
    var key, v := keys[i], scope.Parse(m.data[keys[i]]);
    assert keys[..i + 1][..i] == keys[..i];
    EntryPut(now, TrimmedKey(key), v);
    forall name
      ensures Layered(Entry(before, name), AzureSupplied(m, keys[..i + 1], name, scope)) ==
              if KeySupplies(key, name, scope) then LayerOn(Entry(now, name), v) else Entry(now, name)
    {
      var vs := AzureSupplied(m, keys[..i], name, scope);
      LayeredSnoc(Entry(before, name), vs, v);
      assert vs + [] == vs;
    }
  }

  lemma AzureUnfold(m: ConfigMap, keys: seq<string>, name: string, scope: Scope)
    requires keys != []
    ensures var front, key := keys[..|keys| - 1], keys[|keys| - 1];
            AzureSupplied(m, keys, name, scope) ==
            if key in m.data && KeySupplies(key, name, scope)
            then AzureSupplied(m, front, name, scope) + [scope.Parse(m.data[key])]
            else AzureSupplied(m, front, name, scope)
  {
    hide KeySupplies;
    var vs := AzureSupplied(m, keys[..|keys| - 1], name, scope);
    assert vs + [] == vs;
  }

  lemma {:induction false} LastSupplier(order: seq<string>, name: string, scope: Scope) returns (i: nat)
    requires exists j :: 0 <= j < |order| && KeySupplies(order[j], name, scope)
    ensures i < |order| && KeySupplies(order[i], name, scope)
    ensures forall j :: i < j < |order| ==> !KeySupplies(order[j], name, scope)
  {
    hide KeySupplies;
    i := |order| - 1;
    if !KeySupplies(order[i], name, scope) {
      var j :| 0 <= j < |order| && KeySupplies(order[j], name, scope);
      assert KeySupplies(order[..i][j], name, scope);
      var n := i;
      i := LastSupplier(order[..n], name, scope);
      assert forall j :: 0 <= j < n ==> order[..n][j] == order[j];
    }
  }

  lemma {:induction false} SuppliedByLast(m: ConfigMap, order: seq<string>, name: string, scope: Scope, i: nat)
    requires i < |order| && KeySupplies(order[i], name, scope)
    requires forall j :: 0 <= j < |order| ==> order[j] in m.data
    requires forall j :: i < j < |order| ==> !KeySupplies(order[j], name, scope)
    ensures var vs := AzureSupplied(m, order, name, scope); vs != [] && vs[|vs| - 1] == scope.Parse(m.data[order[i]])
  {
    hide *;
    var n := |order| - 1;
    AzureUnfold(m, order, name, scope);
    if i < n {
      SuppliedByLast(m, order[..n], name, scope, i);
    }
  }

  /** Among the keys supplying a name, one of the longest is merged last, however the sort breaks ties. */
  lemma LongestKeyLast(m: ConfigMap, order: seq<string>, name: string, scope: Scope) returns (k: string)
    requires forall i :: 0 <= i < |order| ==> order[i] in m.data
    requires forall i, j :: 0 <= i < j < |order| ==> |order[i]| <= |order[j]|
    requires exists i :: 0 <= i < |order| && KeySupplies(order[i], name, scope)
    ensures k in order && KeySupplies(k, name, scope)
    ensures forall i :: 0 <= i < |order| && KeySupplies(order[i], name, scope) ==> |order[i]| <= |k|
    ensures var vs := AzureSupplied(m, order, name, scope); vs != [] && vs[|vs| - 1] == scope.Parse(m.data[k])
  {
    hide *;
    var i := LastSupplier(order, name, scope);
    SuppliedByLast(m, order, name, scope, i);
    k := order[i];
  }

  /** `key` supplies `name`, and no longer key does. */
  predicate LongestSupplier(m: ConfigMap, key: string, name: string, scope: Scope) {
    key in m.data && KeySupplies(key, name, scope)
    && forall other :: other in m.data && KeySupplies(other, name, scope) ==> |other| <= |key|
  }

  /** If the longest applicable keys for a name hold scalars, one of those scalars is the final value, whatever
      shorter keys, other maps or the platform config had supplied before. */
  lemma LongestScalarWins(m: ConfigMap, order: seq<string>, name: string, scope: Scope, base: Option<Value>)
    returns (k: string)
    requires LengthOrder(order, m.data.Keys) && forall i :: 0 <= i < |order| ==> order[i] in m.data
    requires exists key :: key in m.data && KeySupplies(key, name, scope)
    requires forall key :: LongestSupplier(m, key, name, scope) ==> scope.Parse(m.data[key]).Leaf?
    ensures LongestSupplier(m, k, name, scope)
    ensures Layered(base, AzureSupplied(m, order, name, scope)) == Some(scope.Parse(m.data[k]))
  {
    OrderKeys(order, m.data.Keys);
    assert exists i :: 0 <= i < |order| && KeySupplies(order[i], name, scope) by {
      var key :| key in m.data && KeySupplies(key, name, scope);
      assert key in order;
    }
    k := LongestKeyLast(m, order, name, scope);
    assert LongestSupplier(m, k, name, scope) by {
      forall other | other in m.data && KeySupplies(other, name, scope)
        ensures |other| <= |k|
      {
        assert other in order;
      }
    }
    hide *;
    LastScalarWins(base, AzureSupplied(m, order, name, scope));
  }

  lemma LastScalarWins(base: Option<Value>, vs: seq<Value>)
    requires vs != [] && vs[|vs| - 1].Leaf?
    ensures Layered(base, vs) == Some(vs[|vs| - 1])
  {
  }

  // ----- The whole collection -----

  predicate IsPlatformMap(m: ConfigMap) {
    Lookup(m.labels, PLATFORM_CONFIG_LABEL) == "true"
  }

  predicate IsAzureMap(m: ConfigMap) {
    HasPrefix(m.name, "azure-app-config")
  }

  function PlatformMaps(ms: seq<ConfigMap>): seq<ConfigMap> {
    if ms == [] then []
    else PlatformMaps(ms[..|ms| - 1]) + if IsPlatformMap(ms[|ms| - 1]) then [ms[|ms| - 1]] else []
  }

  /** The orders in which the keys of the Azure maps were taken; other maps contribute no keys. */
  ghost predicate AzureOrders(ms: seq<ConfigMap>, orders: seq<seq<string>>) {
    |orders| == |ms|
    && forall i :: 0 <= i < |ms| ==>
                     if IsAzureMap(ms[i]) then LengthOrder(orders[i], ms[i].data.Keys) else orders[i] == []
  }

  function AllAzureSupplied(ms: seq<ConfigMap>, orders: seq<seq<string>>, name: string, scope: Scope): seq<Value>
    requires |orders| == |ms|
  {
    if ms == [] then []
    else
      var n := |ms| - 1;
      AllAzureSupplied(ms[..n], orders[..n], name, scope)
      + if IsAzureMap(ms[n]) then AzureSupplied(ms[n], orders[n], name, scope) else []
  }

  /** Every name holds exactly what the platform maps, in name order, and then the Azure maps supply for it. */
  ghost predicate Collected(data: map<Scalar, Value>, sorted: seq<ConfigMap>, ms: seq<ConfigMap>,
                            orders: seq<seq<string>>, scope: Scope)
  {
    AzureOrders(ms, orders)
    && forall name :: Entry(data, name) ==
                      Layered(None, Supplied(sorted, name, scope) + AllAzureSupplied(ms, orders, name, scope))
  }

  /** Whatever orders the keys are taken in, all supplied values can be merged in place. */
  ghost predicate CanCollect(sorted: seq<ConfigMap>, ms: seq<ConfigMap>, scope: Scope) {
    forall i, orders, name :: 0 <= i <= |ms| && AzureOrders(ms[..i], orders) ==>
                                CanStack(None, Supplied(sorted, name, scope) + AllAzureSupplied(ms[..i], orders, name,
                                  scope))
  }

  lemma CanCollectPlatform(sorted: seq<ConfigMap>, ms: seq<ConfigMap>, scope: Scope)
    requires CanCollect(sorted, ms, scope)
    ensures PlatformCan(sorted, scope)
  {
    hide CanStack, Supplied;
    assert ms[..0] == [] && AzureOrders(ms[..0], []);
    forall key
      ensures CanStack(None, Supplied(sorted, key, scope))
    {
      assert CanStack(None, Supplied(sorted, key, scope) + AllAzureSupplied(ms[..0], [], key, scope));
      assert Supplied(sorted, key, scope) + [] == Supplied(sorted, key, scope);
    }
  }

  lemma CanCollectAzure(data: map<Scalar, Value>, sorted: seq<ConfigMap>, ms: seq<ConfigMap>, i: nat,
                        orders: seq<seq<string>>, scope: Scope)
    requires i < |ms| && IsAzureMap(ms[i]) && CanCollect(sorted, ms, scope)
    requires Collected(data, sorted, ms[..i], orders, scope)
    ensures AzureCan(data, ms[i], scope)
  {
    hide CanStack, Supplied, AzureSupplied, Layered, Entry, LengthOrder;
    assert ms[..i + 1][..i] == ms[..i];
    forall order, name | LengthOrder(order, ms[i].data.Keys)
      ensures CanStack(Entry(data, name), AzureSupplied(ms[i], order, name, scope))
    {
      var longer := orders + [order];
      assert longer[..i] == orders;
      assert AzureOrders(ms[..i + 1], longer);
      var vs, ws, us := Supplied(sorted, name, scope), AllAzureSupplied(ms[..i], orders, name, scope),
                        AzureSupplied(ms[i], order, name, scope);
      assert CanStack(None, vs + AllAzureSupplied(ms[..i + 1], longer, name, scope));
      assert vs + (ws + us) == (vs + ws) + us;
      CanStackConcat(None, vs + ws, us);
    }
  }

  /** It is enough that all values of the maps are well-formed. */
  lemma WellFormedCanCollect(sorted: seq<ConfigMap>, ms: seq<ConfigMap>, scope: Scope)
    requires forall m, key :: (m in sorted || m in ms) && key in m.data ==> WellFormed(scope.Parse(m.data[key]))
    ensures CanCollect(sorted, ms, scope)
  {
    forall i, orders, name | 0 <= i <= |ms| && AzureOrders(ms[..i], orders)
      ensures CanStack(None, Supplied(sorted, name, scope) + AllAzureSupplied(ms[..i], orders, name, scope))
    {
      SuppliedWellFormed(sorted, name, scope);
      AllAzureWellFormed(ms[..i], orders, name, scope);
      WellFormedCanStack(None, Supplied(sorted, name, scope) + AllAzureSupplied(ms[..i], orders, name, scope));
    }
  }

  lemma {:induction false} SuppliedWellFormed(ms: seq<ConfigMap>, name: string, scope: Scope)
    requires forall m, key :: m in ms && key in m.data ==> WellFormed(scope.Parse(m.data[key]))
    ensures forall v :: v in Supplied(ms, name, scope) ==> WellFormed(v)
  {
    hide WellFormed, Applies;
    if ms == [] {
    } else {
      var n := |ms| - 1;
      SuppliedWellFormed(ms[..n], name, scope);
      assert ms[n] in ms;
    }
  }

  lemma {:induction false} AzureWellFormed(m: ConfigMap, keys: seq<string>, name: string, scope: Scope)
    requires forall key :: key in m.data ==> WellFormed(scope.Parse(m.data[key]))
    ensures forall v :: v in AzureSupplied(m, keys, name, scope) ==> WellFormed(v)
  {
    hide WellFormed, KeySupplies;
    if keys == [] {
    } else {
      AzureWellFormed(m, keys[..|keys| - 1], name, scope);
    }
  }

  lemma {:induction false} AllAzureWellFormed(ms: seq<ConfigMap>, orders: seq<seq<string>>, name: string, scope: Scope)
    requires |orders| == |ms|
    requires forall m, key :: m in ms && key in m.data ==> WellFormed(scope.Parse(m.data[key]))
    ensures forall v :: v in AllAzureSupplied(ms, orders, name, scope) ==> WellFormed(v)
  {
    hide WellFormed, AzureSupplied;
    if ms == [] {
    } else {
      var n := |ms| - 1;
      AllAzureWellFormed(ms[..n], orders[..n], name, scope);
      assert ms[n] in ms;
      AzureWellFormed(ms[n], orders[n], name, scope);
    }
  }

  /** The platform maps are those labelled `platform-config` with the value `true`. */
  lemma {:induction false} PlatformMapsExact(ms: seq<ConfigMap>, m: ConfigMap)
    ensures m in PlatformMaps(ms) <==>
            m in ms && "platform-config" in m.labels && m.labels["platform-config"] == "true"
  {
    if ms == [] {
    } else {
      var n := |ms| - 1;
      PlatformMapsExact(ms[..n], m);
      assert ms == ms[..n] + [ms[n]];
    }
  }

  /** `sorted` holds the maps labelled `platform-config` with the value `true`, and no others. */
  ghost predicate ArePlatformMaps(sorted: seq<ConfigMap>, ms: seq<ConfigMap>) {
    forall m :: m in sorted <==> m in ms && "platform-config" in m.labels && m.labels["platform-config"] == "true"
  }

  /** Keys are taken from the maps whose name begins with `azure-app-config`, and from no others. */
  ghost predicate AreAzureKeys(orders: seq<seq<string>>, ms: seq<ConfigMap>) {
    |orders| == |ms|
    && forall i, key :: 0 <= i < |ms| ==>
                          (key in orders[i] <==> "azure-app-config" <= ms[i].name && key in ms[i].data)
  }

  lemma SortedPlatformMaps(ms: seq<ConfigMap>, sorted: seq<ConfigMap>)
    requires NameOrder(sorted, PlatformMaps(ms))
    ensures ArePlatformMaps(sorted, ms)
  {
    forall m
      ensures m in sorted <==> m in ms && "platform-config" in m.labels && m.labels["platform-config"] == "true"
    {
      PlatformMapsExact(ms, m);
      hide PlatformMaps;
      assert m in sorted <==> m in multiset(sorted);
      assert m in PlatformMaps(ms) <==> m in multiset(PlatformMaps(ms));
    }
  }

  /** The Azure maps are those whose name begins with `azure-app-config`; each of their keys is taken once. */
  lemma AzureMapsExact(data: map<Scalar, Value>, sorted: seq<ConfigMap>, ms: seq<ConfigMap>, orders: seq<seq<string>>,
                       scope: Scope)
    requires Collected(data, sorted, ms, orders, scope)
    ensures AreAzureKeys(orders, ms)
  {
    forall i, key | 0 <= i < |ms|
      ensures key in orders[i] <==> "azure-app-config" <= ms[i].name && key in ms[i].data
    {
      if IsAzureMap(ms[i]) {
        OrderKeys(orders[i], ms[i].data.Keys);
      }
    }
  }

  /** `sorted` is what sorting the listed platform maps by name yields. A failing listing yields no data at all. */
  method GetConfigData(ms: seq<ConfigMap>, sorted: seq<ConfigMap>, scope: Scope, platformListed: bool, allListed: bool)
    returns (store: ConfigData?, ghost orders: seq<seq<string>>)
    requires NameOrder(sorted, PlatformMaps(ms)) && CanCollect(sorted, ms, scope)
    ensures store != null <==> platformListed && allListed
    ensures store != null ==> fresh(store) && store.Valid() && Collected(store.Contents(), sorted, ms, orders, scope)
    // Which maps these are, and which of their keys are taken.
    ensures ArePlatformMaps(sorted, ms) && (store != null ==> AreAzureKeys(orders, ms))
  {
    hide *;
    SortedPlatformMaps(ms, sorted);
    orders := [];
    if !platformListed {
      return null, [];
    }
    CanCollectPlatform(sorted, ms, scope);
    var data := new ConfigData();
    CollectPlatformConfig(sorted, scope, data);
    if !allListed {
      return null, [];
    }
    CollectedStart(data.Contents(), sorted, scope);
    var i := 0;
    while i < |ms|
      invariant 0 <= i <= |ms| && data.Valid() && fresh(data) && fresh(data.Repr)
      invariant Collected(data.Contents(), sorted, ms[..i], orders, scope)
    {
      ghost var before := data.Contents();
      ghost var order := [];
      if IsAzureMap(ms[i]) {
        CanCollectAzure(before, sorted, ms, i, orders, scope);
        order := CollectAzureConfig(ms[i], scope, data);
      }
      CollectedStep(before, data.Contents(), sorted, ms, i, orders, order, scope);
      orders := orders + [order];
      i := i + 1;
    }
    assert ms[..i] == ms;
    AzureMapsExact(data.Contents(), sorted, ms, orders, scope);
    store := data;
  }

  lemma CollectedStart(data: map<Scalar, Value>, sorted: seq<ConfigMap>, scope: Scope)
    requires PlatformData(data, sorted, scope)
    ensures Collected(data, sorted, [], [], scope)
  {
    forall name
      ensures Supplied(sorted, name, scope) + AllAzureSupplied([], [], name, scope) == Supplied(sorted, name, scope)
    {
    }
  }

  lemma CollectedStep(before: map<Scalar, Value>, after: map<Scalar, Value>, sorted: seq<ConfigMap>,
                      ms: seq<ConfigMap>, i: nat,
                      orders: seq<seq<string>>, order: seq<string>, scope: Scope)
    requires i < |ms| && Collected(before, sorted, ms[..i], orders, scope)
    requires if IsAzureMap(ms[i]) then LengthOrder(order, ms[i].data.Keys)
            && AzureAdded(before, after, ms[i], order, scope)
             else order == [] && after == before
    ensures Collected(after, sorted, ms[..i + 1], orders + [order], scope)
  {
    hide Layered, LengthOrder, AzureSupplied, Supplied, Entry;
    assert ms[..i + 1][..i] == ms[..i] && (orders + [order])[..i] == orders;
    assert AzureOrders(ms[..i + 1], orders + [order]);
    forall name
      ensures Entry(after, name) ==
              Layered(None, Supplied(sorted, name, scope) + AllAzureSupplied(ms[..i + 1], orders + [order], name,
                scope))
    {
      var vs, ws := Supplied(sorted, name, scope), AllAzureSupplied(ms[..i], orders, name, scope);
      if IsAzureMap(ms[i]) {
        var us := AzureSupplied(ms[i], order, name, scope);
        LayeredConcat(None, vs + ws, us);
        assert vs + ws + us == vs + (ws + us);
      } else {
        assert ws + [] == ws;
      }
    }
  }

  // ----- What is collected for a name -----

  /** The config map is a platform map for this scope and has the key. */
  predicate MapSupplies(m: ConfigMap, key: string, scope: Scope) {
    "platform-config" in m.labels && m.labels["platform-config"] == "true" && scope.Matches(m.labels) && key in m.data
  }

  /** The config map is an Azure map, and one of its keys stands for the name in this scope. */
  ghost predicate AzureMapSupplies(m: ConfigMap, name: string, scope: Scope) {
    "azure-app-config" <= m.name && exists key :: key in m.data && KeySupplies(key, name, scope)
  }

  lemma {:induction false} SuppliedLast(ms: seq<ConfigMap>, key: string, scope: Scope) returns (i: nat)
    requires exists m :: m in ms && scope.Matches(m.labels) && key in m.data
    ensures i < |ms| && scope.Matches(ms[i].labels) && key in ms[i].data
    ensures forall j :: i < j < |ms| ==> !(scope.Matches(ms[j].labels) && key in ms[j].data)
    ensures var vs := Supplied(ms, key, scope); vs != [] && vs[|vs| - 1] == scope.Parse(ms[i].data[key])
  {
    hide *;
    var n := |ms| - 1;
    i := n;
    SuppliedUnfold(ms, key, scope);
    if !(scope.Matches(ms[n].labels) && key in ms[n].data) {
      assert ms == ms[..n] + [ms[n]];
      i := SuppliedLast(ms[..n], key, scope);
    }
  }

  lemma {:induction false} SuppliedNone(ms: seq<ConfigMap>, key: string, scope: Scope)
    requires forall m :: m in ms && scope.Matches(m.labels) ==> key !in m.data
    ensures Supplied(ms, key, scope) == []
  {
    hide Applies;
    if ms == [] {
    } else {
      SuppliedNone(ms[..|ms| - 1], key, scope);
    }
  }

  lemma {:induction false} AzureNone(m: ConfigMap, keys: seq<string>, name: string, scope: Scope)
    requires forall key :: key in keys && key in m.data ==> !KeySupplies(key, name, scope)
    ensures AzureSupplied(m, keys, name, scope) == []
  {
    hide KeySupplies;
    if keys == [] {
    } else {
      AzureNone(m, keys[..|keys| - 1], name, scope);
    }
  }

  /** After the last Azure map that supplies the name, nothing more comes. */
  lemma {:induction false} AllAzureLast(ms: seq<ConfigMap>, orders: seq<seq<string>>, i: nat, name: string,
                                        scope: Scope)
    requires AzureOrders(ms, orders) && i <= |ms|
    requires forall j :: i <= j < |ms| ==> !AzureMapSupplies(ms[j], name, scope)
    ensures AllAzureSupplied(ms, orders, name, scope) == AllAzureSupplied(ms[..i], orders[..i], name, scope)
  {
    hide LengthOrder, KeySupplies, AzureSupplied;
    var n := |ms| - 1;
    if i > n {
      assert ms[..i] == ms && orders[..i] == orders;
    } else {
      assert AzureOrders(ms[..n], orders[..n]);
      AllAzureLast(ms[..n], orders[..n], i, name, scope);
      assert ms[..n][..i] == ms[..i] && orders[..n][..i] == orders[..i];
      assert !AzureMapSupplies(ms[n], name, scope);
      if IsAzureMap(ms[n]) {
        AzureNone(ms[n], orders[n], name, scope);
      }
    }
  }

  /** Of the platform maps with the key, the one that comes last by name is merged last. */
  lemma GreatestIsLast(sorted: seq<ConfigMap>, ms: seq<ConfigMap>, scope: Scope, m: ConfigMap, key: string)
    requires NameOrder(sorted, PlatformMaps(ms)) && m in ms && MapSupplies(m, key, scope)
    requires forall other :: other in ms && MapSupplies(other, key, scope) && other != m ==> Less(other.name, m.name)
    ensures var vs := Supplied(sorted, key, scope); vs != [] && vs[|vs| - 1] == scope.Parse(m.data[key])
  {
    SortedPlatformMaps(ms, sorted);
    hide Applies, Less, PlatformMaps, Supplied, Scope.Parse;
    var i := SuppliedLast(sorted, key, scope);
    var last := sorted[i];
    assert last in ms && MapSupplies(last, key, scope);
    var j :| 0 <= j < |sorted| && sorted[j] == m;
    assert j < i ==> !Less(sorted[i].name, sorted[j].name);
    assert last == m;
  }

  /** Without Azure keys for the name, the platform map that comes last by name has the final say if its value is a
      scalar. */
  lemma GreatestNameWins(data: map<Scalar, Value>, sorted: seq<ConfigMap>, ms: seq<ConfigMap>,
                         orders: seq<seq<string>>, scope: Scope, m: ConfigMap, key: string)
    requires NameOrder(sorted, PlatformMaps(ms)) && Collected(data, sorted, ms, orders, scope)
    requires m in ms && MapSupplies(m, key, scope)
    requires forall other :: other in ms && MapSupplies(other, key, scope) && other != m ==> Less(other.name, m.name)
    requires forall other :: other in ms ==> !AzureMapSupplies(other, key, scope)
    requires scope.Parse(m.data[key]).Leaf?
    ensures Entry(data, key) == Some(scope.Parse(m.data[key]))
  {
    GreatestIsLast(sorted, ms, scope, m, key);
    CollectedUpTo(data, sorted, ms, orders, scope, 0, key);
    hide *;
    AllAzureStart(ms, orders, key, scope);
    LastScalarWins(None, Supplied(sorted, key, scope));
  }

  lemma AllAzureStart(ms: seq<ConfigMap>, orders: seq<seq<string>>, name: string, scope: Scope)
    requires |orders| == |ms|
    ensures AllAzureSupplied(ms[..0], orders[..0], name, scope) == []
  {
  }

  /** If the maps from `i` on are no Azure maps for the name, the maps before `i` decide. */
  lemma CollectedUpTo(data: map<Scalar, Value>, sorted: seq<ConfigMap>, ms: seq<ConfigMap>, orders: seq<seq<string>>,
                      scope: Scope, i: nat, name: string)
    requires Collected(data, sorted, ms, orders, scope) && i <= |ms|
    requires forall j :: i <= j < |ms| ==> !AzureMapSupplies(ms[j], name, scope)
    ensures |orders| == |ms|
    ensures Entry(data, name) ==
            Layered(Layered(None, Supplied(sorted, name, scope)),
                    AllAzureSupplied(ms[..i], orders[..i], name, scope))
  {
    AllAzureLast(ms, orders, i, name, scope);
    hide Layered, Supplied, AllAzureSupplied, AzureOrders, AzureMapSupplies;
    LayeredConcat(None, Supplied(sorted, name, scope), AllAzureSupplied(ms[..i], orders[..i], name, scope));
  }

  lemma AllAzureNext(ms: seq<ConfigMap>, orders: seq<seq<string>>, i: nat, name: string, scope: Scope)
    requires |orders| == |ms| && i < |ms| && IsAzureMap(ms[i])
    ensures AllAzureSupplied(ms[..i + 1], orders[..i + 1], name, scope) ==
            AllAzureSupplied(ms[..i], orders[..i], name, scope) + AzureSupplied(ms[i], orders[i], name, scope)
  {
    hide AzureSupplied;
    assert ms[..i + 1][..i] == ms[..i] && orders[..i + 1][..i] == orders[..i];
  }

  lemma AzureOrderAt(ms: seq<ConfigMap>, orders: seq<seq<string>>, i: nat)
    requires AzureOrders(ms, orders) && i < |ms| && IsAzureMap(ms[i])
    ensures LengthOrder(orders[i], ms[i].data.Keys) && forall j :: 0 <= j < |orders[i]| ==> orders[i][j] in ms[i].data
  {
    OrderKeys(orders[i], ms[i].data.Keys);
    hide LengthOrder;
  }

  /** The last Azure map that supplies the name comes after everything else; if the longest keys hold scalars, one of
      them has the final say. */
  lemma AzureWins(data: map<Scalar, Value>, sorted: seq<ConfigMap>, ms: seq<ConfigMap>, orders: seq<seq<string>>,
                  scope: Scope, i: nat, name: string)
    returns (k: string)
    requires Collected(data, sorted, ms, orders, scope) && i < |ms| && AzureMapSupplies(ms[i], name, scope)
    requires forall j :: i < j < |ms| ==> !AzureMapSupplies(ms[j], name, scope)
    requires forall key :: LongestSupplier(ms[i], key, name, scope) ==> scope.Parse(ms[i].data[key]).Leaf?
    ensures LongestSupplier(ms[i], k, name, scope) && Entry(data, name) == Some(scope.Parse(ms[i].data[k]))
  {
    CollectedUpTo(data, sorted, ms, orders, scope, i + 1, name);
    AzureOrderAt(ms, orders, i);
    hide KeySupplies, Supplied, AzureSupplied, LengthOrder, Layered, AllAzureSupplied, Collected, LongestSupplier;
    AllAzureNext(ms, orders, i, name, scope);
    var vs, ws := AllAzureSupplied(ms[..i], orders[..i], name, scope), AzureSupplied(ms[i], orders[i], name, scope);
    var base := Layered(None, Supplied(sorted, name, scope));
    LayeredConcat(base, vs, ws);
    k := LongestScalarWins(ms[i], orders[i], name, scope, Layered(base, vs));
  }

  /** A platform map without further labels supplies its keys for every cluster type and target. */
  lemma PlainMapSupplies(data: map<Scalar, Value>, sorted: seq<ConfigMap>, ms: seq<ConfigMap>,
                         orders: seq<seq<string>>, scope: Scope, m: ConfigMap, key: string)
    requires NameOrder(sorted, PlatformMaps(ms)) && Collected(data, sorted, ms, orders, scope)
    requires m in ms && m.labels == map["platform-config" := "true"] && key in m.data
    ensures Entry(data, key).Some?
  {
    var none: Labels := map[];
    OperatorLabelsIrrelevant(none, "platform-config", "true", scope.ct, scope.dt);
    assert none["platform-config" := "true"] == m.labels && none - {"platform-config"} == none;
    SortedPlatformMaps(ms, sorted);
    hide Applies;
    var _ := SuppliedLast(sorted, key, scope);
  }

  /** The collected data is the same for every order in which the API lists the platform maps and for every order in
      which the keys of a map are visited. */
  lemma CollectionDetermined(a: map<Scalar, Value>, b: map<Scalar, Value>, sortedA: seq<ConfigMap>,
                             sortedB: seq<ConfigMap>,
                             listedA: seq<ConfigMap>, listedB: seq<ConfigMap>, ms: seq<ConfigMap>,
                               orders: seq<seq<string>>, scope: Scope)
    requires Collected(a, sortedA, ms, orders, scope) && Collected(b, sortedB, ms, orders, scope)
    requires NameOrder(sortedA, listedA) && NameOrder(sortedB, listedB)
    requires multiset(listedA) == multiset(listedB) && UniqueMapNames(listedA)
    ensures forall name :: Entry(a, name) == Entry(b, name)
  {
    NameOrderUnique(sortedA, sortedB, listedA, listedB);
  }
}
