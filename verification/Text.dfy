/** Splitting, joining and ordering of strings, as the Go `strings` and `sort` packages do it. */
module Text {

  predicate HasPrefix(s: string, p: string) {
    p <= s
  }

  /** The parts of `s` between the non-overlapping occurrences of `sep`, found from the left. */
  function Split(s: string, sep: string): (parts: seq<string>)
    requires sep != []
    ensures parts != []
  {
    if |s| < |sep| then [s]
    else if HasPrefix(s, sep) then [[]] + Split(s[|sep|..], sep)
    else
      var rest := Split(s[1..], sep);
      [[s[0]] + rest[0]] + rest[1..]
  }

  function Join(parts: seq<string>, sep: string): string {
    if parts == [] then []
    else if |parts| == 1 then parts[0]
    else parts[0] + sep + Join(parts[1..], sep)
  }

  /** The first occurrence of `sep` in `a + sep` is at the end. */
  predicate NoEarly(a: string, sep: string) {
    a == [] || (!HasPrefix(a + sep, sep) && NoEarly(a[1..], sep))
  }

  /** `sep` does not occur in `a`. */
  predicate Lacks(a: string, sep: string) {
    |a| < |sep| || (!HasPrefix(a, sep) && (a == [] || Lacks(a[1..], sep)))
  }

  lemma PrefixOfLonger(s: string, p: string, rest: string)
    requires |p| <= |s|
    ensures HasPrefix(s + rest, p) <==> HasPrefix(s, p)
  {
    assert (s + rest)[..|p|] == s[..|p|];
  }

  lemma {:induction false} SplitAtFirst(a: string, sep: string, rest: string)
    requires sep != [] && NoEarly(a, sep)
    ensures Split(a + sep + rest, sep) == [a] + Split(rest, sep)
  {
    var s := a + sep + rest;
    if a == [] {
      assert s[..|sep|] == sep && s[|sep|..] == rest;
    } else {
      PrefixOfLonger(a + sep, sep, rest);
      SplitAtFirst(a[1..], sep, rest);
      assert s[0] == a[0] && s[1..] == a[1..] + sep + rest;
      assert [a[0]] + a[1..] == a;
      assert ([a[1..]] + Split(rest, sep))[1..] == Split(rest, sep);
    }
  }

  lemma PartsAppend(h: char, parts: seq<string>, last: string)
    requires parts != []
    ensures var longer := parts + [last];
            [[h] + longer[0]] + longer[1..] == [[h] + parts[0]] + parts[1..] + [last]
            && [[]] + longer == [[]] + parts + [last]
  {
    assert (parts + [last])[1..] == parts[1..] + [last];
  }

  lemma SplitHead(s: string, c: char)
    requires s != []
    ensures var parts := Split(s[1..], [c]);
            Split(s, [c]) == if s[0] == c then [[]] + parts else [[s[0]] + parts[0]] + parts[1..]
  {
    assert s[..1] == [s[0]];
  }

  /** A last part without the separator is split off, whatever comes before it. */
  lemma {:induction false} SplitAtLast(s: string, c: char, last: string)
    requires c !in last
    ensures Split(s + [c] + last, [c]) == Split(s, [c]) + [last]
  {
    if s == [] {
      SingleSeparator(last, c);
      SplitWhole(last, [c]);
      SplitHead([c] + last, c);
      assert [] + [c] + last == [c] + last && ([c] + last)[1..] == last;
    } else {
      hide *;
      SplitAtLast(s[1..], c, last);
      SplitHead(s, c);
      SplitHead([s[0]] + (s[1..] + [c] + last), c);
      PartsAppend(s[0], Split(s[1..], [c]), last);
      TailAppend(s, c, last);
    }
  }

  lemma TailAppend(s: string, c: char, last: string)
    requires s != []
    ensures var t := s[1..] + [c] + last;
            s + [c] + last == [s[0]] + t && ([s[0]] + t)[1..] == t && ([s[0]] + t)[0] == s[0]
  {
    assert s == [s[0]] + s[1..];
  }

  lemma {:induction false} SplitWhole(a: string, sep: string)
    requires sep != [] && Lacks(a, sep)
    ensures Split(a, sep) == [a]
  {
    if |a| < |sep| {
    } else {
      SplitWhole(a[1..], sep);
      assert a == [a[0]] + a[1..];
    }
  }

  /** Splitting undoes joining, if no part can be confused with a separator. */
  lemma {:induction false} SplitJoin(parts: seq<string>, sep: string)
    requires sep != [] && parts != []
    requires forall i :: 0 <= i < |parts| ==> NoEarly(parts[i], sep) && Lacks(parts[i], sep)
    ensures Split(Join(parts, sep), sep) == parts
  {
    if |parts| == 1 {
      SplitWhole(parts[0], sep);
    } else {
      SplitAtFirst(parts[0], sep, Join(parts[1..], sep));
      SplitJoin(parts[1..], sep);
    }
  }

  /** Joining undoes splitting, for every string. */
  lemma {:induction false} JoinSplit(s: string, sep: string)
    requires sep != []
    ensures Join(Split(s, sep), sep) == s
    decreases |s|
  {
    if |s| < |sep| {
    } else if HasPrefix(s, sep) {
      var tail := s[|sep|..];
      JoinSplit(tail, sep);
      assert ([[]] + Split(tail, sep))[1..] == Split(tail, sep);
      assert s == sep + tail;
    } else {
      JoinSplit(s[1..], sep);
      JoinExtend(s[0], Split(s[1..], sep), sep);
    }
  }

  lemma JoinExtend(c: char, parts: seq<string>, sep: string)
    requires parts != []
    ensures Join([[c] + parts[0]] + parts[1..], sep) == [c] + Join(parts, sep)
  {
    var longer := [[c] + parts[0]] + parts[1..];
    assert longer[1..] == parts[1..];
  }

  /** For a one-character separator both conditions say that the character does not occur. */
  lemma {:induction false} SingleSeparator(a: string, c: char)
    requires c !in a
    ensures NoEarly(a, [c]) && Lacks(a, [c])
  {
    if a == [] {
    } else {
      assert a[0] != c && (a + [c])[0] == a[0];
      SingleSeparator(a[1..], c);
    }
  }

  lemma {:induction false} PartsLackSeparator(s: string, c: char)
    ensures forall i :: 0 <= i < |Split(s, [c])| ==> c !in Split(s, [c])[i]
  {
    if s == [] {
    } else {
      PartsLackSeparator(s[1..], c);
      if s[..1] != [c] {
        assert s[0] != c;
      }
    }
  }

  // ----- String order -----

  /** Go's `<` on strings. */
  predicate Less(a: string, b: string) {
    b != [] && (a == [] || a[0] < b[0] || (a[0] == b[0] && Less(a[1..], b[1..])))
  }

  lemma {:induction false} LessTotal(a: string, b: string)
    ensures Less(a, b) || Less(b, a) || a == b
  {
    if a != [] && b != [] {
      LessTotal(a[1..], b[1..]);
      assert a == [a[0]] + a[1..] && b == [b[0]] + b[1..];
    }
  }

  /** The first difference decides, and a proper prefix comes first. */
  lemma {:induction false} LessAtDifference(p: string, a: string, b: string)
    requires a != [] && b != [] ==> a[0] != b[0]
    ensures Less(p + a, p + b) <==> b != [] && (a == [] || a[0] < b[0])
  {
    if p == [] {
      assert p + a == a && p + b == b;
    } else {
      LessAtDifference(p[1..], a, b);
      assert (p + a)[1..] == p[1..] + a && (p + b)[1..] == p[1..] + b;
    }
  }
}
