/** Manifest lists as one YAML text. */
module Manifests {
  import opened Text

  const SEPARATOR := "---\n"

  function Yaml(manifests: seq<string>): string {
    if manifests == [] then ""
    else
      var front := Yaml(manifests[..|manifests| - 1]);
      (if front != "" then front + SEPARATOR else front) + manifests[|manifests| - 1]
  }

  method GetManifestsYamlString(manifests: seq<string>) returns (yaml: string)
    ensures yaml == Yaml(manifests)
  {
    yaml := "";
    for i := 0 to |manifests|
      invariant yaml == Yaml(manifests[..i])
    {
      assert manifests[..i + 1][..i] == manifests[..i];
      if yaml != "" {
        yaml := yaml + SEPARATOR;
      }
      yaml := yaml + manifests[i];
    }
    assert manifests[..|manifests|] == manifests;
  }

  lemma {:induction false} JoinSnoc(parts: seq<string>, last: string, sep: string)
    requires parts != []
    ensures Join(parts + [last], sep) == Join(parts, sep) + sep + last
  {
    if |parts| > 1 {
      JoinSnoc(parts[1..], last, sep);
      assert (parts + [last])[1..] == parts[1..] + [last];
    } else {
      assert (parts + [last])[1..] == [last];
    }
  }

  /** From the first non-empty manifest on, the text is the manifests joined by the separator; it is empty only if there
      are none. */
  lemma {:induction false} YamlIsJoin(manifests: seq<string>)
    requires manifests != [] ==> manifests[0] != ""
    ensures Yaml(manifests) == Join(manifests, "---\n")
    ensures Yaml(manifests) == "" <==> manifests == []
  {
    if manifests == [] {
    } else {
      var n := |manifests| - 1;
      hide *;
      YamlIsJoin(manifests[..n]);
      YamlLast(manifests);
      assert manifests == manifests[..n] + [manifests[n]];
      if n > 0 {
        JoinSnoc(manifests[..n], manifests[n], SEPARATOR);
      } else {
        JoinOne(manifests[0]);
        assert manifests == [manifests[0]];
      }
    }
  }

  lemma JoinOne(part: string)
    ensures Join([part], SEPARATOR) == part
  {
  }

  lemma YamlLast(manifests: seq<string>)
    requires manifests != []
    ensures var front, last := Yaml(manifests[..|manifests| - 1]), manifests[|manifests| - 1];
            Yaml(manifests) == (if front != "" then front + SEPARATOR + last else last)
            && (front != "" ==> Yaml(manifests) != "") && (|manifests| == 1 ==> front == "")
  {
    assert "" + manifests[|manifests| - 1] == manifests[|manifests| - 1];
  }

  /** Empty manifests at the beginning leave no trace. */
  lemma {:induction false} LeadingEmptyDropped(manifests: seq<string>)
    ensures Yaml([""] + manifests) == Yaml(manifests)
  {
    if manifests == [] {
      assert Yaml([""]) == Yaml([""][..0]) + "";
    } else {
      var n := |manifests| - 1;
      LeadingEmptyDropped(manifests[..n]);
      assert ([""] + manifests)[..n + 1] == [""] + manifests[..n];
    }
  }

  /** A separator cannot begin inside a manifest and end in the separator after it. */
  lemma {:induction false} NoOverlap(m: string)
    requires Lacks(m, SEPARATOR)
    ensures NoEarly(m, SEPARATOR)
  {
    if m == [] {
    } else {
      if |m| >= 4 {
        assert (m + SEPARATOR)[..4] == m[..4];
      } else {
        assert (m + SEPARATOR)[3] == '-';
      }
      NoOverlap(m[1..]);
    }
  }

  /** The manifests can be read back from the text. */
  lemma SplitYaml(manifests: seq<string>)
    requires manifests != [] && manifests[0] != ""
    requires forall i :: 0 <= i < |manifests| ==> Lacks(manifests[i], SEPARATOR)
    ensures Split(Yaml(manifests), SEPARATOR) == manifests
  {
    YamlIsJoin(manifests);
    forall i | 0 <= i < |manifests|
      ensures NoEarly(manifests[i], SEPARATOR)
    {
      NoOverlap(manifests[i]);
    }
    SplitJoin(manifests, SEPARATOR);
  }
}
