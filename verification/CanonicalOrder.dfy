/** Canonical DNS name order (section 6.1 of RFC 4034): labels compared from the right,
    ignoring ASCII case, a shorter name before its extensions. */
module CanonicalOrder {
  import opened Text

  type Name = seq<string>  // labels from left to right, without the root label

  /** strings.Compare. */
  function CompareText(a: string, b: string): int {
    if a == [] && b == [] then 0
    else if a == [] then -1
    else if b == [] then 1
    else if a[0] < b[0] then -1
    else if b[0] < a[0] then 1
    else CompareText(a[1..], b[1..])
  }

  function Compare(a: Name, b: Name): int {
    if a == [] && b == [] then 0
    else if a == [] then -1
    else if b == [] then 1
    else
      var c := CompareText(Lower(a[|a| - 1]), Lower(b[|b| - 1]));
      if c != 0 then c else Compare(a[..|a| - 1], b[..|b| - 1])
  }

  /** protocol.CompareNames: two cursors moving left. */
  method CompareNames(a: Name, b: Name) returns (cmp: int)
    ensures cmp == Compare(a, b)
  {
    var i, j := |a| - 1, |b| - 1;
    assert a[..|a|] == a && b[..|b|] == b;
    while i >= 0 && j >= 0
      invariant -1 <= i < |a| && -1 <= j < |b| && Compare(a[..i + 1], b[..j + 1]) == Compare(a, b)
    {
      cmp := CompareText(Lower(a[i]), Lower(b[j]));
      assert a[..i + 1][..i] == a[..i] && b[..j + 1][..j] == b[..j];
      if cmp != 0 {
        return;
      }
      i, j := i - 1, j - 1;
    }
    return if i < 0 && j < 0 then 0 else if i < 0 then -1 else 1;
  }

  /** Equal up to ASCII case. */
  predicate Same(a: Name, b: Name) {
    |a| == |b| && forall i :: 0 <= i < |a| ==> Lower(a[i]) == Lower(b[i])
  }

  // --- It is a total order up to case

  lemma {:induction false} TextOrder(a: string, b: string)
    ensures CompareText(a, b) == -CompareText(b, a) && -1 <= CompareText(a, b) <= 1
    ensures CompareText(a, b) == 0 <==> a == b
  {
    if a != [] && b != [] {
      TextOrder(a[1..], b[1..]);
      assert a == [a[0]] + a[1..] && b == [b[0]] + b[1..];
    }
  }

  lemma {:induction false} TextTransitive(a: string, b: string, c: string)
    requires CompareText(a, b) < 0 && CompareText(b, c) < 0
    ensures CompareText(a, c) < 0
  {
    if a != [] && b != [] && c != [] && a[0] == b[0] == c[0] {
      TextTransitive(a[1..], b[1..], c[1..]);
    }
  }

  lemma {:induction false} NameOrder(a: Name, b: Name)
    ensures Compare(a, b) == -Compare(b, a)
    ensures Compare(a, b) == 0 <==> Same(a, b)
  {
    if a != [] && b != [] {
      var m, n := |a| - 1, |b| - 1;
      TextOrder(Lower(a[m]), Lower(b[n]));
      NameOrder(a[..m], b[..n]);
    }
  }

  lemma {:induction false} NameTransitive(a: Name, b: Name, c: Name)
    requires Compare(a, b) < 0 && Compare(b, c) < 0
    ensures Compare(a, c) < 0
  {
    if a != [] {
      var x, y, z := Lower(a[|a| - 1]), Lower(b[|b| - 1]), Lower(c[|c| - 1]);
      TextOrder(x, y);
      TextOrder(y, z);
      TextOrder(x, z);
      if x == y && y == z {
        NameTransitive(a[..|a| - 1], b[..|b| - 1], c[..|c| - 1]);
      } else if x != y && y != z {
        TextTransitive(x, y, z);
      }
    }
  }

  /** Compare does not see case. */
  lemma {:induction false} CompareSame(a: Name, a': Name, b: Name)
    requires Same(a, a')
    ensures Compare(a, b) == Compare(a', b) && Compare(b, a) == Compare(b, a')
  {
    if a != [] && b != [] {
      CompareSame(a[..|a| - 1], a'[..|a| - 1], b[..|b| - 1]);
    }
  }

  // --- Which order it is

  /** Texts are ordered by the first character in which they differ, and a proper prefix comes
      first. */
  lemma {:induction false} FirstCharDecides(common: string, c: char, u: string, d: char, v: string)
    requires c < d
    ensures CompareText(common + [c] + u, common + [d] + v) == -1
    ensures CompareText(common, common + [c] + u) == -1
  {
    if common != [] {
      FirstCharDecides(common[1..], c, u, d, v);
      assert (common + [c] + u)[1..] == common[1..] + [c] + u && (common + [d] + v)[1..] == common[1..] + [d] + v;
    }
  }

  /** A name comes before every name below it. */
  lemma {:induction false} ZoneBeforeBelow(below: Name, zone: Name)
    requires below != []
    ensures Compare(zone, below + zone) == -1
  {
    if zone != [] {
      var n := |zone| - 1;
      assert (below + zone)[|below + zone| - 1] == zone[n] && (below + zone)[..|below + zone| - 1] == below + zone[..n];
      TextOrder(Lower(zone[n]), Lower(zone[n]));
      ZoneBeforeBelow(below, zone[..n]);
    }
  }

  /** Names that first differ, from the right, in one label are ordered by that label in lower
      case, whatever stands to its left. */
  lemma {:induction false} RightmostLabelDecides(x: Name, a: string, y: Name, b: string, common: Name)
    requires Lower(a) != Lower(b)
    ensures Compare(x + [a] + common, y + [b] + common) == CompareText(Lower(a), Lower(b))
  {
    var m, n := x + [a] + common, y + [b] + common;
    TextOrder(Lower(a), Lower(b));
    if common != [] {
      var k := |common| - 1;
      assert m[|m| - 1] == n[|n| - 1] == common[k];
      assert m[..|m| - 1] == x + [a] + common[..k] && n[..|n| - 1] == y + [b] + common[..k];
      TextOrder(Lower(common[k]), Lower(common[k]));
      RightmostLabelDecides(x, a, y, b, common[..k]);
    }
  }
}
