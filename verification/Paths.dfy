/** Path containment as the installer decides it, on normalised spellings, and what it means on path
    components. */
module Paths {
  import opened FileTree

  const SEPARATOR: char := '\\'

  predicate IsName(name: string) {
    name != [] && SEPARATOR !in name
  }

  predicate IsPath(path: Path) {
    path != [] && forall i | 0 <= i < |path| :: IsName(path[i])
  }

  function Join(path: Path): string
    requires path != []
  {
    if |path| == 1 then path[0] else path[0] + [SEPARATOR] + Join(path[1..])
  }

  /** The normalised spelling: no trailing separator, except on a drive root, which keeps its own. */
  function Render(path: Path): string
    requires path != []
  {
    if |path| == 1 then path[0] + [SEPARATOR] else Join(path)
  }

  predicate SpellingContains(container: string, candidate: string) {
    candidate == container || container + [SEPARATOR] <= candidate
  }

  /** Containment as the code answers it. A drive root's spelling already ends in the separator the
      prefix test appends, so a drive root contains only itself. */
  predicate Contains(container: Path, candidate: Path) {
    container <= candidate && (|container| > 1 || container == candidate)
  }

  predicate PathsOverlap(left: Path, right: Path) {
    Contains(left, right) || Contains(right, left)
  }

  lemma SplitAtSeparator(x: string, s: string, y: string, t: string)
    requires IsName(x) && IsName(y)
    ensures x + [SEPARATOR] + s <= y + [SEPARATOR] + t <==> x == y && s <= t
  {
    var left, right := x + [SEPARATOR] + s, y + [SEPARATOR] + t;
    assert left[|x|] == SEPARATOR && right[|y|] == SEPARATOR;
    assert forall i | 0 <= i < |x| :: left[i] == x[i] != SEPARATOR;
    assert forall i | 0 <= i < |y| :: right[i] == y[i] != SEPARATOR;
    if left <= right {
      assert forall i | 0 <= i < |left| :: left[i] == right[i];
      assert |x| == |y|;
      assert x == left[..|x|] == right[..|x|] == y;
      assert s == left[|x| + 1..] && t == right[|x| + 1..];
    }
    if x == y && s <= t {
      assert right == left + t[|s|..];
    }
  }

  lemma {:induction false} JoinedPrefix(a: Path, b: Path)
    requires IsPath(a) && IsPath(b)
    ensures Join(a) + [SEPARATOR] <= Join(b) + [SEPARATOR] <==> a <= b
    decreases |a|
  {
    var s := if |a| == 1 then [] else Join(a[1..]) + [SEPARATOR];
    var t := if |b| == 1 then [] else Join(b[1..]) + [SEPARATOR];
    assert Join(a) + [SEPARATOR] == a[0] + [SEPARATOR] + s;
    assert Join(b) + [SEPARATOR] == b[0] + [SEPARATOR] + t;
    SplitAtSeparator(a[0], s, b[0], t);
    assert a == [a[0]] + a[1..] && b == [b[0]] + b[1..];
    if |a| == 1 || |b| == 1 {
    } else {
      JoinedPrefix(a[1..], b[1..]);
    }
  }

  lemma {:induction false} JoinEndsInAName(path: Path)
    requires IsPath(path)
    ensures Join(path) != [] && Join(path)[|Join(path)| - 1] != SEPARATOR
  {
    if |path| == 1 {
    } else {
      JoinEndsInAName(path[1..]);
    }
  }

  /** The string test decides component containment, so `C:\Games2` is not inside `C:\Games`; the one
      exception is a drive root. */
  lemma SpellingDecidesContainment(container: Path, candidate: Path)
    requires IsPath(container) && IsPath(candidate)
    ensures SpellingContains(Render(container), Render(candidate)) <==> Contains(container, candidate)
  {
    JoinedPrefix(container, candidate);
    JoinEndsInAName(container);
    JoinEndsInAName(candidate);
    var left, right := Join(container), Join(candidate);
    if |container| == 1 && |candidate| == 1 {
      assert left + [SEPARATOR] == right + [SEPARATOR] <==> left == right by {
        assert (left + [SEPARATOR])[..|left|] == left && (right + [SEPARATOR])[..|right|] == right;
      }
      assert !(left + [SEPARATOR] + [SEPARATOR] <= right + [SEPARATOR]) by {
        assert (left + [SEPARATOR] + [SEPARATOR])[|left|] == SEPARATOR;
        assert |left| < |right| ==> (right + [SEPARATOR])[|left|] == right[|left|];
      }
    } else if |container| == 1 {
      var rest := Join(candidate[1..]);
      assert right == candidate[0] + [SEPARATOR] + rest;
      SplitAtSeparator(container[0], [SEPARATOR], candidate[0], rest);
      assert rest[0] == candidate[1][0];
      assert container[0] + [SEPARATOR] + [SEPARATOR] == left + [SEPARATOR] + [SEPARATOR];
      assert right[|right| - 1] != SEPARATOR;
    } else {
      assert (right + [SEPARATOR])[..|right|] == right;
      if left + [SEPARATOR] <= right + [SEPARATOR] && |left| < |right| {
        assert left + [SEPARATOR] == (right + [SEPARATOR])[..|left| + 1] == right[..|left| + 1];
      }
      if left + [SEPARATOR] <= right {
        assert left + [SEPARATOR] == right[..|left| + 1] == (right + [SEPARATOR])[..|left| + 1];
      }
    }
  }

  /** A drive root slips through every overlap test but its own. */
  lemma DriveRootContainsNothing(drive: string, inside: Path)
    requires IsPath([drive] + inside) && inside != []
    ensures Overlap([drive], [drive] + inside)
    ensures !SpellingContains(Render([drive]), Render([drive] + inside))
    ensures !SpellingContains(Render([drive] + inside), Render([drive]))
  {
    assert [drive] <= [drive] + inside;
    assert ([drive] + inside)[0] == drive;
    SpellingDecidesContainment([drive], [drive] + inside);
    SpellingDecidesContainment([drive] + inside, [drive]);
  }
}
