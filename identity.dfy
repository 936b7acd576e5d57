/**
  The identity builder of the build-order service: `buildGav` (and its twin
  `buildIdFromDepNode`), which turns the children of a descriptor element into
  a "group|artifact|version" identifier.

  The Java code keeps an `ArrayList` and inserts each recognised value at a
  fixed position with `list.add(index, value)`: 0 for `groupId`, 1 for
  `artifactId`, 2 for `version`. That call is only defined while
  `index <= list.size()`; otherwise it throws `IndexOutOfBoundsException`,
  which nothing in the controller catches. The model keeps that failure as an
  explicit outcome instead of skipping the field.
*/
module Identity {
  import opened Wrappers
  import Text

  /** One child node of a descriptor element, as the DOM exposes it:
      whether it is an element node, its node name and its text content. */
  datatype Child = Child(isElement: bool, name: string, text: string)

  /** State of the scan: the values collected so far, or the exception thrown
      by an insert at `index` into a list holding only `size` values. */
  datatype Scan = Done(values: seq<string>) | Thrown(index: nat, size: nat)

  /** What `buildGav` produces: an identifier (possibly empty), or the
      uncaught `IndexOutOfBoundsException`. */
  datatype GavOutcome = Gav(id: string) | IndexOutOfBounds(index: nat, size: nat)

  const Separator := "|"

  /** Insert position of a recognised element name. */
  function Position(name: string): (r: Option<nat>)
    ensures r.Some? <==> name == "groupId" || name == "artifactId" || name == "version"
    ensures r.Some? ==> r.value < 3
  {
    if name == "groupId" then Some(0)
    else if name == "artifactId" then Some(1)
    else if name == "version" then Some(2)
    else None
  }

  /** A child the scan takes a value from: an element with non-empty text
      and one of the three recognised names. */
  predicate Recognized(c: Child)
  {
    c.isElement && c.text != "" && Position(c.name).Some?
  }

  /** No child of `p` is recognised. */
  predicate Ignorable(p: seq<Child>)
  {
    forall i :: 0 <= i < |p| ==> !Recognized(p[i])
  }

  function GroupId(g: string): Child { Child(true, "groupId", g) }
  function ArtifactId(a: string): Child { Child(true, "artifactId", a) }
  function Version(v: string): Child { Child(true, "version", v) }

  /** `ArrayList.add(index, x)` on a list that is long enough. */
  function InsertAt(list: seq<string>, index: nat, x: string): (r: seq<string>)
    requires index <= |list|
    ensures |r| == |list| + 1 && r[index] == x
    ensures r[..index] == list[..index] && r[index + 1..] == list[index..]
  {
    list[..index] + [x] + list[index..]
  }

  /** The scan loop of `buildGav`, from the current child list and the
      values collected so far. */
  function Collect(children: seq<Child>, acc: seq<string>): (r: Scan)
    ensures r.Done? ==> |acc| <= |r.values|
    ensures r.Done? && |acc| <= 3 ==> |r.values| <= 3
    ensures r.Thrown? ==> 0 < r.index <= 2 && r.size < r.index
    ensures r.Done? && (forall i :: 0 <= i < |acc| ==> acc[i] != "") ==>
              forall i :: 0 <= i < |r.values| ==> r.values[i] != ""
    decreases |children|
  {
    if |acc| >= 3 || children == [] then Done(acc)
    else
      var c := children[0];
      if Recognized(c) then
        var index := Position(c.name).value;
        if index <= |acc| then Collect(children[1..], InsertAt(acc, index, c.text))
        else Thrown(index, |acc|)
      else Collect(children[1..], acc)
  }

  /** The identifier `buildGav` returns for a node with these children. */
  function GavOf(children: seq<Child>): (r: GavOutcome)
    ensures r.IndexOutOfBounds? ==> 0 < r.index <= 2 && r.size < r.index
  {
    match Collect(children, [])
    case Thrown(index, size) => IndexOutOfBounds(index, size)
    case Done(values) => Gav(if |values| > 0 then Text.Join(values, Separator) else "")
  }

  /** `buildGav` / `buildIdFromDepNode`: scans the children while fewer than
      three values are collected, then joins them with `|`. */
  method BuildGav(children: seq<Child>) returns (r: GavOutcome)
    ensures r == GavOf(children)
  {
    var list: seq<string> := [];
    var i := 0;
    while i < |children| && |list| < 3
      invariant 0 <= i <= |children|
      invariant Collect(children[i..], list) == Collect(children, [])
    {
      var child := children[i];
      assert children[i..][1..] == children[i + 1..];
      if child.isElement && child.text != "" {
        if child.name == "groupId" {
          list := InsertAt(list, 0, child.text);
        } else if child.name == "artifactId" {
          if |list| < 1 {
            return IndexOutOfBounds(1, |list|);
          }
          list := InsertAt(list, 1, child.text);
        } else if child.name == "version" {
          if |list| < 2 {
            return IndexOutOfBounds(2, |list|);
          }
          list := InsertAt(list, 2, child.text);
        }
      }
      i := i + 1;
    }
    if |list| > 0 {
      r := Gav(Text.Join(list, Separator));
    } else {
      r := Gav("");
    }
  }

  /** Children that are not recognised (text nodes, empty elements, other
      names) leave the scan unchanged. */
  lemma {:induction false} SkipIgnored(p: seq<Child>, rest: seq<Child>, acc: seq<string>)
    requires Ignorable(p)
    ensures Collect(p + rest, acc) == Collect(rest, acc)
  {
    if p == [] {
      assert p + rest == rest;
    } else if |acc| < 3 {
      assert (p + rest)[1..] == p[1..] + rest;
      SkipIgnored(p[1..], rest, acc);
    }
  }

  /** Once three values are collected, whatever follows is never looked at. */
  lemma {:induction false} StopsAfterThree(p: seq<Child>, q: seq<Child>, acc: seq<string>)
    requires Collect(p, acc).Done? && |Collect(p, acc).values| >= 3
    ensures Collect(p + q, acc) == Collect(p, acc)
  {
    if |acc| < 3 {
      assert p != [];
      assert (p + q)[1..] == p[1..] + q;
      if Recognized(p[0]) {
        StopsAfterThree(p[1..], q, InsertAt(acc, Position(p[0].name).value, p[0].text));
      } else {
        StopsAfterThree(p[1..], q, acc);
      }
    }
  }

  /** One recognised child that fits is inserted at its position. */
  lemma Take(c: Child, rest: seq<Child>, acc: seq<string>)
    requires Recognized(c) && |acc| < 3 && Position(c.name).value <= |acc|
    ensures Collect([c] + rest, acc) == Collect(rest, InsertAt(acc, Position(c.name).value, c.text))
  {
    assert ([c] + rest)[1..] == rest;
  }

  /** Children groupId=g, artifactId=a, version=v in that order, with
      anything unrecognised between or after them, give "g|a|v". */
  lemma GroupArtifactVersion(p0: seq<Child>, p1: seq<Child>, p2: seq<Child>, p3: seq<Child>,
                             g: string, a: string, v: string)
    requires Ignorable(p0) && Ignorable(p1) && Ignorable(p2)
    requires g != "" && a != "" && v != ""
    ensures GavOf(p0 + [GroupId(g)] + p1 + [ArtifactId(a)] + p2 + [Version(v)] + p3)
            == Gav(g + "|" + a + "|" + v)
  {
    ScanGroupArtifactVersion(p0, p1, p2, p3, g, a, v);
    Text.JoinThree(g, a, v, Separator);
  }

  /** The scan behind `GroupArtifactVersion`: the three values land in
      their slots in document order. */
  lemma ScanGroupArtifactVersion(p0: seq<Child>, p1: seq<Child>, p2: seq<Child>, p3: seq<Child>,
                                 g: string, a: string, v: string)
    requires Ignorable(p0) && Ignorable(p1) && Ignorable(p2)
    requires g != "" && a != "" && v != ""
    ensures Collect(p0 + [GroupId(g)] + p1 + [ArtifactId(a)] + p2 + [Version(v)] + p3, [])
            == Done([g, a, v])
  {
    var tail2 := [Version(v)] + p3;
    var tail1 := [ArtifactId(a)] + (p2 + tail2);
    var tail0 := [GroupId(g)] + (p1 + tail1);
    assert p0 + [GroupId(g)] + p1 + [ArtifactId(a)] + p2 + [Version(v)] + p3 == p0 + tail0;
    SkipIgnored(p0, tail0, []);
    Take(GroupId(g), p1 + tail1, []);
    assert InsertAt([], 0, g) == [g];
    SkipIgnored(p1, tail1, [g]);
    ScanArtifactVersion(p2, p3, g, a, v);
  }

  /** The second half of `ScanGroupArtifactVersion`, from the list [g]. */
  lemma ScanArtifactVersion(p2: seq<Child>, p3: seq<Child>, g: string, a: string, v: string)
    requires Ignorable(p2) && a != "" && v != ""
    ensures Collect([ArtifactId(a)] + (p2 + ([Version(v)] + p3)), [g]) == Done([g, a, v])
  {
    var tail2 := [Version(v)] + p3;
    Take(ArtifactId(a), p2 + tail2, [g]);
    assert InsertAt([g], 1, a) == [g, a];
    SkipIgnored(p2, tail2, [g, a]);
    Take(Version(v), p3, [g, a]);
    assert InsertAt([g, a], 2, v) == [g, a, v];
  }

  /** Without a version element, groupId=g then artifactId=a give "g|a". */
  lemma GroupArtifact(p0: seq<Child>, p1: seq<Child>, p2: seq<Child>, g: string, a: string)
    requires Ignorable(p0) && Ignorable(p1) && Ignorable(p2)
    requires g != "" && a != ""
    ensures GavOf(p0 + [GroupId(g)] + p1 + [ArtifactId(a)] + p2) == Gav(g + "|" + a)
  {
    var tail1 := [ArtifactId(a)] + p2;
    var tail0 := [GroupId(g)] + (p1 + tail1);
    assert p0 + [GroupId(g)] + p1 + [ArtifactId(a)] + p2 == p0 + tail0;
    SkipIgnored(p0, tail0, []);
    Take(GroupId(g), p1 + tail1, []);
    assert InsertAt([], 0, g) == [g];
    SkipIgnored(p1, tail1, [g]);
    Take(ArtifactId(a), p2, [g]);
    assert InsertAt([g], 1, a) == [g, a];
    SkipIgnored(p2, [], [g, a]);
    assert p2 + [] == p2;
    JoinTwo(g, a);
  }

  lemma JoinTwo(x: string, y: string)
    ensures Text.Join([x, y], Separator) == x + "|" + y
  {
    assert [x, y][1..] == [y];
  }

  /** A second groupId is inserted at position 0 again, so it ends up in
      front of the first one. */
  lemma RepeatedGroupIdGoesFirst(p0: seq<Child>, p1: seq<Child>, p2: seq<Child>, g1: string, g2: string)
    requires Ignorable(p0) && Ignorable(p1) && Ignorable(p2)
    requires g1 != "" && g2 != ""
    ensures GavOf(p0 + [GroupId(g1)] + p1 + [GroupId(g2)] + p2) == Gav(g2 + "|" + g1)
  {
    var tail1 := [GroupId(g2)] + p2;
    var tail0 := [GroupId(g1)] + (p1 + tail1);
    assert p0 + [GroupId(g1)] + p1 + [GroupId(g2)] + p2 == p0 + tail0;
    SkipIgnored(p0, tail0, []);
    Take(GroupId(g1), p1 + tail1, []);
    assert InsertAt([], 0, g1) == [g1];
    SkipIgnored(p1, tail1, [g1]);
    Take(GroupId(g2), p2, [g1]);
    assert InsertAt([g1], 0, g2) == [g2, g1];
    SkipIgnored(p2, [], [g2, g1]);
    assert p2 + [] == p2;
    JoinTwo(g2, g1);
  }

  /** An artifactId met before any value is collected is an insert at index 1
      into an empty list: the scan throws rather than skipping it. */
  lemma ArtifactIdFirstThrows(p: seq<Child>, a: string, q: seq<Child>)
    requires Ignorable(p) && a != ""
    ensures GavOf(p + [ArtifactId(a)] + q) == IndexOutOfBounds(1, 0)
  {
    assert p + [ArtifactId(a)] + q == p + ([ArtifactId(a)] + q);
    SkipIgnored(p, [ArtifactId(a)] + q, []);
  }

  /** A version met while fewer than two values are collected throws. */
  lemma VersionBeforeTwoValuesThrows(p0: seq<Child>, g: string, p1: seq<Child>, v: string, q: seq<Child>)
    requires Ignorable(p0) && Ignorable(p1) && g != "" && v != ""
    ensures GavOf(p0 + [Version(v)] + q) == IndexOutOfBounds(2, 0)
    ensures GavOf(p0 + [GroupId(g)] + p1 + [Version(v)] + q) == IndexOutOfBounds(2, 1)
  {
    assert p0 + [Version(v)] + q == p0 + ([Version(v)] + q);
    SkipIgnored(p0, [Version(v)] + q, []);
    var tail1 := [Version(v)] + q;
    var tail0 := [GroupId(g)] + (p1 + tail1);
    assert p0 + [GroupId(g)] + p1 + [Version(v)] + q == p0 + tail0;
    SkipIgnored(p0, tail0, []);
    assert tail0[1..] == p1 + tail1;
    assert InsertAt([], 0, g) == [g];
    SkipIgnored(p1, tail1, [g]);
  }

  /** A child list with some recognised child either throws or collects at
      least one value. */
  lemma {:induction false} RecognizedChildCollects(children: seq<Child>)
    requires !Ignorable(children)
    ensures Collect(children, []).Thrown? || Collect(children, []).values != []
  {
    if !Recognized(children[0]) {
      assert !Ignorable(children[1..]) by {
        var i :| 0 <= i < |children| && Recognized(children[i]);
        assert children[1..][i - 1] == children[i];
      }
      RecognizedChildCollects(children[1..]);
    }
  }

  /** `buildGav` returns "" exactly when no child is an element with a
      recognised name and non-empty text; otherwise it returns a non-empty
      identifier or throws. */
  lemma EmptyIdIffNothingRecognized(children: seq<Child>)
    ensures GavOf(children) == Gav("") <==> Ignorable(children)
  {
    if Ignorable(children) {
      SkipIgnored(children, [], []);
      assert children + [] == children;
    } else {
      RecognizedChildCollects(children);
      var r := Collect(children, []);
      if r.Done? {
        Text.JoinEmptyIff(r.values, Separator);
      }
    }
  }

  /** The scan never keeps more than three values. */
  lemma AtMostThreeValues(children: seq<Child>)
    ensures Collect(children, []).Done? ==> |Collect(children, []).values| <= 3
  {
  }
}
