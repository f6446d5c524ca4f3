/** The walk of the search results page: a loop over firstChild, nextSibling and parentNode. */
module SearchTree {
  import opened Bytes

  /** A DOM node: is it a div, and if so of class SRChildren. */
  datatype Node = Node(isDiv: bool, isChildrenClass: bool, children: seq<Node>)

  /** The position of a node: the child numbers on the way down from the starting element. */
  type Path = seq<nat>

  predicate Wanted(n: Node) {
    n.isDiv && n.isChildrenClass
  }

  predicate Exists(root: Node, p: Path)
    decreases |p|
  {
    p == [] || (p[0] < |root.children| && Exists(root.children[p[0]], p[1..]))
  }

  function At(root: Node, p: Path): Node
    requires Exists(root, p)
    decreases |p|
  {
    if p == [] then root else At(root.children[p[0]], p[1..])
  }

  function Front(p: Path): Path
    requires p != []
  {
    p[..|p| - 1]
  }

  function Last(p: Path): nat
    requires p != []
  {
    p[|p| - 1]
  }

  /** A node is there exactly when its parent is and has a child of that number. */
  lemma {:induction false} ExistsByParent(root: Node, p: Path, k: nat)
    ensures Exists(root, p + [k]) <==> Exists(root, p) && k < |At(root, p).children|
    ensures Exists(root, p + [k]) ==> At(root, p + [k]) == At(root, p).children[k]
    decreases |p|
  {
    if p == [] {
      assert [] + [k] == [k];
      assert [k][1..] == [];
    } else {
      assert (p + [k])[1..] == p[1..] + [k];
      if p[0] < |root.children| {
        ExistsByParent(root.children[p[0]], p[1..], k);
      }
    }
  }

  lemma ParentExists(root: Node, p: Path)
    requires p != []
    ensures Exists(root, p) <==> Exists(root, Front(p)) && Last(p) < |At(root, Front(p)).children|
    ensures Exists(root, p) ==> At(root, p) == At(root, Front(p)).children[Last(p)]
  {
    ExistsByParent(root, Front(p), Last(p));
    assert p == Front(p) + [Last(p)];
  }

  function OrElse(a: Option<Path>, b: Option<Path>): Option<Path> {
    if a.Some? then a else b
  }

  /** The recursive search in preorder that descends only through div elements. */
  function InChildren(kids: seq<Node>, above: Path, from: nat): Option<Path>
    requires from <= |kids|
    decreases kids, |kids| - from
  {
    if from == |kids| then None
    else if Wanted(kids[from]) then Some(above + [from])
    else OrElse(if kids[from].isDiv then InChildren(kids[from].children, above + [from], 0) else None,
                InChildren(kids, above, from + 1))
  }

  function Reference(root: Node): Option<Path> {
    InChildren(root.children, [], 0)
  }

  /** p leads through div elements only to a wanted node below the given children. */
  predicate Finds(kids: seq<Node>, p: Path)
    decreases |p|
  {
    && p != [] && p[0] < |kids|
    && kids[p[0]].isDiv
    && (if |p| == 1 then kids[p[0]].isChildrenClass else Finds(kids[p[0]].children, p[1..]))
  }

  /** Document order. */
  predicate Before(p: Path, q: Path)
    decreases |p|
  {
    q != [] && (p == [] || p[0] < q[0] || (p[0] == q[0] && Before(p[1..], q[1..])))
  }

  /** r is the first of the wanted nodes from a child on, and None says that there is none. */
  ghost predicate FirstFrom(kids: seq<Node>, above: Path, from: nat, r: Option<Path>) {
    match r
    case None => forall q :: Finds(kids, q) ==> !(from <= q[0])
    case Some(path) =>
      && above <= path
      && var p := path[|above|..];
        Finds(kids, p) && p[0] >= from && forall q :: Finds(kids, q) && q[0] >= from ==> q == p || Before(p, q)
  }

  /** Nothing is wanted in a subtree: the search goes on at the next child. */
  lemma FirstFromNext(kids: seq<Node>, above: Path, from: nat, r: Option<Path>)
    requires from < |kids| && !Wanted(kids[from]) && FirstFrom(kids, above, from + 1, r)
    requires kids[from].isDiv ==> FirstFrom(kids[from].children, above + [from], 0, None)
    ensures FirstFrom(kids, above, from, r)
  {
    forall q | Finds(kids, q) ensures q[0] != from {
      var rest := q[1..];
      assert kids[from].isDiv ==> !Finds(kids[from].children, rest);
    }
  }

  /** The first wanted node of a div child is the first from that child on. */
  lemma FirstFromBelow(kids: seq<Node>, above: Path, from: nat, path: Path)
    requires from < |kids| && !Wanted(kids[from]) && kids[from].isDiv
    requires FirstFrom(kids[from].children, above + [from], 0, Some(path))
    ensures FirstFrom(kids, above, from, Some(path))
  {
    var below := path[|above| + 1..];
    var p := path[|above|..];
    assert path[|above|] == (above + [from])[|above|];
    assert p[1..] == below && p[0] == from;
    assert above == (above + [from])[..|above|] == path[..|above|];
    forall q | Finds(kids, q) && q[0] >= from ensures q == p || Before(p, q) {
      if q[0] == from {
        assert Finds(kids[from].children, q[1..]);
        assert q == [from] + q[1..] && p == [from] + below;
      }
    }
  }

  lemma {:induction false} InChildrenIsFirst(kids: seq<Node>, above: Path, from: nat)
    requires from <= |kids|
    ensures FirstFrom(kids, above, from, InChildren(kids, above, from))
    decreases kids, |kids| - from
  {
    if from < |kids| {
      if Wanted(kids[from]) {
        var p := (above + [from])[|above|..];
        assert p == [from];
        forall q | Finds(kids, q) && q[0] >= from ensures q == p || Before(p, q) {
          if q[0] == from && |q| == 1 {
            assert q == [from];
          }
        }
      } else {
        if kids[from].isDiv {
          InChildrenIsFirst(kids[from].children, above + [from], 0);
        }
        InChildrenIsFirst(kids, above, from + 1);
        var below := if kids[from].isDiv then InChildren(kids[from].children, above + [from], 0) else None;
        if below.Some? {
          FirstFromBelow(kids, above, from, below.value);
        } else {
          FirstFromNext(kids, above, from, InChildren(kids, above, from + 1));
        }
      }
    }
  }

  /** The reference search finds the first wanted node in document order that div elements lead to, if there is one. */
  lemma ReferenceIsFirst(root: Node)
    ensures Reference(root).None? ==> forall p :: !Finds(root.children, p)
    ensures Reference(root).Some? ==> Finds(root.children, Reference(root).value)
    ensures Reference(root).Some? ==>
      forall q :: Finds(root.children, q) ==> q == Reference(root).value || Before(Reference(root).value, q)
  {
    InChildrenIsFirst(root.children, [], 0);
    if Reference(root).Some? {
      var r := Reference(root).value;
      assert r[0..] == r;
    } else {
      assert FirstFrom(root.children, [], 0, None);
      forall p: Path ensures !Finds(root.children, p) {
        assert p != [] ==> 0 <= p[0];
      }
    }
  }

  /** What the recursive search would still find once the subtree at p is done. */
  function After(root: Node, p: Path): Option<Path>
    requires Exists(root, p)
    decreases |p|
  {
    if p == [] then None
    else
      ParentExists(root, p);
      OrElse(InChildren(At(root, Front(p)).children, Front(p), Last(p) + 1), After(root, Front(p)))
  }

  /** What it would find from the node at p on. */
  function Onward(root: Node, p: Path): Option<Path>
    requires Exists(root, p) && p != []
  {
    ParentExists(root, p);
    OrElse(InChildren(At(root, Front(p)).children, Front(p), Last(p)), After(root, Front(p)))
  }

  /** The nodes below a list of children, from one of them on. */
  function Size(kids: seq<Node>, from: nat): nat
    requires from <= |kids|
    decreases kids, |kids| - from
  {
    if from == |kids| then 0 else 1 + Size(kids[from].children, 0) + Size(kids, from + 1)
  }

  /** The nodes behind the subtree at p. */
  function Left(root: Node, p: Path): nat
    requires Exists(root, p)
    decreases |p|
  {
    if p == [] then 0
    else
      ParentExists(root, p);
      Size(At(root, Front(p)).children, Last(p) + 1) + Left(root, Front(p))
  }

  lemma FromChild(root: Node, above: Path, k: nat)
    requires Exists(root, above + [k])
    ensures Exists(root, above) && k < |At(root, above).children|
    ensures At(root, above + [k]) == At(root, above).children[k]
    ensures Onward(root, above + [k]) == OrElse(InChildren(At(root, above).children, above, k), After(root, above))
    ensures After(root, above + [k]) == OrElse(InChildren(At(root, above).children, above, k + 1), After(root, above))
    ensures Left(root, above + [k]) == Size(At(root, above).children, k + 1) + Left(root, above)
  {
    ExistsByParent(root, above, k);
    assert Front(above + [k]) == above && Last(above + [k]) == k;
  }

  /** Going down into a div that is not wanted itself. */
  lemma Descend(root: Node, above: Path, k: nat)
    requires Exists(root, above + [k])
    requires var n := At(root, above + [k]); !Wanted(n) && n.isDiv && n.children != []
    ensures Exists(root, above + [k] + [0])
    ensures Onward(root, above + [k] + [0]) == Onward(root, above + [k])
    ensures Remaining(root, above + [k] + [0]) < Remaining(root, above + [k])
  {
    FromChild(root, above, k);
    ExistsByParent(root, above + [k], 0);
    FromChild(root, above + [k], 0);
  }

  /** The nodes from the one at p on. */
  function Remaining(root: Node, p: Path): nat
    requires Exists(root, p)
  {
    Size(At(root, p).children, 0) + Left(root, p)
  }

  lemma Sideways(root: Node, above: Path, k: nat)
    requires Exists(root, above + [k]) && Exists(root, above + [k + 1])
    ensures Onward(root, above + [k + 1]) == After(root, above + [k])
    ensures Remaining(root, above + [k + 1]) < Left(root, above + [k])
  {
    FromChild(root, above, k);
    FromChild(root, above, k + 1);
  }

  lemma Skipped(root: Node, above: Path, k: nat)
    requires Exists(root, above + [k])
    requires var n := At(root, above + [k]); !Wanted(n) && (!n.isDiv || n.children == [])
    ensures Onward(root, above + [k]) == After(root, above + [k])
  {
    FromChild(root, above, k);
    assert InChildren([], above + [k], 0) == None;
  }

  predicate HasNext(root: Node, p: Path) {
    p != [] && Exists(root, Front(p) + [Last(p) + 1])
  }

  lemma NoNext(root: Node, above: Path, k: nat)
    requires Exists(root, above + [k]) && !Exists(root, above + [k + 1])
    ensures Exists(root, above)
    ensures After(root, above + [k]) == After(root, above) && Left(root, above + [k]) == Left(root, above)
  {
    FromChild(root, above, k);
    ExistsByParent(root, above, k + 1);
  }

  /**
   * The stackless loop. It ends on every tree, stays below the starting element, and returns the
   * node the recursive search returns.
   */
  method FindChildElement(root: Node) returns (found: Option<Path>)
    ensures found == Reference(root)
    ensures found.Some? ==> found.value != [] && Exists(root, found.value)
    ensures found.Some? ==> At(root, found.value).isDiv && At(root, found.value).isChildrenClass
  {
    if root.children == [] {
      return None;
    }
    var element: Path := [0];
    FirstChildOfRoot(root);
    var inside := true;
    while inside
      invariant inside ==> element != [] && Exists(root, element) && Onward(root, element) == Reference(root)
      invariant !inside ==> Reference(root) == None
      decreases inside, if inside then Remaining(root, element) else 0
    {
      var node := At(root, element);
      ghost var above, k := Front(element), Last(element);
      assert element == above + [k];
      if Wanted(node) {
        FromChild(root, above, k);
        return Some(element);
      }
      if node.isDiv && node.children != [] {
        Descend(root, above, k);
        element := element + [0];
      } else {
        Skipped(root, above, k);
        element := Climb(root, element);
        if element == [] {
          inside := false;
        } else {
          assert element == Front(element) + [Last(element)];
          Sideways(root, Front(element), Last(element));
          element := Front(element) + [Last(element) + 1];
        }
      }
    }
    found := None;
  }

  lemma FirstChildOfRoot(root: Node)
    requires root.children != []
    ensures Exists(root, [0]) && Onward(root, [0]) == Reference(root)
  {
    ExistsByParent(root, [], 0);
    assert [] + [0] == [0];
    FromChild(root, [], 0);
  }

  /**
   * Up to the nearest node with a next sibling, or to the starting element. The test before the
   * first move is the one the source makes before its do loop.
   */
  method Climb(root: Node, from: Path) returns (element: Path)
    requires Exists(root, from)
    ensures Exists(root, element) && (element == [] || HasNext(root, element))
    ensures After(root, element) == After(root, from) && Left(root, element) == Left(root, from)
  {
    element := from;
    while element != [] && !HasNext(root, element)
      invariant Exists(root, element) && After(root, element) == After(root, from)
      invariant Left(root, element) == Left(root, from)
      decreases |element|
    {
      assert element == Front(element) + [Last(element)];
      NoNext(root, Front(element), Last(element));
      element := Front(element);
    }
  }
}
