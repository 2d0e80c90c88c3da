/**
 * The static SVG thumbnail of a mind map: which nodes it shows and at which
 * depth, which of them are joined by a line, the labels it writes and the
 * gradient of the theme. Coordinates, box sizes and the SVG text itself are
 * not modelled.
 */
module PreviewLayout {
  import opened Wrappers
  import opened MindMaps

  const MaxChildren: nat := 6
  const MaxGrandchildren: nat := 2
  /** Grandchildren are drawn only while the list, with their parent, is shorter than this. */
  const GrandchildLimit: nat := 12

  /** A node of the thumbnail and its depth: 0 for the root, 1 for a child, 2 for a grandchild. */
  datatype Placed = Placed(node: Node, level: nat)

  /** `slice(0, n)`. */
  function Take(s: seq<Node>, n: nat): (r: seq<Node>)
    ensures |r| == if |s| <= n then |s| else n
    ensures r == s[..|r|]
  {
    if |s| <= n then s else s[..n]
  }

  function AtLevel2(gs: seq<Node>): seq<Placed> {
    if gs == [] then [] else AtLevel2(gs[..|gs| - 1]) + [Placed(gs[|gs| - 1], 2)]
  }

  /**
   * One round of the children loop: the child at depth 1, then its first two
   * children at depth 2 when the list, with the child, is still shorter than
   * `GrandchildLimit`.
   */
  function Step(ps: seq<Placed>, child: Node): seq<Placed> {
    var withChild := ps + [Placed(child, 1)];
    if |child.children| > 0 && |withChild| < GrandchildLimit
    then withChild + AtLevel2(Take(child.children, MaxGrandchildren))
    else withChild
  }

  /** The list after the loop has gone through `cs`. */
  function LayoutOf(root: Node, cs: seq<Node>): seq<Placed> {
    if cs == [] then [Placed(root, 0)]
    else Step(LayoutOf(root, cs[..|cs| - 1]), cs[|cs| - 1])
  }

  /** `calculateNodePositions` without the coordinates. */
  function Positions(root: Node): seq<Placed> {
    LayoutOf(root, Take(root.children, MaxChildren))
  }

  method CalculateNodePositions(root: Node) returns (positions: seq<Placed>)
    ensures positions == Positions(root)
  {
    positions := [Placed(root, 0)];
    if |root.children| > 0 {
      var children := Take(root.children, MaxChildren);
      var k := 0;
      while k < |children|
        invariant 0 <= k <= |children|
        invariant positions == LayoutOf(root, children[..k])
      {
        var child := children[k];
        assert children[..k + 1][..k] == children[..k];
        positions := positions + [Placed(child, 1)];
        if |child.children| > 0 && |positions| < GrandchildLimit {
          var grandChildren := Take(child.children, MaxGrandchildren);
          ghost var withChild := positions;
          var g := 0;
          while g < |grandChildren|
            invariant 0 <= g <= |grandChildren|
            invariant positions == withChild + AtLevel2(grandChildren[..g])
          {
            assert grandChildren[..g + 1][..g] == grandChildren[..g];
            positions := positions + [Placed(grandChildren[g], 2)];
            g := g + 1;
          }
          assert grandChildren[..g] == grandChildren;
        }
        k := k + 1;
      }
      assert children[..k] == children;
    }
  }

  // ---------------------------------------------------------------------
  // What the layout contains

  lemma {:induction false} AtLevel2Shape(gs: seq<Node>)
    ensures |AtLevel2(gs)| == |gs|
    ensures forall i :: 0 <= i < |gs| ==> AtLevel2(gs)[i] == Placed(gs[i], 2)
  {
    if gs != [] {
      AtLevel2Shape(gs[..|gs| - 1]);
    }
  }

  /** The nodes of the depth-1 entries, in order. */
  function Level1Nodes(ps: seq<Placed>): seq<Node> {
    if ps == [] then []
    else Level1Nodes(ps[..|ps| - 1]) + (if ps[|ps| - 1].level == 1 then [ps[|ps| - 1].node] else [])
  }

  lemma {:induction false} Level1NodesAppend(a: seq<Placed>, b: seq<Placed>)
    ensures Level1Nodes(a + b) == Level1Nodes(a) + Level1Nodes(b)
    decreases |b|
  {
    if b == [] {
      assert a + b == a;
    } else {
      assert (a + b)[..|a + b| - 1] == a + b[..|b| - 1];
      Level1NodesAppend(a, b[..|b| - 1]);
    }
  }

  lemma {:induction false} Level1NodesOfGrandchildren(gs: seq<Node>)
    ensures Level1Nodes(AtLevel2(gs)) == []
  {
    if gs != [] {
      Level1NodesOfGrandchildren(gs[..|gs| - 1]);
      Level1NodesAppend(AtLevel2(gs[..|gs| - 1]), [Placed(gs[|gs| - 1], 2)]);
    }
  }

  /** The depth-1 entries are exactly the children the loop went through, in order. */
  lemma {:induction false} Level1Exact(root: Node, cs: seq<Node>)
    ensures Level1Nodes(LayoutOf(root, cs)) == cs
  {
    if cs != [] {
      var ps, c := LayoutOf(root, cs[..|cs| - 1]), cs[|cs| - 1];
      Level1Exact(root, cs[..|cs| - 1]);
      Level1NodesAppend(ps, [Placed(c, 1)]);
      Level1NodesOfGrandchildren(Take(c.children, MaxGrandchildren));
      Level1NodesAppend(ps + [Placed(c, 1)], AtLevel2(Take(c.children, MaxGrandchildren)));
      assert cs == cs[..|cs| - 1] + [c];
    }
  }

  /**
   * The thumbnail shows the root first, then only depth-1 and depth-2 nodes;
   * its depth-1 nodes are the first six children of the root, in order.
   */
  lemma PositionsShape(root: Node)
    ensures Positions(root)[0] == Placed(root, 0)
    ensures forall i :: 1 <= i < |Positions(root)| ==> Positions(root)[i].level in {1, 2}
    ensures Level1Nodes(Positions(root)) == Take(root.children, MaxChildren)
    ensures |Take(root.children, MaxChildren)| == if |root.children| < MaxChildren then |root.children| else MaxChildren
  {
    LayoutLevels(root, Take(root.children, MaxChildren));
    Level1Exact(root, Take(root.children, MaxChildren));
  }

  lemma {:induction false} LayoutLevels(root: Node, cs: seq<Node>)
    ensures |LayoutOf(root, cs)| >= 1 && LayoutOf(root, cs)[0] == Placed(root, 0)
    ensures forall i :: 1 <= i < |LayoutOf(root, cs)| ==> LayoutOf(root, cs)[i].level in {1, 2}
  {
    if cs != [] {
      var c := cs[|cs| - 1];
      LayoutLevels(root, cs[..|cs| - 1]);
      AtLevel2Shape(Take(c.children, MaxGrandchildren));
    }
  }

  /**
   * The depth-2 entry at `i` is the first or the second child of the depth-1
   * entry just before it, whose position `p` left the list shorter than
   * `GrandchildLimit`.
   */
  predicate GrandchildOfPrevious(ps: seq<Placed>, i: nat)
    requires i < |ps|
  {
    exists p :: p in {i - 1, i - 2} && 0 <= p && ps[p].level == 1 && p + 1 < GrandchildLimit
                && i - p - 1 < |ps[p].node.children| && ps[i].node == ps[p].node.children[i - p - 1]
                && (forall q :: p < q <= i ==> ps[q].level == 2)
  }

  /** A depth-1 entry whose node has children, placed early enough, is followed by its first child. */
  predicate FollowedByFirstChild(ps: seq<Placed>, p: nat)
    requires p < |ps|
  {
    ps[p].level == 1 && |ps[p].node.children| > 0 && p + 1 < GrandchildLimit ==>
      p + 1 < |ps| && ps[p + 1] == Placed(ps[p].node.children[0], 2)
  }

  /** Indexing into one round of the loop. */
  lemma StepShape(ps: seq<Placed>, c: Node)
    ensures var r, n, gs := Step(ps, c), |ps|, Take(c.children, MaxGrandchildren);
            && |r| == n + 1 + (if |c.children| > 0 && n + 1 < GrandchildLimit then |gs| else 0)
            && r[..n] == ps && r[n] == Placed(c, 1)
            && (forall i :: n < i < |r| ==> r[i] == Placed(gs[i - n - 1], 2))
  {
    AtLevel2Shape(Take(c.children, MaxGrandchildren));
  }

  lemma {:induction false} LayoutGrandchildren(root: Node, cs: seq<Node>)
    ensures forall i :: 0 <= i < |LayoutOf(root, cs)| && LayoutOf(root, cs)[i].level == 2 ==>
              GrandchildOfPrevious(LayoutOf(root, cs), i)
  {
    if cs != [] {
      var ps, c := LayoutOf(root, cs[..|cs| - 1]), cs[|cs| - 1];
      LayoutGrandchildren(root, cs[..|cs| - 1]);
      StepShape(ps, c);
      var gs := Take(c.children, MaxGrandchildren);
      var r := LayoutOf(root, cs);
      var n := |ps|;
      forall i | 0 <= i < |r| && r[i].level == 2 ensures GrandchildOfPrevious(r, i) {
        if i < n {
          var p :| p in {i - 1, i - 2} && 0 <= p && ps[p].level == 1 && p + 1 < GrandchildLimit
                   && i - p - 1 < |ps[p].node.children| && ps[i].node == ps[p].node.children[i - p - 1]
                   && (forall q :: p < q <= i ==> ps[q].level == 2);
          assert r[p] == ps[p] && r[i] == ps[i];
          assert forall q :: p < q <= i ==> r[q] == ps[q];
        } else {
          assert i > n;
          assert i - 1 == n || i - 2 == n;
          forall q | n < q <= i ensures r[q].level == 2 {
          }
        }
      }
    }
  }

  lemma {:induction false} LayoutFirstGrandchild(root: Node, cs: seq<Node>)
    ensures forall p :: 0 <= p < |LayoutOf(root, cs)| ==> FollowedByFirstChild(LayoutOf(root, cs), p)
  {
    if cs != [] {
      var ps, c := LayoutOf(root, cs[..|cs| - 1]), cs[|cs| - 1];
      LayoutFirstGrandchild(root, cs[..|cs| - 1]);
      StepShape(ps, c);
      var gs := Take(c.children, MaxGrandchildren);
      var r := LayoutOf(root, cs);
      var n := |ps|;
      forall p | 0 <= p < |r| ensures FollowedByFirstChild(r, p) {
        if p < n - 1 {
          assert r[p] == ps[p] && r[p + 1] == ps[p + 1];
          assert FollowedByFirstChild(ps, p);
          assert FollowedByFirstChild(r, p);
        } else if p == n - 1 {
          assert r[p] == ps[p];
          assert FollowedByFirstChild(ps, p);
          assert FollowedByFirstChild(r, p);
        } else if p == n {
          if |c.children| > 0 && n + 1 < GrandchildLimit {
            assert r[n + 1] == Placed(gs[0], 2);
          }
          assert FollowedByFirstChild(r, p);
        } else {
          assert r[p].level == 2;
          assert FollowedByFirstChild(r, p);
        }
      }
    }
  }

  /**
   * In the thumbnail each depth-1 entry is followed by at most its first two
   * children at depth 2, and by its first child whenever it has children and
   * the list, with it, was shorter than `GrandchildLimit`.
   */
  lemma PositionsGrandchildren(root: Node)
    ensures forall i :: 0 <= i < |Positions(root)| && Positions(root)[i].level == 2 ==>
              GrandchildOfPrevious(Positions(root), i)
    ensures forall p :: 0 <= p < |Positions(root)| ==> FollowedByFirstChild(Positions(root), p)
  {
    LayoutGrandchildren(root, Take(root.children, MaxChildren));
    LayoutFirstGrandchild(root, Take(root.children, MaxChildren));
  }

  /**
   * The list never grows past 15 entries: at most six children, and
   * grandchildren only while it is shorter than `GrandchildLimit`.
   */
  lemma {:induction false} LayoutBound(root: Node, cs: seq<Node>)
    ensures |LayoutOf(root, cs)| <= 1 + 3 * |cs|
    ensures |LayoutOf(root, cs)| <= |cs| + 9
  {
    if cs != [] {
      var c := cs[|cs| - 1];
      LayoutBound(root, cs[..|cs| - 1]);
      AtLevel2Shape(Take(c.children, MaxGrandchildren));
    }
  }

  lemma PositionsAtMost15(root: Node)
    ensures |Positions(root)| <= 15
  {
    LayoutBound(root, Take(root.children, MaxChildren));
  }

  // ---------------------------------------------------------------------
  // Connections

  /** A curved path from the root entry, or a straight line from a depth-1 entry, by index. */
  datatype Link = Curve(from: nat, to: nat) | Line(from: nat, to: nat)

  predicate HasChildWithId(n: Node, id: string) {
    exists c :: c in n.children && c.id == id
  }

  /** `positions.find(p => p.level === level)`: the first index at or after `from` at that depth. */
  function FindLevel(ps: seq<Placed>, level: nat, from: nat): (r: Option<nat>)
    ensures r.Some? ==> from <= r.value < |ps| && ps[r.value].level == level
    ensures forall j :: from <= j < |ps| && (r.None? || j < r.value) ==> ps[j].level != level
    decreases |ps| - from
  {
    if from >= |ps| then None
    else if ps[from].level == level then Some(from)
    else FindLevel(ps, level, from + 1)
  }

  /** The first depth-1 entry at or after `from` whose node has a child with the given id. */
  function FindParent(ps: seq<Placed>, id: string, from: nat): (r: Option<nat>)
    ensures r.Some? ==> from <= r.value < |ps| && ps[r.value].level == 1 && HasChildWithId(ps[r.value].node, id)
    ensures forall j :: from <= j < |ps| && (r.None? || j < r.value) ==>
              !(ps[j].level == 1 && HasChildWithId(ps[j].node, id))
    decreases |ps| - from
  {
    if from >= |ps| then None
    else if ps[from].level == 1 && HasChildWithId(ps[from].node, id) then Some(from)
    else FindParent(ps, id, from + 1)
  }

  /** The links drawn for the entry at `i`, given the index of the root entry. */
  function LinksFor(ps: seq<Placed>, root: nat, i: nat): seq<Link>
    requires i < |ps|
  {
    if ps[i].level == 1 then [Curve(root, i)]
    else if ps[i].level == 2 then
      match FindParent(ps, ps[i].node.id, 0)
      case Some(p) => [Line(p, i)]
      case None => []
    else []
  }

  /** The links drawn for the first `n` entries. */
  function LinksUpTo(ps: seq<Placed>, root: nat, n: nat): seq<Link>
    requires n <= |ps|
  {
    if n == 0 then [] else LinksUpTo(ps, root, n - 1) + LinksFor(ps, root, n - 1)
  }

  /** `generateConnections` without the coordinates. */
  function Connections(ps: seq<Placed>): seq<Link> {
    match FindLevel(ps, 0, 0)
    case None => []
    case Some(root) => LinksUpTo(ps, root, |ps|)
  }

  method GenerateConnections(positions: seq<Placed>) returns (links: seq<Link>)
    ensures links == Connections(positions)
  {
    var root := FindLevel(positions, 0, 0);
    if root.None? {
      return [];
    }
    links := [];
    var i := 0;
    while i < |positions|
      invariant 0 <= i <= |positions|
      invariant links == LinksUpTo(positions, root.value, i)
    {
      var pos := positions[i];
      if pos.level == 1 {
        links := links + [Curve(root.value, i)];
      } else if pos.level == 2 {
        var parent := FindParent(positions, pos.node.id, 0);
        if parent.Some? {
          links := links + [Line(parent.value, i)];
        }
      }
      i := i + 1;
    }
  }

  lemma {:induction false} LinksUpToMembers(ps: seq<Placed>, root: nat, n: nat)
    requires n <= |ps|
    ensures forall i :: 0 <= i < |ps| ==>
              (Curve(root, i) in LinksUpTo(ps, root, n) <==> i < n && ps[i].level == 1)
    ensures forall p: nat, i :: 0 <= i < |ps| ==>
              (Line(p, i) in LinksUpTo(ps, root, n) <==>
                 i < n && ps[i].level == 2 && FindParent(ps, ps[i].node.id, 0) == Some(p))
  {
    if n > 0 {
      LinksUpToMembers(ps, root, n - 1);
    }
  }

  /**
   * With a root entry, every depth-1 entry gets one curve from the root, and
   * a depth-2 entry gets a line exactly when some depth-1 entry's node has a
   * child with its id, from the first such entry. Without a root entry
   * nothing is drawn.
   */
  lemma ConnectionsRule(ps: seq<Placed>)
    ensures FindLevel(ps, 0, 0).None? ==> Connections(ps) == []
    ensures FindLevel(ps, 0, 0).Some? ==> forall i :: 0 <= i < |ps| ==>
              (Curve(FindLevel(ps, 0, 0).value, i) in Connections(ps) <==> ps[i].level == 1)
    ensures forall i :: 0 <= i < |ps| && FindLevel(ps, 0, 0).Some? ==>
              ((exists p :: Line(p, i) in Connections(ps)) <==>
                 ps[i].level == 2 && exists p :: 0 <= p < |ps| && ps[p].level == 1 && HasChildWithId(ps[p].node, ps[i].node.id))
  {
    var root := FindLevel(ps, 0, 0);
    if root.Some? {
      LinksUpToMembers(ps, root.value, |ps|);
      forall i | 0 <= i < |ps|
        ensures (exists p :: Line(p, i) in Connections(ps)) <==>
                  ps[i].level == 2 && exists p :: 0 <= p < |ps| && ps[p].level == 1 && HasChildWithId(ps[p].node, ps[i].node.id)
      {
        var parent := FindParent(ps, ps[i].node.id, 0);
        if ps[i].level == 2 && parent.Some? {
          assert Line(parent.value, i) in Connections(ps);
        }
      }
    }
  }

  /** In the thumbnail every grandchild is joined to a depth-1 entry. */
  lemma EveryGrandchildLinked(root: Node, i: nat)
    requires i < |Positions(root)| && Positions(root)[i].level == 2
    ensures exists p :: Line(p, i) in Connections(Positions(root))
  {
    var ps := Positions(root);
    PositionsShape(root);
    LayoutGrandchildren(root, Take(root.children, MaxChildren));
    assert FindLevel(ps, 0, 0) == Some(0);
    assert GrandchildOfPrevious(ps, i);
    var p :| p in {i - 1, i - 2} && 0 <= p && ps[p].level == 1 && p + 1 < GrandchildLimit
             && i - p - 1 < |ps[p].node.children| && ps[i].node == ps[p].node.children[i - p - 1]
             && (forall q :: p < q <= i ==> ps[q].level == 2);
    assert ps[p].node.children[i - p - 1] in ps[p].node.children;
    assert HasChildWithId(ps[p].node, ps[i].node.id);
    ConnectionsRule(ps);
  }

  // ---------------------------------------------------------------------
  // Labels and colours

  /** `topic.length > max ? topic.substring(0, max) + '...' : topic`. */
  function Truncate(t: string, max: nat): (r: string)
    ensures |r| <= max + 3
    ensures |t| <= max ==> r == t
    ensures |t| > max ==> |r| == max + 3 && r[..max] == t[..max] && r[max..] == "..."
  {
    if |t| > max then t[..max] + "..." else t
  }

  /** The text in a node box: the topic, `Node` when it is empty, cut after 12 characters. */
  function BoxLabel(topic: string): (r: string)
    ensures r != "" && |r| <= 15
    ensures topic == "" ==> r == "Node"
    ensures 0 < |topic| <= 12 ==> r == topic
    ensures |topic| > 12 ==> r == topic[..12] + "..."
  {
    Truncate(OrElse(topic, "Node"), 12)
  }

  /** The characters a text label keeps at each depth. */
  function LabelLength(level: nat): (n: nat)
    ensures n in {6, 8, 12}
  {
    if level == 0 then 12 else if level == 1 then 8 else 6
  }

  /** The text label: the topic, `Node` when it is empty, cut after 12, 8 or 6 characters by depth. */
  function TextLabel(topic: string, level: nat): (r: string)
    ensures r != "" && |r| <= LabelLength(level) + 3
    ensures topic == "" ==> r == "Node"
    ensures |topic| > LabelLength(level) ==> r == topic[..LabelLength(level)] + "..."
    ensures 0 < |topic| <= LabelLength(level) ==> r == topic
  {
    Truncate(OrElse(topic, "Node"), LabelLength(level))
  }

  datatype ThemeColors = ThemeColors(start: string, end: string)

  /** The gradient of the thumbnail background for a branch palette; absent is the empty string. */
  function GetThemeColors(branchPalette: string): (r: ThemeColors)
    ensures branchPalette == "semantic" ==> r == ThemeColors("#3B82F6", "#8B5CF6")
    ensures branchPalette == "rainbow" ==> r == ThemeColors("#F59E0B", "#EF4444")
    ensures branchPalette !in {"semantic", "rainbow"} ==> r == ThemeColors("#6366F1", "#A855F7")
  {
    match branchPalette
    case "semantic" => ThemeColors("#3B82F6", "#8B5CF6")
    case "rainbow" => ThemeColors("#F59E0B", "#EF4444")
    case _ => ThemeColors("#6366F1", "#A855F7")
  }
}
