/** The tree of coverage nodes and its teardown (src/driver/linux/gcov.c). */
module GcovTree {

  /** A node of the tree: a directory, or a file with coverage data. Siblings share a parent, whose files
      points to the first of them; the nodes with data are also linked by next. */
  class Node {
    var files: Node?
    var sibling: Node?
    var parent: Node?
    var next: Node?
    const bb: bool

    constructor (data: bool)
      ensures files == null && sibling == null && parent == null && next == null && bb == data
    {
      files, sibling, parent, next := null, null, null, null;
      bb := data;
    }
  }

  // ----- Shapes -----

  /** A list of siblings, each with the list of its children. */
  datatype Forest = Nil | Cons(node: Node, kids: Forest, rest: Forest)

  ghost function Nodes(f: Forest): set<Node> {
    match f
    case Nil => {}
    case Cons(n, kids, rest) => {n} + Nodes(kids) + Nodes(rest)
  }

  ghost predicate Distinct(f: Forest) {
    match f
    case Nil => true
    case Cons(n, kids, rest) =>
      n !in Nodes(kids) && n !in Nodes(rest) && Nodes(kids) !! Nodes(rest) && Distinct(kids) && Distinct(rest)
  }

  ghost function Roots(f: Forest): set<Node> {
    if f.Nil? then {} else {f.node} + Roots(f.rest)
  }

  /** The children of a node. */
  ghost function KidsOf(f: Forest, n: Node): Forest {
    match f
    case Nil => Nil
    case Cons(m, kids, rest) =>
      if m == n then kids else if n in Nodes(kids) then KidsOf(kids, n) else KidsOf(rest, n)
  }

  /** The node and all below it. */
  ghost function Subtree(f: Forest, n: Node): set<Node> {
    {n} + Nodes(KidsOf(f, n))
  }

  /** The forest without a node and all below it. */
  ghost function Remove(f: Forest, n: Node): Forest {
    match f
    case Nil => Nil
    case Cons(m, kids, rest) => if m == n then rest else Cons(m, Remove(kids, n), Remove(rest, n))
  }

  /** All nodes, children before their parent, siblings in order. */
  ghost function PostOrder(f: Forest): seq<Node> {
    match f
    case Nil => []
    case Cons(n, kids, rest) => PostOrder(kids) + [n] + PostOrder(rest)
  }

  lemma {:induction false} PostOrderNodes(f: Forest, n: Node)
    ensures n in PostOrder(f) <==> n in Nodes(f)
  {
    if f.Cons? {
      PostOrderNodes(f.kids, n);
      PostOrderNodes(f.rest, n);
    }
  }

  lemma {:induction false} KidsInside(f: Forest, n: Node)
    ensures Nodes(KidsOf(f, n)) <= Nodes(f) && (Distinct(f) ==> Distinct(KidsOf(f, n)) && n !in Nodes(KidsOf(f, n)))
    ensures n !in Nodes(f) ==> KidsOf(f, n) == Nil
  {
    if f.Cons? && f.node != n {
      KidsInside(f.kids, n);
      KidsInside(f.rest, n);
    }
  }

  /** Each node occurs once in the post-order. */
  lemma {:induction false} OnceEach(f: Forest, i: nat, j: nat)
    requires Distinct(f) && i < j < |PostOrder(f)|
    ensures PostOrder(f)[i] != PostOrder(f)[j]
  {
    var k, r, s := PostOrder(f.kids), PostOrder(f.rest), PostOrder(f);
    assert i < |k| ==> s[i] == k[i];
    assert j > |k| ==> s[j] == r[j - |k| - 1];
    PostOrderNodes(f.kids, s[i]);
    PostOrderNodes(f.rest, s[j]);
    if j < |k| {
      OnceEach(f.kids, i, j);
    } else if i > |k| {
      assert s[i] == r[i - |k| - 1];
      OnceEach(f.rest, i - |k| - 1, j - |k| - 1);
    }
  }

  /** Everything below a node comes before it. */
  lemma {:induction false} ChildrenFirst(f: Forest, n: Node, i: nat, j: nat)
    requires Distinct(f) && i < |PostOrder(f)| && j < |PostOrder(f)|
    requires PostOrder(f)[j] == n && PostOrder(f)[i] in Nodes(KidsOf(f, n))
    ensures i < j
  {
    var k, r, s := PostOrder(f.kids), PostOrder(f.rest), PostOrder(f);
    var c := s[i];
    PostOrderNodes(f.kids, c); PostOrderNodes(f.rest, c);
    PostOrderNodes(f.kids, n); PostOrderNodes(f.rest, n);
    KidsInside(f.kids, n);
    KidsInside(f.rest, n);
    assert i > |k| ==> c == r[i - |k| - 1];
    assert j > |k| ==> n == r[j - |k| - 1];
    assert i < |k| ==> c == k[i];
    assert j < |k| ==> n == k[j];
    if j < |k| {
      ChildrenFirst(f.kids, n, i, j);
    } else if j > |k| {
      if i > |k| {
        ChildrenFirst(f.rest, n, i - |k| - 1, j - |k| - 1);
      }
    }
  }

  lemma {:induction false} RemoveAbsent(f: Forest, n: Node)
    requires n !in Nodes(f)
    ensures Remove(f, n) == f
  {
    if f.Cons? {
      RemoveAbsent(f.kids, n);
      RemoveAbsent(f.rest, n);
    }
  }

  /** What removing a node leaves. */
  lemma {:induction false} RemoveNodes(f: Forest, n: Node)
    requires Distinct(f)
    ensures Nodes(Remove(f, n)) == Nodes(f) - Subtree(f, n) && Distinct(Remove(f, n))
  {
    KidsInside(f, n);
    if f.Cons? && f.node != n {
      RemoveNodes(f.kids, n);
      RemoveNodes(f.rest, n);
      KidsInside(f.kids, n);
      KidsInside(f.rest, n);
    }
  }

  /** Removing a node leaves the children of the others as they are, but for the node itself. */
  lemma {:induction false} RemoveKeeps(f: Forest, n: Node, m: Node)
    requires Distinct(f) && m in Nodes(f) && m !in Subtree(f, n)
    ensures KidsOf(Remove(f, n), m) == Remove(KidsOf(f, m), n)
  {
    if f.node == n {
      KidsInside(f.rest, m);
      RemoveAbsent(KidsOf(f.rest, m), n);
    } else if f.node != m {
      RemoveNodes(f.kids, n);
      RemoveNodes(f.rest, n);
      KidsInside(f.kids, n);
      KidsInside(f.rest, n);
      if m in Nodes(f.kids) {
        RemoveKeeps(f.kids, n, m);
      } else {
        RemoveKeeps(f.rest, n, m);
      }
    }
  }

  /** Removing a node after something below it is removing the node. */
  lemma {:induction false} RemoveBelow(f: Forest, c: Node, n: Node)
    requires Distinct(f) && c in Nodes(KidsOf(f, n))
    ensures Remove(Remove(f, c), n) == Remove(f, n)
  {
    KidsInside(f, n);
    KidsInside(f.kids, n);
    KidsInside(f.rest, n);
    if f.node == n {
      RemoveAbsent(f.rest, c);
    } else if n in Nodes(f.kids) {
      RemoveBelow(f.kids, c, n);
      RemoveAbsent(f.rest, c);
    } else {
      RemoveBelow(f.rest, c, n);
      RemoveAbsent(f.kids, c);
    }
  }

  // ----- The first node in post-order -----

  ghost function First(f: Forest): Node
    requires f.Cons?
  {
    if f.kids.Nil? then f.node else First(f.kids)
  }

  /** The nodes passed on the way down to the first one. */
  ghost predicate OnSpine(f: Forest, n: Node) {
    f.Cons? && (n == f.node || OnSpine(f.kids, n))
  }

  lemma {:induction false} FirstInside(f: Forest)
    requires f.Cons?
    ensures First(f) in Nodes(f) && (Distinct(f) ==> KidsOf(f, First(f)) == Nil)
  {
    if f.kids.Cons? {
      FirstInside(f.kids);
    }
  }

  lemma {:induction false} FirstComesFirst(f: Forest)
    requires f.Cons? && Distinct(f)
    ensures PostOrder(f) == [First(f)] + PostOrder(Remove(f, First(f)))
  {
    FirstInside(f);
    if f.kids.Cons? {
      var c := First(f.kids);
      FirstInside(f.kids);
      FirstComesFirst(f.kids);
      RemoveAbsent(f.rest, c);
      assert [c] + PostOrder(Remove(f.kids, c)) + [f.node] + PostOrder(f.rest) ==
             [c] + (PostOrder(Remove(f.kids, c)) + [f.node] + PostOrder(f.rest));
    }
  }

  /** Going down from a node on the way to the first one stays on the way. */
  lemma {:induction false} SpineDown(f: Forest, n: Node)
    requires Distinct(f) && OnSpine(f, n)
    ensures n in Nodes(f)
    ensures KidsOf(f, n).Nil? ==> n == First(f)
    ensures KidsOf(f, n).Cons? ==>
              OnSpine(f, KidsOf(f, n).node) && KidsOf(f, KidsOf(f, n).node) == KidsOf(f, n).kids
  {
    if n != f.node {
      SpineDown(f.kids, n);
      KidsInside(f.kids, n);
    }
  }

  // ----- Shapes in memory -----

  /** The pointer leads to a list of siblings of this shape, with this parent. */
  ghost predicate Rep(p: Node?, f: Forest, parent: Node?)
    reads Nodes(f)`files, Nodes(f)`sibling, Nodes(f)`parent
  {
    match f
    case Nil => p == null
    case Cons(n, kids, rest) =>
      p == n && n.parent == parent && Rep(n.files, kids, n) && Rep(n.sibling, rest, parent)
  }

  lemma {:induction false} KidsRep(p: Node?, f: Forest, parent: Node?, n: Node)
    requires Rep(p, f, parent) && n in Nodes(f)
    ensures Rep(n.files, KidsOf(f, n), n)
  {
    if f.node != n {
      if n in Nodes(f.kids) {
        KidsRep(f.node.files, f.kids, f.node, n);
      } else {
        KidsRep(f.node.sibling, f.rest, parent, n);
      }
    }
  }

  /** A node is among the children of the node its parent pointer names. */
  lemma {:induction false} ParentRep(p: Node?, f: Forest, parent: Node?, n: Node)
    requires Rep(p, f, parent) && Distinct(f) && n in Nodes(f)
    ensures if n in Roots(f) then n.parent == parent
            else n.parent != null && n.parent in Nodes(f) && n in Roots(KidsOf(f, n.parent))
  {
    if f.node != n {
      if n in Nodes(f.kids) {
        RootsInside(f.rest);
        ParentRep(f.node.files, f.kids, f.node, n);
      } else {
        ParentRep(f.node.sibling, f.rest, parent, n);
      }
    }
  }

  lemma {:induction false} RootsInside(f: Forest)
    ensures Roots(f) <= Nodes(f)
  {
    if f.Cons? {
      RootsInside(f.rest);
    }
  }

  lemma {:induction false} FilesRep(p: Node?, f: Forest, parent: Node?, n: Node)
    requires Rep(p, f, parent) && n in Nodes(f) && n.files != null
    ensures n.files.parent == n
  {
    KidsRep(p, f, parent, n);
    assert KidsOf(f, n).Cons?;
  }

  /** A sibling has the same parent and is not its first child. */
  lemma {:induction false} SiblingRep(p: Node?, f: Forest, parent: Node?, n: Node)
    requires Rep(p, f, parent) && Distinct(f) && n in Nodes(f) && n.sibling != null
    ensures n.sibling in Nodes(f) && n.sibling != f.node && n.sibling.parent == n.parent
    ensures n.parent == parent || (n.parent != null && n.parent in Nodes(f) && n.parent.files != n.sibling)
  {
    if f.node == n {
      assert f.rest.Cons?;
    } else if n in Nodes(f.kids) {
      SiblingRep(f.node.files, f.kids, f.node, n);
    } else {
      SiblingRep(f.node.sibling, f.rest, parent, n);
    }
  }

  /** No two nodes have the same sibling. */
  lemma {:induction false} SiblingOnce(p: Node?, f: Forest, parent: Node?, a: Node, b: Node)
    requires Rep(p, f, parent) && Distinct(f) && a in Nodes(f) && b in Nodes(f)
    requires a.sibling == b.sibling != null
    ensures a == b
  {
    if a in Nodes(f.kids) { SiblingRep(f.node.files, f.kids, f.node, a); }
    if b in Nodes(f.kids) { SiblingRep(f.node.files, f.kids, f.node, b); }
    if a in Nodes(f.rest) { SiblingRep(f.node.sibling, f.rest, parent, a); }
    if b in Nodes(f.rest) { SiblingRep(f.node.sibling, f.rest, parent, b); }
    if a in Nodes(f.kids) && b in Nodes(f.kids) {
      SiblingOnce(f.node.files, f.kids, f.node, a, b);
    } else if a in Nodes(f.rest) && b in Nodes(f.rest) {
      SiblingOnce(f.node.sibling, f.rest, parent, a, b);
    }
  }

  /** Where a pointer leads once a node is bypassed. */
  ghost function Bypass(p: Node?, c: Node, after: Node?): Node? {
    if p == c then after else p
  }

  /** The tree pointers of a node. */
  datatype Links = Links(files: Node?, sibling: Node?, parent: Node?)

  ghost function Snapshot(nodes: set<Node>): map<Node, Links>
    reads nodes
  {
    map n | n in nodes :: Links(n.files, n.sibling, n.parent)
  }

  /** Rep, in a snapshot of the pointers. */
  ghost predicate RepIn(m: map<Node, Links>, p: Node?, f: Forest, parent: Node?)
    requires Nodes(f) <= m.Keys
  {
    match f
    case Nil => p == null
    case Cons(n, kids, rest) =>
      p == n && m[n].parent == parent && RepIn(m, m[n].files, kids, n) && RepIn(m, m[n].sibling, rest, parent)
  }

  lemma {:induction false} SnapshotRep(nodes: set<Node>, p: Node?, f: Forest, parent: Node?)
    requires Nodes(f) <= nodes
    ensures Rep(p, f, parent) <==> RepIn(Snapshot(nodes), p, f, parent)
    decreases f
  {
    match f
    case Nil =>
    case Cons(n, kids, rest) =>
      SnapshotRep(nodes, n.files, kids, n);
      SnapshotRep(nodes, n.sibling, rest, parent);
  }

  /** Between the snapshots, every pointer to the node c has been made to bypass it, and nothing else happened. */
  ghost predicate Diverted(m: map<Node, Links>, m': map<Node, Links>, c: Node) {
    && c in m && m.Keys == m'.Keys && m[c] == m'[c]
    && forall n | n in m && n != c ::
         m'[n] == Links(Bypass(m[n].files, c, m[c].sibling), Bypass(m[n].sibling, c, m[c].sibling), m[n].parent)
  }

  /** Bypassing a node by every pointer to it takes it out of the shape. */
  lemma {:induction false} Bypassed(m: map<Node, Links>, m': map<Node, Links>, p: Node?, f: Forest, parent: Node?,
                                    c: Node)
    requires Diverted(m, m', c) && Distinct(f) && Nodes(f) <= m.Keys && RepIn(m, p, f, parent)
    ensures Nodes(Remove(f, c)) <= Nodes(f)
    ensures RepIn(m', Bypass(p, c, m[c].sibling), Remove(f, c), parent)
  {
    match f
    case Nil =>
    case Cons(n, kids, rest) =>
      Bypassed(m, m', m[n].files, kids, n, c);
      Bypassed(m, m', m[n].sibling, rest, parent, c);
      if n == c {
        RemoveAbsent(rest, c);
      }
  }

  ghost function After(c: Node): Node?
    reads c
  {
    if c.sibling != null then c.sibling else c.parent
  }

  /** After the first node goes, its sibling or else its parent is on the way to the next one. */
  lemma {:induction false} SpineNext(p: Node?, f: Forest, parent: Node)
    requires Rep(p, f, parent) && Distinct(f) && f.Cons?
    ensures First(f) in Nodes(f) && After(First(f)) != null
    ensures OnSpine(Cons(parent, Remove(f, First(f)), Nil), After(First(f)))
  {
    FirstInside(f);
    if f.kids.Cons? {
      SpineNext(f.node.files, f.kids, f.node);
    }
  }

  // ----- The list of nodes with data -----

  ghost function At(s: seq<Node>, i: nat): Node? {
    if i < |s| then s[i] else null
  }

  ghost function Elements(s: seq<Node>): set<Node> {
    set n | n in s
  }

  ghost predicate LeafList(p: Node?, s: seq<Node>)
    reads s`next
  {
    && p == At(s, 0)
    && (forall i | 0 <= i < |s| :: s[i].next == At(s, i + 1))
    && (forall i, j | 0 <= i < j < |s| :: s[i] != s[j])
  }

  /** The sequence without the nodes that are gone, the others in order. */
  ghost function Keep(s: seq<Node>, gone: set<Node>): seq<Node> {
    if s == [] then [] else (if s[0] in gone then [] else [s[0]]) + Keep(s[1..], gone)
  }

  lemma {:induction false} KeepAll(s: seq<Node>, gone: set<Node>)
    requires forall n | n in s :: n !in gone
    ensures Keep(s, gone) == s
  {
    if s != [] {
      KeepAll(s[1..], gone);
    }
  }

  lemma {:induction false} KeepTwice(s: seq<Node>, a: set<Node>, b: set<Node>)
    ensures Keep(Keep(s, a), b) == Keep(s, a + b)
  {
    if s != [] {
      KeepTwice(s[1..], a, b);
      if s[0] in a {
        assert Keep(s, a) == Keep(s[1..], a);
      } else {
        assert Keep(s, a)[1..] == Keep(s[1..], a);
      }
    }
  }

  lemma KeepMore(s: seq<Node>, all: set<Node>, left: set<Node>, c: Node)
    requires c in left && left <= all
    ensures Keep(Keep(s, all - left), {c}) == Keep(s, all - (left - {c}))
  {
    KeepTwice(s, all - left, {c});
    assert all - left + {c} == all - (left - {c});
  }

  lemma {:induction false} KeepIn(s: seq<Node>, gone: set<Node>, n: Node)
    ensures n in Keep(s, gone) <==> n in s && n !in gone
  {
    if s != [] {
      KeepIn(s[1..], gone, n);
    }
  }

  lemma {:induction false} KeepOne(s: seq<Node>, i: nat)
    requires i < |s| && forall j | 0 <= j < |s| && j != i :: s[j] != s[i]
    ensures Keep(s, {s[i]}) == s[..i] + s[i + 1..]
  {
    if i == 0 {
      KeepAll(s[1..], {s[0]});
    } else {
      KeepOne(s[1..], i - 1);
      assert s[..i] + s[i + 1..] == [s[0]] + (s[1..][..i - 1] + s[1..][i..]);
    }
  }

  // ----- Teardown -----

  /** What is left of a tree when a node is torn down; the root itself always stays. */
  ghost function Pruned(f: Forest, n: Node): Forest
    requires f.Cons?
  {
    if n == f.node then Cons(n, Nil, Nil) else Remove(f, n)
  }

  /** The nodes freed by that. */
  ghost function Torn(f: Forest, n: Node): seq<Node>
    requires f.Cons?
  {
    PostOrder(KidsOf(f, n)) + if n == f.node then [] else [n]
  }

  /** Exactly the nodes that leave the tree are freed. */
  lemma TornExactly(f: Forest, n: Node, x: Node)
    requires f.Cons? && f.rest.Nil? && Distinct(f) && n in Nodes(f)
    ensures x in Torn(f, n) <==> x in Nodes(f) && x !in Nodes(Pruned(f, n))
    ensures x in Torn(f, n) <==> x in Subtree(f, n) && x != f.node
  {
    PostOrderNodes(KidsOf(f, n), x);
    KidsInside(f, n);
    RemoveNodes(f, n);
    if x in Nodes(KidsOf(f, n)) {
      KidsWithin(f, n, x);
    }
  }

  /** Each is freed once, after everything below it. */
  lemma TornInOrder(f: Forest, n: Node, i: nat, j: nat)
    requires f.Cons? && f.rest.Nil? && Distinct(f) && n in Nodes(f) && i < |Torn(f, n)| && j < |Torn(f, n)|
    ensures i != j ==> Torn(f, n)[i] != Torn(f, n)[j]
    ensures Torn(f, n)[i] in Nodes(KidsOf(f, Torn(f, n)[j])) ==> i < j
  {
    var kids := KidsOf(f, n);
    var t, all := Cons(n, kids, Nil), PostOrder(Cons(n, kids, Nil));
    KidsInside(f, n);
    assert all == PostOrder(kids) + [n];
    if i < j { OnceEach(t, i, j); }
    if j < i { OnceEach(t, j, i); }
    var m := Torn(f, n)[j];
    if all[i] in Nodes(KidsOf(f, m)) {
      if m != n {
        PostOrderNodes(kids, m);
        KidsWithin(f, n, m);
      }
      ChildrenFirst(t, m, i, j);
    }
  }

  lemma {:induction false} KidsWithin(f: Forest, n: Node, c: Node)
    requires Distinct(f) && c in Nodes(KidsOf(f, n))
    ensures KidsOf(KidsOf(f, n), c) == KidsOf(f, c) && (f.rest.Nil? ==> c != f.node)
  {
    KidsInside(f, n);
    KidsInside(f.kids, n);
    KidsInside(f.rest, n);
    if f.node != n {
      if n in Nodes(f.kids) {
        KidsWithin(f.kids, n, c);
      } else {
        KidsWithin(f.rest, n, c);
      }
    }
  }

  /** Taking away the first node below another one: all that is left to do is the same without it. */
  lemma FirstTaken(f: Forest, n: Node)
    requires f.Cons? && f.rest.Nil? && Distinct(f) && n in Nodes(f) && KidsOf(f, n).Cons?
    ensures var kids := KidsOf(f, n); var c := First(kids);
            && c in Nodes(f) && c != n && c != f.node && KidsOf(f, c).Nil?
            && n in Nodes(Remove(f, c)) && KidsOf(Remove(f, c), n) == Remove(kids, c)
            && Remove(f, c).Cons? && Pruned(Remove(f, c), n) == Pruned(f, n)
            && PostOrder(kids) == [c] + PostOrder(Remove(kids, c))
            && Nodes(Remove(kids, c)) == Nodes(kids) - {c} && c in Nodes(kids)
  {
    var kids := KidsOf(f, n);
    KidsInside(f, n);
    FirstInside(kids);
    var c := First(kids);
    KidsWithin(f, n, c);
    RemoveNodes(f, c);
    RemoveNodes(kids, c);
    RemoveKeeps(f, c, n);
    RemoveBelow(f, c, n);
    FirstComesFirst(kids);
  }

  /** How far tearing down a node has got: the tree, the freed nodes and the list then and now. */
  ghost predicate Doing(f0: Forest, f: Forest, n: Node, freed0: seq<Node>, freed: seq<Node>,
                        leaves0: seq<Node>, leaves: seq<Node>)
  {
    && f0.Cons? && f.Cons? && n in Nodes(f) && Pruned(f, n) == Pruned(f0, n)
    && Nodes(KidsOf(f, n)) <= Nodes(KidsOf(f0, n))
    && freed + PostOrder(KidsOf(f, n)) == freed0 + PostOrder(KidsOf(f0, n))
    && leaves == Keep(leaves0, Nodes(KidsOf(f0, n)) - Nodes(KidsOf(f, n)))
  }

  lemma DoingStarts(f: Forest, n: Node, freed: seq<Node>, leaves: seq<Node>)
    requires f.Cons? && n in Nodes(f)
    ensures Doing(f, f, n, freed, freed, leaves, leaves)
  {
    assert Nodes(KidsOf(f, n)) - Nodes(KidsOf(f, n)) == {};
    KeepAll(leaves, {});
  }

  lemma DoingGoesOn(f0: Forest, f: Forest, n: Node, freed0: seq<Node>, freed: seq<Node>,
                    leaves0: seq<Node>, leaves: seq<Node>)
    requires Doing(f0, f, n, freed0, freed, leaves0, leaves)
    requires f.rest.Nil? && Distinct(f) && KidsOf(f, n).Cons?
    ensures var c := First(KidsOf(f, n));
            Doing(f0, Remove(f, c), n, freed0, freed + [c], leaves0, Keep(leaves, {c}))
  {
    FirstTaken(f, n);
    var kids := KidsOf(f, n);
    var c := First(kids);
    assert freed + ([c] + PostOrder(Remove(kids, c))) == freed + [c] + PostOrder(Remove(kids, c));
    KeepMore(leaves0, Nodes(KidsOf(f0, n)), Nodes(kids), c);
  }

  lemma DoingEnds(f0: Forest, f: Forest, n: Node, freed0: seq<Node>, freed: seq<Node>,
                  leaves0: seq<Node>, leaves: seq<Node>)
    requires Doing(f0, f, n, freed0, freed, leaves0, leaves) && f.node == f0.node && KidsOf(f, n).Nil?
    ensures freed + (if n == f.node then [] else [n]) == freed0 + Torn(f0, n)
    ensures Keep(leaves, {n}) == Keep(leaves0, Subtree(f0, n))
  {
    var all := PostOrder(KidsOf(f0, n));
    assert freed == freed + PostOrder(KidsOf(f, n)) == freed0 + all;
    assert freed0 + (all + [n]) == freed0 + all + [n];
    assert all + [] == all;
    KeepTwice(leaves0, Nodes(KidsOf(f0, n)), {n});
    assert Nodes(KidsOf(f0, n)) - {} == Nodes(KidsOf(f0, n));
    assert Nodes(KidsOf(f0, n)) + {n} == Subtree(f0, n);
  }

  class Ftree {
    const root: Node
    var leafNodes: Node?
    /** The shape of the tree, the list of nodes with data, and the nodes freed so far. */
    ghost var tree: Forest
    ghost var leaves: seq<Node>
    ghost var freed: seq<Node>

    constructor ()
      ensures Valid() && tree == Cons(root, Nil, Nil) && leaves == [] && freed == []
    {
      var r := new Node(false);
      root, leafNodes := r, null;
      tree, leaves, freed := Cons(r, Nil, Nil), [], [];
    }

    ghost predicate TreeValid()
      reads this`tree, Nodes(tree)`files, Nodes(tree)`sibling, Nodes(tree)`parent
    {
      tree.Cons? && tree.node == root && tree.rest.Nil? && Rep(root, tree, null) && Distinct(tree)
    }

    ghost predicate Valid()
      reads this, Nodes(tree), leaves
    {
      TreeValid() && LeafList(leafNodes, leaves) && forall n | n in leaves :: n.bb
    }

    /** The sibling before a node that is not the first child. */
    method Before(curr: Node, p: Node, ghost f: Forest) returns (prev: Node)
      requires Rep(p.files, f, p) && curr in Roots(f) && p.files != curr
      ensures prev in Nodes(f) && prev.sibling == curr
    {
      prev := p.files;
      ghost var g := f;
      while prev.sibling != curr
        invariant Rep(prev, g, p) && curr in Roots(g) && prev != curr && Nodes(g) <= Nodes(f)
        decreases g
      {
        prev, g := prev.sibling, g.rest;
      }
    }

    /** Make the pointer to a node other than the root lead to its sibling instead. */
    method Divert(curr: Node)
      requires TreeValid() && curr in Nodes(tree) && curr.parent != null
      requires curr.parent in Nodes(tree) && curr in Roots(KidsOf(tree, curr.parent))
      modifies Nodes(tree)`files, Nodes(tree)`sibling
      ensures Diverted(old(Snapshot(Nodes(tree))), Snapshot(Nodes(tree)), curr)
    {
      ghost var nodes := Nodes(tree);
      var p := curr.parent;
      KidsRep(root, tree, null, p);
      KidsInside(tree, p);
      forall n | n in nodes && n.files == curr ensures n == p { FilesRep(root, tree, null, n); }
      if p.files == curr {
        forall n | n in nodes ensures n.sibling != curr {
          if n.sibling == curr { SiblingRep(root, tree, null, n); }
        }
        p.files := curr.sibling;
      } else {
        ghost var m := Snapshot(nodes);
        forall a, b | a in m && b in m && m[a].sibling == m[b].sibling == curr ensures a == b {
          SiblingOnce(root, tree, null, a, b);
        }
        var prev := Before(curr, p, KidsOf(tree, p));
        assert prev in m && m[prev].sibling == curr;
        prev.sibling := curr.sibling;
      }
    }

    /** Remove from tree. */
    method Unlink(curr: Node)
      requires TreeValid() && curr in Nodes(tree) && KidsOf(tree, curr).Nil?
      modifies this`tree, Nodes(tree)`files, Nodes(tree)`sibling
      ensures TreeValid() && tree == Pruned(old(tree), curr)
    {
      ghost var nodes := Nodes(tree);
      ParentRep(root, tree, null, curr);
      if curr.parent != null {
        ghost var m := Snapshot(nodes);
        SnapshotRep(nodes, root, tree, null);
        Divert(curr);
        ghost var m' := Snapshot(nodes);
        Bypassed(m, m', root, tree, null, curr);
        RemoveNodes(tree, curr);
        tree := Remove(tree, curr);
        SnapshotRep(nodes, root, tree, null);
      } else {
        assert Roots(tree) == {root};
      }
    }

    /** The last node of the leaf list before a node, if there is one. */
    method BeforeLeaf(curr: Node) returns (prev: Node?, ghost i: nat)
      requires LeafList(leafNodes, leaves) && leafNodes != curr
      ensures prev != null ==> i + 1 < |leaves| && leaves[i] == prev && leaves[i + 1] == curr
      ensures prev == null ==> curr !in leaves
    {
      prev, i := leafNodes, 0;
      while prev != null && prev.next != curr
        invariant LeafList(leafNodes, leaves) && i <= |leaves| && prev == At(leaves, i)
        invariant forall j | 0 <= j <= i && j < |leaves| :: leaves[j] != curr
        decreases |leaves| - i
      {
        prev, i := prev.next, i + 1;
      }
    }

    /** Make the list skip the node after position i. */
    method SkipLeaf(prev: Node, ghost i: nat, after: Node?)
      requires LeafList(leafNodes, leaves) && i + 1 < |leaves| && leaves[i] == prev && after == At(leaves, i + 2)
      modifies this`leaves, prev`next
      ensures LeafList(leafNodes, leaves) && leaves == old(leaves[..i + 1] + leaves[i + 2..])
    {
      ghost var s := leaves;
      prev.next := after;
      leaves := s[..i + 1] + s[i + 2..];
      forall j | 0 <= j < |leaves| ensures leaves[j].next == At(leaves, j + 1) {
        assert leaves[j] == if j <= i then s[j] else s[j + 1];
      }
    }

    /** Remove from leaf node list if necessary. */
    method UnlinkLeaf(curr: Node)
      requires LeafList(leafNodes, leaves) && (curr in leaves ==> curr.bb)
      modifies this`leafNodes, this`leaves, Elements(leaves)`next
      ensures LeafList(leafNodes, leaves) && leaves == Keep(old(leaves), {curr})
    {
      hide Keep;
      ghost var s := leaves;
      if !curr.bb {
        KeepAll(s, {curr});
      } else if leafNodes == curr {
        KeepOne(s, 0);
        leafNodes := curr.next;
        leaves := s[1..];
        assert s[..0] + s[1..] == s[1..];
      } else {
        var prev, i := BeforeLeaf(curr);
        if prev != null {
          KeepOne(s, i + 1);
          SkipLeaf(prev, i, curr.next);
        } else {
          KeepAll(s, {curr});
        }
      }
    }

    /** free_node. */
    method FreeNode(curr: Node)
      modifies this`freed
      ensures freed == old(freed) + if curr == root then [] else [curr]
    {
      if curr == root {
        return;
      }
      freed := freed + [curr];
    }

    /** The first node in post-order, found by going down from a node on the way to it. */
    method Descend(node: Node, next: Node, ghost kids: Forest) returns (curr: Node)
      requires Rep(node.files, kids, node) && Distinct(kids) && node !in Nodes(kids)
      requires OnSpine(Cons(node, kids, Nil), next)
      ensures curr == First(Cons(node, kids, Nil))
    {
      ghost var f := Cons(node, kids, Nil);
      curr := next;
      SpineDown(f, curr);
      if curr != node { KidsRep(node.files, kids, node, curr); }
      while curr.files != null
        invariant OnSpine(f, curr) && Rep(curr.files, KidsOf(f, curr), curr)
        decreases KidsOf(f, curr)
      {
        SpineDown(f, curr);
        curr := curr.files;
      }
      SpineDown(f, curr);
    }

    /** One round: take a node without children out of the tree and the list, and free it. */
    method CleanupOne(curr: Node)
      requires Valid() && curr in Nodes(tree) && KidsOf(tree, curr).Nil?
      modifies this`tree, this`leafNodes, this`leaves, this`freed
      modifies Nodes(tree)`files, Nodes(tree)`sibling, Elements(leaves)`next
      ensures Valid() && tree == Pruned(old(tree), curr) && leaves == Keep(old(leaves), {curr})
      ensures freed == old(freed) + if curr == root then [] else [curr]
    {
      Unlink(curr);
      ghost var nodes, m := Nodes(tree), Snapshot(Nodes(tree));
      SnapshotRep(nodes, root, tree, null);
      UnlinkLeaf(curr);
      forall n | n in leaves ensures n.bb { KeepIn(old(leaves), {curr}, n); }
      FreeNode(curr);
      assert Snapshot(nodes) == m;
      SnapshotRep(nodes, root, tree, null);
    }

    /** One pass of the loop of cleanup_node, with the children the node still has. */
    method Pass(node: Node, next0: Node, ghost kids: Forest) returns (curr: Node, next: Node?)
      requires Valid() && node in Nodes(tree) && kids == KidsOf(tree, node) && OnSpine(Cons(node, kids, Nil), next0)
      modifies this`tree, this`leafNodes, this`leaves, this`freed
      modifies Nodes(tree)`files, Nodes(tree)`sibling, Elements(leaves)`next
      ensures Valid() && curr == First(Cons(node, kids, Nil))
      ensures tree == Pruned(old(tree), curr) && leaves == Keep(old(leaves), {curr})
      ensures freed == old(freed) + if curr == root then [] else [curr]
      ensures kids.Cons? ==> next != null && OnSpine(Cons(node, Remove(kids, curr), Nil), next)
    {
      KidsRep(root, tree, null, node);
      KidsInside(tree, node);
      ghost var nodes, m := Nodes(tree), Snapshot(Nodes(tree));
      SnapshotRep(nodes, root, tree, null);
      if kids.Cons? {
        SpineNext(node.files, kids, node);
        FirstTaken(tree, node);
      }
      curr := Descend(node, next0, kids);
      next := if curr.sibling != null then curr.sibling else curr.parent;
      assert Snapshot(nodes) == m;
      SnapshotRep(nodes, root, tree, null);
      CleanupOne(curr);
    }

    /** The same, seen from the state before the first pass. */
    method Step(node: Node, next0: Node, ghost tree0: Forest, ghost freed0: seq<Node>, ghost leaves0: seq<Node>)
        returns (curr: Node, next: Node?)
      requires Valid() && Doing(tree0, tree, node, freed0, freed, leaves0, leaves) && tree0.node == root
      requires OnSpine(Cons(node, KidsOf(tree, node), Nil), next0)
      modifies this`tree, this`leafNodes, this`leaves, this`freed
      modifies Nodes(tree)`files, Nodes(tree)`sibling, Elements(leaves)`next
      ensures Valid() && Nodes(tree) <= old(Nodes(tree)) && Elements(leaves) <= old(Elements(leaves))
      ensures curr == node ==> tree == Pruned(tree0, node) && freed == freed0 + Torn(tree0, node)
      ensures curr == node ==> leaves == Keep(leaves0, Subtree(tree0, node))
      ensures curr != node ==> Doing(tree0, tree, node, freed0, freed, leaves0, leaves)
      ensures curr != node ==> next != null && OnSpine(Cons(node, KidsOf(tree, node), Nil), next)
      ensures curr != node ==> |PostOrder(KidsOf(tree, node))| < old(|PostOrder(KidsOf(tree, node))|)
    {
      ghost var kids := KidsOf(tree, node);
      if kids.Cons? {
        FirstTaken(tree, node);
        DoingGoesOn(tree0, tree, node, freed0, freed, leaves0, leaves);
      } else {
        DoingEnds(tree0, tree, node, freed0, freed, leaves0, leaves);
      }
      RemoveNodes(tree, First(Cons(node, kids, Nil)));
      curr, next := Pass(node, next0, kids);
      forall n | n in leaves ensures n in old(leaves) { KeepIn(old(leaves), {curr}, n); }
    }

    /** cleanup_node: everything below the node goes, children first, and then the node. */
    method CleanupNode(node: Node)
      requires Valid() && node in Nodes(tree)
      modifies this`tree, this`leafNodes, this`leaves, this`freed
      modifies Nodes(tree)`files, Nodes(tree)`sibling, Elements(leaves)`next
      ensures Valid() && tree == Pruned(old(tree), node)
      ensures freed == old(freed) + Torn(old(tree), node)
      ensures leaves == Keep(old(leaves), Subtree(old(tree), node))
    {
      var next: Node?, done := node, false;
      DoingStarts(tree, node, freed, leaves);
      while !done
        invariant Valid() && Nodes(tree) <= old(Nodes(tree)) && Elements(leaves) <= old(Elements(leaves))
        invariant !done ==> Doing(old(tree), tree, node, old(freed), freed, old(leaves), leaves)
        invariant !done ==> next != null && OnSpine(Cons(node, KidsOf(tree, node), Nil), next)
        invariant done ==> tree == Pruned(old(tree), node) && freed == old(freed) + Torn(old(tree), node)
        invariant done ==> leaves == Keep(old(leaves), Subtree(old(tree), node))
        decreases !done, |PostOrder(KidsOf(tree, node))|
      {
        var curr;
        curr, next := Step(node, next, old(tree), old(freed), old(leaves));
        done := node == curr;
      }
    }
  }
}
