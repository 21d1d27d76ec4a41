/** The parsed footprint tree as main.c walks it: sexp_t nodes linked by
    `next` into sibling chains, a list node pointing at the first node of
    its children's chain. The parser and the library's node constructors
    are not part of this model; the tree arrives already built.

    A ghost `Shape` records which node sits where, `Linked` states that the
    heap's `next` fields really form that layout, and `ToTree` reads the
    layout back as a plain `Tree` value. */
module Sexp {

  /** An s-expression value: an atom's text, or a list of children. */
  datatype Tree = Atom(text: seq<char>) | List(kids: seq<Tree>)

  /** A sexp_t. Only `next` is ever written by the annotator, so the node
      kind, an atom's text and a list's first child are fixed at creation. */
  class Node {
    const isList: bool
    const val: seq<char>
    const list: Node?
    var next: Node?

    /** new_sexp_atom: a detached atom holding `v`. */
    constructor NewAtom(v: seq<char>)
      ensures !isList && val == v && list == null && next == null
    {
      isList := false;
      val := v;
      list := null;
      next := null;
    }

    /** new_sexp_list: a detached list whose children start at `first`. */
    constructor NewList(first: Node?)
      ensures isList && val == [] && list == first && next == null
    {
      isList := true;
      val := [];
      list := first;
      next := null;
    }
  }

  /** Where each node sits: a node and the layouts of its children. */
  datatype Shape = Shape(node: Node, kids: seq<Shape>)

  /** Every node of a subtree, its root included. */
  ghost function Nodes(s: Shape): set<Node>
    decreases s, 1
  {
    {s.node} + Forest(s.kids)
  }

  /** Every node of a sequence of subtrees. */
  ghost function Forest(ss: seq<Shape>): set<Node>
    decreases ss, 0
  {
    set i, n | 0 <= i < |ss| && n in Nodes(ss[i]) :: n
  }

  /** Each subtree of a forest, its root node and the nodes below it are in
      the forest. */
  lemma InForest(ss: seq<Shape>)
    ensures forall i :: 0 <= i < |ss| ==> ss[i].node in Forest(ss) && Forest(ss[i].kids) <= Forest(ss)
  {
    forall i | 0 <= i < |ss|
      ensures ss[i].node in Forest(ss) && Forest(ss[i].kids) <= Forest(ss)
    {
      assert ss[i].node in Nodes(ss[i]);
    }
  }

  /** The nodes of one subtree of a forest are nodes of the forest. */
  lemma ChildNodes(ss: seq<Shape>, i: int)
    requires 0 <= i < |ss|
    ensures Nodes(ss[i]) <= Forest(ss)
  {
  }

  /** In a list's chain of children, the `next` of child i is child i+1,
      or null after the last child. */
  lemma NextInChain(s: Shape, i: int, nx: map<Node, Node?>)
    requires s.node.isList && Layout(s, nx) && 0 <= i < |s.kids|
    ensures s.kids[i].node in nx && nx[s.kids[i].node] == if i + 1 < |s.kids| then s.kids[i + 1].node else null
  {
  }

  /** The `next` fields of a set of nodes, as a map. */
  ghost function NextOf(ns: set<Node>): (nx: map<Node, Node?>)
    reads ns
    ensures nx.Keys == ns
  {
    map n | n in ns :: n.next
  }

  /** The heap agrees with the map `nx` on every node the map names. */
  ghost predicate Holds(nx: map<Node, Node?>)
    reads nx.Keys
  {
    forall n :: n in nx ==> n.next == nx[n]
  }

  /** Under the `next` fields `nx`, the links lead from `first` through the
      nodes of `ss` in order and then to `end`. */
  ghost predicate ChainIn(nx: map<Node, Node?>, first: Node?, ss: seq<Shape>, end: Node?)
  {
    && (ss == [] ==> first == end)
    && (ss != [] ==> first == ss[0].node)
    && (forall i :: 0 <= i < |ss| ==> ss[i].node in nx)
    && (forall i :: 0 <= i < |ss| - 1 ==> nx[ss[i].node] == ss[i + 1].node)
    && (ss != [] ==> nx[ss[|ss| - 1].node] == end)
  }

  /** Under the `next` fields `nx`, the layout is a tree of sibling chains:
      each list's `list` field starts the chain of its children, which ends
      in null; atoms have no children. */
  ghost predicate Layout(s: Shape, nx: map<Node, Node?>)
    decreases s
  {
    && (s.node.isList ==> ChainIn(nx, s.node.list, s.kids, null))
    && (!s.node.isList ==> s.kids == [])
    && forall i :: 0 <= i < |s.kids| ==> Layout(s.kids[i], nx)
  }

  /** The heap holds the layout `s`. */
  ghost predicate Linked(s: Shape)
    reads Forest(s.kids)
  {
    Layout(s, NextOf(Forest(s.kids)))
  }

  /** Siblings i and j share no node. */
  ghost predicate Separate(ss: seq<Shape>, i: int, j: int)
  {
    0 <= i < |ss| && 0 <= j < |ss| && Nodes(ss[i]) !! Nodes(ss[j])
  }

  /** Siblings share no node. The pairs are only looked at when a proof
      names them. */
  ghost predicate Disjoint(ss: seq<Shape>)
  {
    forall i, j {:trigger Separate(ss, i, j)} :: 0 <= i < j < |ss| ==> Separate(ss, i, j)
  }

  /** No node occurs twice in the layout: it is a tree, without sharing or
      cycles. */
  ghost predicate Distinct(s: Shape)
    decreases s
  {
    && s.node !in Forest(s.kids)
    && Disjoint(s.kids)
    && forall i :: 0 <= i < |s.kids| ==> Distinct(s.kids[i])
  }

  /** The value the layout stands for. It reads no mutable field. */
  ghost function ToTree(s: Shape): Tree
    decreases s
  {
    if s.node.isList then List(seq(|s.kids|, i requires 0 <= i < |s.kids| => ToTree(s.kids[i])))
    else Atom(s.node.val)
  }

  /** A layout depends only on the `next` fields of the nodes below its
      root: any map that agrees there gives the same layout. */
  lemma {:induction false} LayoutAgree(s: Shape, nx: map<Node, Node?>, nx': map<Node, Node?>)
    requires Layout(s, nx)
    requires forall n :: n in Forest(s.kids) && n in nx ==> n in nx' && nx'[n] == nx[n]
    ensures Layout(s, nx')
    decreases s
  {
    InForest(s.kids);
    forall i | 0 <= i < |s.kids|
      ensures Layout(s.kids[i], nx')
    {
      LayoutAgree(s.kids[i], nx, nx');
    }
  }

  /** A layout the heap holds through some map is Linked. */
  lemma LinkedFromHolds(s: Shape, nx: map<Node, Node?>)
    requires Holds(nx) && Layout(s, nx) && Forest(s.kids) <= nx.Keys
    ensures Linked(s)
  {
    LayoutAgree(s, nx, NextOf(Forest(s.kids)));
  }

  /** sexp_get_last: follow `next` from the first node of a chain to the
      node whose `next` is null, the chain's last node. */
  method SexpGetLast(first: Node, ghost ss: seq<Shape>, ghost nx: map<Node, Node?>) returns (last: Node)
    requires ss != [] && Holds(nx) && ChainIn(nx, first, ss, null)
    ensures last == ss[|ss| - 1].node && last.next == null
  {
    last := first;
    ghost var i := 0;
    while last.next != null
      invariant 0 <= i < |ss| && last == ss[i].node
      invariant last.next == if i < |ss| - 1 then ss[i + 1].node else null
      decreases |ss| - i
    {
      last := last.next;
      i := i + 1;
    }
  }

  /** A node with no children is a subtree of its own. */
  lemma LeafNodes(n: Node)
    ensures Nodes(Shape(n, [])) == {n}
  {
    assert Forest([]) == {};
  }

  /** A list of two atoms `a` and `b` under `l` holds exactly those three
      nodes, none of them twice, and stands for the two atoms' texts. */
  lemma PairNodes(l: Node, a: Node, b: Node)
    requires l.isList && !a.isList && !b.isList
    requires l != a && l != b && a != b
    ensures var t := Shape(l, [Shape(a, []), Shape(b, [])]);
      && Distinct(t) && Nodes(t) == {l, a, b}
      && ToTree(t) == List([Atom(a.val), Atom(b.val)])
  {
    var kids := [Shape(a, []), Shape(b, [])];
    LeafNodes(a);
    LeafNodes(b);
    ForestAppend([], kids[0]);
    ForestAppend([kids[0]], kids[1]);
    assert [] + [kids[0]] == [kids[0]] && [kids[0]] + [kids[1]] == kids;
    assert Separate(kids, 0, 1);
  }

  /** The same list is laid out by `l.list == a`, `a.next == b` and
      `b.next == null`. */
  lemma PairLayout(l: Node, a: Node, b: Node, nx: map<Node, Node?>)
    requires l.isList && l.list == a && !a.isList && !b.isList
    requires a in nx && b in nx && nx[a] == b && nx[b] == null
    ensures Layout(Shape(l, [Shape(a, []), Shape(b, [])]), nx)
  {
    var kids := [Shape(a, []), Shape(b, [])];
    assert Layout(kids[0], nx) && Layout(kids[1], nx);
  }

  /** Appending a subtree adds its nodes to the forest. */
  lemma ForestAppend(ss: seq<Shape>, t: Shape)
    ensures Forest(ss + [t]) == Forest(ss) + Nodes(t)
  {
    var ss' := ss + [t];
    forall n | n in Forest(ss')
      ensures n in Forest(ss) + Nodes(t)
    {
      var i :| 0 <= i < |ss'| && n in Nodes(ss'[i]);
      if i < |ss| {
        assert ss'[i] == ss[i];
      }
    }
    forall n | n in Forest(ss) + Nodes(t)
      ensures n in Forest(ss')
    {
      if n in Forest(ss) {
        var i :| 0 <= i < |ss| && n in Nodes(ss[i]);
        assert ss'[i] == ss[i];
      } else {
        assert ss'[|ss|] == t;
      }
    }
  }

  /** Replacing a subtree by one with more nodes adds those nodes to the
      forest. */
  lemma ForestReplace(ss: seq<Shape>, i: int, q: Shape)
    requires 0 <= i < |ss| && Nodes(ss[i]) <= Nodes(q)
    ensures Forest(ss[i := q]) == Forest(ss) + Nodes(q)
  {
    var ss' := ss[i := q];
    forall n | n in Forest(ss')
      ensures n in Forest(ss) + Nodes(q)
    {
      var j :| 0 <= j < |ss'| && n in Nodes(ss'[j]);
      if j != i {
        assert ss'[j] == ss[j];
      }
    }
    forall n | n in Forest(ss) + Nodes(q)
      ensures n in Forest(ss')
    {
      if n in Forest(ss) {
        var j :| 0 <= j < |ss| && n in Nodes(ss[j]);
        if j != i {
          assert ss'[j] == ss[j];
        } else {
          assert n in Nodes(ss'[i]);
        }
      } else {
        assert n in Nodes(ss'[i]);
      }
    }
  }

  /** A subtree with no node in common with a tree can be added as the
      tree's last child, and the result is still a tree. */
  lemma DistinctAppend(p: Shape, t: Shape)
    requires Distinct(p) && Distinct(t) && Nodes(p) !! Nodes(t)
    ensures Distinct(Shape(p.node, p.kids + [t]))
    ensures Nodes(Shape(p.node, p.kids + [t])) == Nodes(p) + Nodes(t)
  {
    var kids := p.kids + [t];
    ForestAppend(p.kids, t);
    forall i, j | 0 <= i < j < |kids|
      ensures Separate(kids, i, j)
    {
      assert kids[i] == p.kids[i];
      if j < |p.kids| {
        assert kids[j] == p.kids[j];
        assert Separate(p.kids, i, j);
      }
    }
    forall i | 0 <= i < |kids|
      ensures Distinct(kids[i])
    {
      if i < |p.kids| {
        assert kids[i] == p.kids[i];
      }
    }
  }

  /** A child may be replaced by a larger tree rooted at the same node, as
      long as the added nodes are new to the whole tree. */
  lemma DistinctReplace(r: Node, ss: seq<Shape>, i: int, q: Shape)
    requires Distinct(Shape(r, ss)) && 0 <= i < |ss|
    requires Distinct(q) && q.node == ss[i].node && Nodes(ss[i]) <= Nodes(q)
    requires (Nodes(q) - Nodes(ss[i])) !! Nodes(Shape(r, ss))
    ensures Distinct(Shape(r, ss[i := q]))
    ensures Nodes(Shape(r, ss[i := q])) == Nodes(Shape(r, ss)) + Nodes(q)
  {
    var ss' := ss[i := q];
    ForestReplace(ss, i, q);
    forall j, k | 0 <= j < k < |ss'|
      ensures Separate(ss', j, k)
    {
      assert Separate(ss, j, k);
      assert Nodes(ss[j]) <= Forest(ss) && Nodes(ss[k]) <= Forest(ss);
    }
    forall j | 0 <= j < |ss'|
      ensures Distinct(ss'[j])
    {
      if j != i {
        assert ss'[j] == ss[j];
      }
    }
  }

  /** The layout of a list grown by one last child reads back as the list's
      value with that child's value appended. */
  lemma ToTreeAppend(p: Shape, t: Shape)
    requires p.node.isList
    ensures ToTree(Shape(p.node, p.kids + [t])) == List(ToTree(p).kids + [ToTree(t)])
  {
    var kids := p.kids + [t];
    var lhs := ToTree(Shape(p.node, kids)).kids;
    var rhs := ToTree(p).kids + [ToTree(t)];
    assert |lhs| == |rhs|;
    forall i | 0 <= i < |lhs|
      ensures lhs[i] == rhs[i]
    {
      if i < |p.kids| {
        assert kids[i] == p.kids[i];
      }
    }
  }

  /** Child i of a sibling sequence shares no node with its siblings: its
      root is none of theirs, and no node below it is one of theirs. */
  ghost predicate Apart(ss: seq<Shape>, i: int)
  {
    && 0 <= i < |ss|
    && ss[i].node !in Forest(ss[i].kids)
    && forall j :: 0 <= j < |ss| && j != i ==>
         && ss[j].node != ss[i].node
         && ss[j].node !in Forest(ss[i].kids)
         && ss[i].node !in Forest(ss[j].kids)
         && Forest(ss[j].kids) !! Forest(ss[i].kids)
  }

  /** In a tree every child is apart from its siblings. */
  lemma DistinctApart(s: Shape, i: int)
    requires Distinct(s) && 0 <= i < |s.kids|
    ensures Apart(s.kids, i)
  {
    forall j | 0 <= j < |s.kids| && j != i
      ensures && s.kids[j].node != s.kids[i].node
              && s.kids[j].node !in Forest(s.kids[i].kids)
              && s.kids[i].node !in Forest(s.kids[j].kids)
              && Forest(s.kids[j].kids) !! Forest(s.kids[i].kids)
    {
      if j < i {
        assert Separate(s.kids, j, i);
      } else {
        assert Separate(s.kids, i, j);
      }
    }
  }

  /** Pointing the last child's `next` at a detached subtree makes that
      subtree the list's new last child; nothing else in the list moves. */
  lemma {:induction false} LayoutAppend(p: Shape, t: Shape, nx: map<Node, Node?>)
    requires p.node.isList && p.kids != [] && Layout(p, nx) && Apart(p.kids, |p.kids| - 1)
    requires Layout(t, nx) && t.node in nx && nx[t.node] == null
    requires t.node != p.kids[|p.kids| - 1].node && p.kids[|p.kids| - 1].node !in Forest(t.kids)
    ensures Layout(Shape(p.node, p.kids + [t]), nx[p.kids[|p.kids| - 1].node := t.node])
  {
    var n := |p.kids|;
    var last := p.kids[n - 1].node;
    var nx' := nx[last := t.node];
    var kids := p.kids + [t];
    assert ChainIn(nx', p.node.list, kids, null);
    forall i | 0 <= i < |kids|
      ensures Layout(kids[i], nx')
    {
      if i < n {
        assert kids[i] == p.kids[i];
        LayoutAgree(kids[i], nx, nx');
      } else {
        LayoutAgree(t, nx, nx');
      }
    }
  }

  /** The root keeps its layout when one child is replaced by a layout
      rooted at the same node and only nodes below that child change their
      `next` fields. */
  lemma LayoutReplace(r: Node, ss: seq<Shape>, i: int, q: Shape, nx: map<Node, Node?>, nx': map<Node, Node?>)
    requires Layout(Shape(r, ss), nx) && Apart(ss, i)
    requires q.node == ss[i].node && Layout(q, nx')
    requires forall n :: n in nx && n !in Forest(ss[i].kids) ==> n in nx' && nx'[n] == nx[n]
    ensures Layout(Shape(r, ss[i := q]), nx')
  {
    var ss' := ss[i := q];
    forall j | 0 <= j < |ss'|
      ensures Layout(ss'[j], nx')
    {
      if j != i {
        assert ss'[j] == ss[j];
        LayoutAgree(ss[j], nx, nx');
      }
    }
    if r.isList {
      assert ChainIn(nx', r.list, ss', null);
    }
  }

  /** The heap write of add_pkg_delays (main.c line 166): the `next` field of
      the last child of `parent` is set to `prop`, which makes the subtree
      `t` rooted at `prop` the new last child. */
  method AppendLast(parent: Node, prop: Node, ghost p: Shape, ghost t: Shape, ghost nx: map<Node, Node?>)
    returns (ghost p': Shape, ghost nx': map<Node, Node?>)
    requires p.node == parent && parent.isList && p.kids != []
    requires Holds(nx) && Layout(p, nx) && Distinct(p)
    requires t.node == prop && Layout(t, nx) && Nodes(p) !! Nodes(t) && prop in nx && nx[prop] == null
    modifies p.kids[|p.kids| - 1].node
    ensures p' == Shape(parent, p.kids + [t])
    ensures nx' == nx[p.kids[|p.kids| - 1].node := prop]
    ensures Holds(nx') && Layout(p', nx')
  {
    var last := SexpGetLast(parent.list, p.kids, nx);
    last.next := prop;
    p' := Shape(parent, p.kids + [t]);
    nx' := nx[last := prop];
    DistinctApart(p, |p.kids| - 1);
    InForest(p.kids);
    assert t.node in Nodes(t);
    LayoutAppend(p, t, nx);
  }
}
