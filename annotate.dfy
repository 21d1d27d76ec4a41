/** The footprint annotator of main.c (add_pkg_delays): for every direct
    child of a `(module ...)` root that is a `(pad <pin> ...)` list, look up
    the pin's equivalent length and, when it is not 0.0, append the property
    `(die_length <value>)` after the pad's last child, in place.

    `Annotate` and `Diags` state on plain `Tree` values what the pass does
    to the tree and which messages it writes; `AddPkgDelays` is the pass on
    the linked nodes and is proved to do exactly that. */
module Annotate {
  import opened Csv
  import opened Delay
  import opened Sexp

  const ModuleTag: seq<char> := "module"
  const PadTag: seq<char> := "pad"
  const DieLengthTag: seq<char> := "die_length"

  /** Size of the buffer the length is formatted into, NUL included. */
  const ValueBufferSize := 20

  /** A list whose first child is the atom `tag`. */
  predicate HeadedBy(t: Tree, tag: seq<char>)
  {
    t.List? && |t.kids| > 0 && t.kids[0] == Atom(tag)
  }

  /** Atom texts are C strings: none holds a NUL. */
  predicate NulFree(t: Tree)
    decreases t
  {
    match t
    case Atom(text) => '\0' !in text
    case List(kids) => forall i :: 0 <= i < |kids| ==> NulFree(kids[i])
  }

  /** What the pass needs of a child of the root: a list is not empty (its
      first child is read), and a pad has an atom as second child (its pin
      name) whose delay fields, if the pin is in the table, can be read. */
  predicate ChildReady(t: Tree, csv: seq<char>)
  {
    && (t.List? ==> |t.kids| > 0)
    && (HeadedBy(t, PadTag) ==> |t.kids| >= 2 && t.kids[1].Atom? && DelaysReadable(csv, t.kids[1].text))
  }

  /** What the pass needs of the whole tree: C-string atoms, a non-empty
      root list, and ready children under a module root. */
  predicate Ready(root: Tree, csv: seq<char>)
  {
    && NulFree(root)
    && (root.List? ==> |root.kids| > 0)
    && (HeadedBy(root, ModuleTag) ==> forall i :: 0 <= i < |root.kids| ==> ChildReady(root.kids[i], csv))
  }

  /** The pin name of a pad: its second child. */
  function Pin(t: Tree): seq<char>
    requires HeadedBy(t, PadTag) && |t.kids| >= 2 && t.kids[1].Atom?
  {
    t.kids[1].text
  }

  /** The text snprintf leaves in the 20-byte value buffer: the formatted
      length, cut to the 19 bytes that fit before the NUL. */
  function Printed(num: Numerics, length: real): (s: seq<char>)
    ensures |s| < ValueBufferSize && |s| <= |num.format(length)| && s == num.format(length)[..|s|]
    ensures |num.format(length)| < ValueBufferSize ==> s == num.format(length)
    ensures |num.format(length)| >= ValueBufferSize ==> |s| == ValueBufferSize - 1
  {
    var f := num.format(length);
    if |f| < ValueBufferSize then f else f[..ValueBufferSize - 1]
  }

  /** The property appended to a pad. */
  function DieLength(value: seq<char>): Tree
  {
    List([Atom(DieLengthTag), Atom(value)])
  }

  /** The equivalent length of a pad's pin. */
  function PadLength(t: Tree, csv: seq<char>, eps: real, num: Numerics): real
    requires HeadedBy(t, PadTag) && ChildReady(t, csv)
  {
    TraceLength(csv, Pin(t), eps, num)
  }

  /** A pad whose pin has a nonzero length. */
  predicate Grows(t: Tree, csv: seq<char>, eps: real, num: Numerics)
    requires ChildReady(t, csv)
  {
    HeadedBy(t, PadTag) && PadLength(t, csv, eps, num) != 0.0
  }

  /** One child of the root after the pass. */
  function AnnotateChild(t: Tree, csv: seq<char>, eps: real, num: Numerics): Tree
    requires ChildReady(t, csv)
  {
    if Grows(t, csv, eps, num) then List(t.kids + [DieLength(Printed(num, PadLength(t, csv, eps, num)))])
    else t
  }

  /** The tree after the pass, or None when the root is not a module. */
  function Annotate(root: Tree, csv: seq<char>, eps: real, num: Numerics): Option<Tree>
    requires Ready(root, csv)
  {
    if !HeadedBy(root, ModuleTag) then None
    else Some(List(seq(|root.kids|, i requires 0 <= i < |root.kids| => AnnotateChild(root.kids[i], csv, eps, num))))
  }

  /** The messages the pass writes for one child of the root: the lookup's
      warnings, then, outside quiet mode, the length of a pad that grows. */
  function ChildDiags(t: Tree, csv: seq<char>, eps: real, num: Numerics, quiet: bool): seq<Diag>
    requires ChildReady(t, csv)
  {
    if !HeadedBy(t, PadTag) then []
    else
      LookupWarnings(csv, Pin(t), num, quiet)
      + (if PadLength(t, csv, eps, num) != 0.0 && !quiet then [Length(Pin(t), PadLength(t, csv, eps, num))] else [])
  }

  /** The messages for the first n children, in order. */
  function KidsDiags(ts: seq<Tree>, n: nat, csv: seq<char>, eps: real, num: Numerics, quiet: bool): seq<Diag>
    requires n <= |ts| && forall i :: 0 <= i < |ts| ==> ChildReady(ts[i], csv)
  {
    if n == 0 then []
    else KidsDiags(ts, n - 1, csv, eps, num, quiet) + ChildDiags(ts[n - 1], csv, eps, num, quiet)
  }

  /** All messages of the pass. */
  function Diags(root: Tree, csv: seq<char>, eps: real, num: Numerics, quiet: bool): seq<Diag>
    requires Ready(root, csv)
  {
    if !HeadedBy(root, ModuleTag) then [NotFootprint]
    else KidsDiags(root.kids, |root.kids|, csv, eps, num, quiet)
  }

  /** A root that is not a list headed by the atom "module" is rejected
      with one message and no tree. */
  lemma RejectsNonModule(root: Tree, csv: seq<char>, eps: real, num: Numerics, quiet: bool)
    requires Ready(root, csv)
    ensures Annotate(root, csv, eps, num).None? <==> !HeadedBy(root, ModuleTag)
    ensures !HeadedBy(root, ModuleTag) ==> Diags(root, csv, eps, num, quiet) == [NotFootprint]
  {
  }

  /** The pass keeps the root's children in place: a child changes exactly
      when it is a pad with a nonzero length, and then it gains one last
      child `(die_length <value>)` after its unchanged children. Everything
      else, pads deeper in the tree included, is left as it was. */
  lemma OnlyGrowingPadsChange(root: Tree, csv: seq<char>, eps: real, num: Numerics)
    requires Ready(root, csv) && HeadedBy(root, ModuleTag)
    ensures var r := Annotate(root, csv, eps, num).value;
      && r.List? && |r.kids| == |root.kids| && r.kids[0] == root.kids[0]
      && forall i :: 0 <= i < |root.kids| ==>
           && (r.kids[i] != root.kids[i] <==> Grows(root.kids[i], csv, eps, num))
           && (r.kids[i] != root.kids[i] ==>
                 && r.kids[i].List?
                 && |r.kids[i].kids| == |root.kids[i].kids| + 1
                 && r.kids[i].kids[..|root.kids[i].kids|] == root.kids[i].kids
                 && r.kids[i].kids[|root.kids[i].kids|]
                    == DieLength(Printed(num, PadLength(root.kids[i], csv, eps, num))))
  {
    var r := Annotate(root, csv, eps, num).value;
    forall i | 0 <= i < |root.kids|
      ensures r.kids[i] != root.kids[i] <==> Grows(root.kids[i], csv, eps, num)
    {
      var t := root.kids[i];
      if Grows(t, csv, eps, num) {
        assert |r.kids[i].kids| == |t.kids| + 1;
      }
    }
    assert !HeadedBy(root.kids[0], PadTag);
  }

  /** A pad whose pin is in no row of the table is left as it was and draws
      the missing-entry message, quiet or not. */
  lemma UnknownPadUnchanged(t: Tree, csv: seq<char>, eps: real, num: Numerics, quiet: bool)
    requires ChildReady(t, csv) && HeadedBy(t, PadTag)
    requires forall l :: 0 <= l ==> !MatchesAt(csv, l, PinCol, Pin(t))
    ensures AnnotateChild(t, csv, eps, num) == t
    ensures ChildDiags(t, csv, eps, num, quiet) == [NoEntry(Pin(t))]
  {
    UnknownPinIsSkipped(csv, Pin(t), eps, num, quiet);
  }

  /** The messages that quiet mode still writes. */
  predicate Always(d: Diag)
  {
    d.NoEntry? || d.NotFootprint?
  }

  /** The messages of `ds` that are written in quiet mode, in order. */
  function QuietOnly(ds: seq<Diag>): (r: seq<Diag>)
    ensures |r| <= |ds|
    ensures forall i :: 0 <= i < |r| ==> Always(r[i])
  {
    if ds == [] then []
    else (if Always(ds[0]) then [ds[0]] else []) + QuietOnly(ds[1..])
  }

  lemma {:induction false} QuietOnlyAppend(a: seq<Diag>, b: seq<Diag>)
    ensures QuietOnly(a + b) == QuietOnly(a) + QuietOnly(b)
  {
    if a == [] {
      assert a + b == b;
    } else {
      assert (a + b)[1..] == a[1..] + b;
      QuietOnlyAppend(a[1..], b);
    }
  }

  /** For one child, quiet mode keeps exactly the messages that are always
      written. */
  lemma ChildQuiet(t: Tree, csv: seq<char>, eps: real, num: Numerics)
    requires ChildReady(t, csv)
    ensures ChildDiags(t, csv, eps, num, true) == QuietOnly(ChildDiags(t, csv, eps, num, false))
  {
    if HeadedBy(t, PadTag) {
      var w := LookupWarnings(csv, Pin(t), num, false);
      var tail: seq<Diag> := if PadLength(t, csv, eps, num) != 0.0 then [Length(Pin(t), PadLength(t, csv, eps, num))] else [];
      QuietOnlyAppend(w, tail);
      QuietDropsOnlyNoDelay(csv, Pin(t), num);
      assert QuietOnly(tail) == [];
      if w != [] {
        assert w == [w[0]];
        assert QuietOnly(w) == if Always(w[0]) then [w[0]] else [];
      }
    }
  }

  /** Quiet mode writes exactly the messages that are always written (a
      missing pin, a rejected root) and drops the others; it never changes
      the tree, which does not depend on it. */
  lemma {:induction false} QuietKeepsOnlyAlways(root: Tree, csv: seq<char>, eps: real, num: Numerics)
    requires Ready(root, csv)
    ensures Diags(root, csv, eps, num, true) == QuietOnly(Diags(root, csv, eps, num, false))
  {
    if HeadedBy(root, ModuleTag) {
      KidsQuiet(root.kids, |root.kids|, csv, eps, num);
    }
  }

  lemma {:induction false} KidsQuiet(ts: seq<Tree>, n: nat, csv: seq<char>, eps: real, num: Numerics)
    requires n <= |ts| && forall i :: 0 <= i < |ts| ==> ChildReady(ts[i], csv)
    ensures KidsDiags(ts, n, csv, eps, num, true) == QuietOnly(KidsDiags(ts, n, csv, eps, num, false))
  {
    if n > 0 {
      KidsQuiet(ts, n - 1, csv, eps, num);
      ChildQuiet(ts[n - 1], csv, eps, num);
      QuietOnlyAppend(KidsDiags(ts, n - 1, csv, eps, num, false), ChildDiags(ts[n - 1], csv, eps, num, false));
    }
  }

  /** Builds the detached property `(die_length <value>)` (main.c lines
      160-165): two atoms chained by `next` under a new list node. */
  method NewDieLength(value: seq<char>, ghost avoid: set<Node>)
    returns (prop: Node, ghost t: Shape, ghost nx: map<Node, Node?>)
    ensures t.node == prop && ToTree(t) == DieLength(value)
    ensures Distinct(t) && Layout(t, nx) && Holds(nx)
    ensures nx.Keys == Nodes(t) && nx[prop] == null
    ensures Nodes(t) !! avoid
    ensures forall n :: n in Nodes(t) ==> fresh(n)
  {
    var name := new Node.NewAtom(DieLengthTag);
    var val := new Node.NewAtom(value);
    val.next := null;
    name.next := val;
    prop := new Node.NewList(name);
    var kids := [Shape(name, []), Shape(val, [])];
    t := Shape(prop, kids);
    nx := map[prop := null, name := val, val := null];
    PairNodes(prop, name, val);
    PairLayout(prop, name, val, nx);
  }

  /** How the pass sees a child through the heap: a list child's `list`
      field is its first child, and the head test on the nodes (a list whose
      first node is an atom with text `tag`) is the head test on the value.
      For a pad, the `next` of its first child is the pin atom. */
  lemma EntryView(p: Shape, nx: map<Node, Node?>, tag: seq<char>)
    requires Layout(p, nx) && (ToTree(p).List? ==> |ToTree(p).kids| > 0)
    ensures p.node.isList ==> p.kids != [] && p.node.list == p.kids[0].node
    ensures HeadedBy(ToTree(p), tag) <==>
      p.node.isList && !p.kids[0].node.isList && p.kids[0].node.val == tag
    ensures HeadedBy(ToTree(p), tag) && |ToTree(p).kids| >= 2 && ToTree(p).kids[1].Atom? ==>
      nx[p.kids[0].node] == p.kids[1].node && p.kids[1].node.val == ToTree(p).kids[1].text
  {
    if p.node.isList {
      assert ToTree(p).kids[0] == ToTree(p.kids[0]);
      if |p.kids| >= 2 {
        assert ToTree(p).kids[1] == ToTree(p.kids[1]);
      }
    }
  }

  /** One pass over the children of the root ends in the value the
      specification gives, child by child. */
  lemma AnnotateFromChildren(root: Tree, csv: seq<char>, eps: real, num: Numerics, sx: Node, cur: seq<Shape>)
    requires Ready(root, csv) && HeadedBy(root, ModuleTag) && sx.isList && |cur| == |root.kids|
    requires forall j :: 0 <= j < |cur| ==> ToTree(cur[j]) == AnnotateChild(root.kids[j], csv, eps, num)
    ensures Annotate(root, csv, eps, num) == Some(ToTree(Shape(sx, cur)))
  {
    var a := Annotate(root, csv, eps, num).value;
    var b := ToTree(Shape(sx, cur));
    assert |a.kids| == |b.kids|;
    forall j | 0 <= j < |a.kids|
      ensures a.kids[j] == b.kids[j]
    {
      assert a.kids[j] == AnnotateChild(root.kids[j], csv, eps, num);
      assert b.kids[j] == ToTree(cur[j]);
    }
    assert a.kids == b.kids;
  }

  /** A detached subtree with its own `next` map sits beside a tree: the
      union of the two maps holds both layouts and the heap. */
  lemma JoinLayouts(p: Shape, t: Shape, nx: map<Node, Node?>, nxp: map<Node, Node?>)
    requires Layout(p, nx) && Nodes(p) <= nx.Keys && Holds(nx)
    requires Layout(t, nxp) && nxp.Keys == Nodes(t) && Holds(nxp) && nx.Keys !! nxp.Keys
    ensures Layout(p, nx + nxp) && Layout(t, nx + nxp) && Holds(nx + nxp) && Nodes(p) !! Nodes(t)
  {
    LayoutAgree(p, nx, nx + nxp);
    LayoutAgree(t, nxp, nx + nxp);
  }

  /** After the append, the pad is the old pad with `t` as its new last
      child: its value gains `ToTree(t)`, it is still a tree, and only the
      old last child's `next` moved. */
  lemma AfterAppend(p: Shape, t: Shape, nx: map<Node, Node?>, nxp: map<Node, Node?>, nx': map<Node, Node?>)
    requires p.node.isList && p.kids != [] && Distinct(p) && Distinct(t) && Nodes(p) !! Nodes(t)
    requires Nodes(p) <= nx.Keys && nxp.Keys == Nodes(t) && nx.Keys !! nxp.Keys
    requires nx' == (nx + nxp)[p.kids[|p.kids| - 1].node := t.node]
    ensures ToTree(Shape(p.node, p.kids + [t])) == List(ToTree(p).kids + [ToTree(t)])
    ensures Distinct(Shape(p.node, p.kids + [t]))
    ensures Nodes(Shape(p.node, p.kids + [t])) == Nodes(p) + Nodes(t)
    ensures nx'.Keys == nx.Keys + Nodes(Shape(p.node, p.kids + [t]))
    ensures forall n :: n in nx && n !in Forest(p.kids) ==> nx'[n] == nx[n]
  {
    InForest(p.kids);
    assert p.kids[|p.kids| - 1].node in nx;
    DistinctAppend(p, t);
    ToTreeAppend(p, t);
  }

  /** Lines 160-166 of main.c for one pad: build `(die_length <value>)`
      from new nodes and link it after the pad's last child. The pad's value
      gains that property as its last child, and no `next` field outside
      the pad's children changes. */
  method AddProperty(entry: Node, value: seq<char>, ghost p: Shape, ghost nx: map<Node, Node?>, ghost avoid: set<Node>)
    returns (ghost p': Shape, ghost nx': map<Node, Node?>)
    requires p.node == entry && entry.isList && p.kids != []
    requires Holds(nx) && Layout(p, nx) && Distinct(p) && Nodes(p) <= nx.Keys
    modifies p.kids[|p.kids| - 1].node
    ensures p'.node == entry && ToTree(p') == List(ToTree(p).kids + [DieLength(value)])
    ensures Holds(nx') && Layout(p', nx') && Distinct(p')
    ensures Nodes(p) <= Nodes(p') && nx'.Keys == nx.Keys + Nodes(p')
    ensures (Nodes(p') - Nodes(p)) !! avoid
    ensures forall n :: n in Nodes(p') - Nodes(p) ==> fresh(n)
    ensures forall n :: n in nx' ==> n in nx || fresh(n)
    ensures forall n :: n in nx && n !in Forest(p.kids) ==> nx'[n] == nx[n]
  {
    var prop, t, nxp := NewDieLength(value, nx.Keys + avoid);
    JoinLayouts(p, t, nx, nxp);
    p', nx' := AppendLast(entry, prop, p, t, nx + nxp);
    AfterAppend(p, t, nx, nxp, nx');
  }

  /** What the pass may use about child i of a module root: it is ready,
      and a pad's pin name is a C string. */
  lemma ChildOfModule(root: Tree, i: int, csv: seq<char>)
    requires Ready(root, csv) && HeadedBy(root, ModuleTag) && 0 <= i < |root.kids|
    ensures ChildReady(root.kids[i], csv)
    ensures HeadedBy(root.kids[i], PadTag) ==> '\0' !in Pin(root.kids[i])
  {
    assert NulFree(root.kids[i]);
    if HeadedBy(root.kids[i], PadTag) {
      assert NulFree(root.kids[i].kids[1]);
    }
  }

  /** A child that is not a pad is left as it is and draws no message. */
  lemma NotPadStep(t: Tree, csv: seq<char>, eps: real, num: Numerics, quiet: bool)
    requires ChildReady(t, csv) && !HeadedBy(t, PadTag)
    ensures AnnotateChild(t, csv, eps, num) == t
    ensures ChildDiags(t, csv, eps, num, quiet) == []
  {
  }

  /** Child i of the root may be replaced by a layout of the same node that
      changes only `next` fields below that child and adds only new nodes:
      the root keeps its layout and stays a tree. */
  lemma ReplaceChild(sx: Node, cur: seq<Shape>, i: int, q: Shape, nx: map<Node, Node?>, nx': map<Node, Node?>)
    requires 0 <= i < |cur| && Layout(Shape(sx, cur), nx) && Distinct(Shape(sx, cur)) && Forest(cur) <= nx.Keys
    requires q.node == cur[i].node && Layout(q, nx') && Distinct(q) && Nodes(cur[i]) <= Nodes(q)
    requires (Nodes(q) - Nodes(cur[i])) !! Nodes(Shape(sx, cur))
    requires nx'.Keys == nx.Keys + Nodes(q)
    requires forall n :: n in nx && n !in Forest(cur[i].kids) ==> nx'[n] == nx[n]
    ensures Layout(Shape(sx, cur[i := q]), nx') && Distinct(Shape(sx, cur[i := q]))
    ensures Forest(cur[i := q]) <= nx'.Keys
    ensures Nodes(Shape(sx, cur[i := q])) == Nodes(Shape(sx, cur)) + Nodes(q)
  {
    DistinctApart(Shape(sx, cur), i);
    LayoutReplace(sx, cur, i, q, nx, nx');
    DistinctReplace(sx, cur, i, q);
    ForestReplace(cur, i, q);
  }

  /** One turn of add_pkg_delays' loop (main.c lines 147-166): a child
      that is not a pad is skipped; a pad's pin is looked up, and a nonzero
      length is reported (outside quiet mode) and appended as a property.
      The child `p` becomes `p'`, whose value is the child after the pass;
      `w` are the messages written for it. */
  method VisitChild(entry: Node, ghost p: Shape, ghost t: Tree, csv: seq<char>, eps: real, num: Numerics, quiet: bool,
                    ghost nx: map<Node, Node?>, ghost avoid: set<Node>)
    returns (w: seq<Diag>, ghost p': Shape, ghost nx': map<Node, Node?>)
    requires Terminated(csv) && ToTree(p) == t && ChildReady(t, csv)
    requires HeadedBy(t, PadTag) ==> '\0' !in Pin(t)
    requires p.node == entry && Holds(nx) && Layout(p, nx) && Distinct(p) && Nodes(p) <= nx.Keys
    modifies Forest(p.kids)
    ensures w == ChildDiags(t, csv, eps, num, quiet)
    ensures p'.node == entry && ToTree(p') == AnnotateChild(t, csv, eps, num)
    ensures Holds(nx') && Layout(p', nx') && Distinct(p')
    ensures Nodes(p) <= Nodes(p') && nx'.Keys == nx.Keys + Nodes(p')
    ensures (Nodes(p') - Nodes(p)) !! avoid
    ensures forall n :: n in Nodes(p') - Nodes(p) ==> fresh(n)
    ensures forall n :: n in nx' ==> n in nx || fresh(n)
    ensures forall n :: n in nx && n !in Forest(p.kids) ==> nx'[n] == nx[n]
    ensures entry in nx && nx'[entry] == nx[entry]
  {
    p', nx' := p, nx;
    EntryView(p, nx, PadTag);
    if !entry.isList || entry.list.isList || entry.list.val != PadTag {
      NotPadStep(t, csv, eps, num, quiet);
      return [], p', nx';
    }
    var pin := entry.list.next.val;
    assert pin == Pin(t);
    var length;
    length, w := GetEquivTraceLength(csv, pin, eps, num, quiet);
    assert length == PadLength(t, csv, eps, num);
    if length == 0.0 {
      return w, p', nx';
    }
    if !quiet {
      w := w + [Length(pin, length)];
    }
    InForest(p.kids);
    p', nx' := AddProperty(entry, Printed(num, length), p, nx, avoid);
  }

  /** One turn of the loop seen from the root: child i of `sx`, whose
      value is `t`, is visited, and the root's children `cur` become
      `cur'`, which differ from `cur` only at i. The root stays a tree in
      the heap, keeps all its nodes, and gains only new ones. */
  method VisitAt(entry: Node, sx: Node, ghost cur: seq<Shape>, ghost i: int, ghost t: Tree, csv: seq<char>, eps: real,
                 num: Numerics, quiet: bool, ghost nx: map<Node, Node?>)
    returns (w: seq<Diag>, ghost cur': seq<Shape>, ghost nx': map<Node, Node?>)
    requires sx.isList && 0 <= i < |cur| && entry == cur[i].node
    requires Terminated(csv) && ToTree(cur[i]) == t && ChildReady(t, csv)
    requires HeadedBy(t, PadTag) ==> '\0' !in Pin(t)
    requires Holds(nx) && Layout(Shape(sx, cur), nx) && Forest(cur) <= nx.Keys && Distinct(Shape(sx, cur))
    modifies Forest(cur[i].kids)
    ensures w == ChildDiags(t, csv, eps, num, quiet)
    ensures |cur'| == |cur| && cur' == cur[i := cur'[i]] && ToTree(cur'[i]) == AnnotateChild(t, csv, eps, num)
    ensures Holds(nx') && Layout(Shape(sx, cur'), nx') && Forest(cur') <= nx'.Keys && Distinct(Shape(sx, cur'))
    ensures Nodes(Shape(sx, cur)) <= Nodes(Shape(sx, cur'))
    ensures forall n :: n in nx' ==> n in nx || fresh(n)
    ensures entry in nx && entry in nx' && nx'[entry] == nx[entry]
  {
    ChildNodes(cur, i);
    ghost var p';
    w, p', nx' := VisitChild(entry, cur[i], t, csv, eps, num, quiet, nx, Nodes(Shape(sx, cur)));
    ReplaceChild(sx, cur, i, p', nx, nx');
    cur' := cur[i := p'];
  }

  /** After child i has been visited and become `q`, children up to i
      hold their values after the pass and later children are untouched. */
  lemma AdvanceTrees(kids: seq<Shape>, trees: seq<Tree>, cur: seq<Shape>, i: int, q: Shape,
                     csv: seq<char>, eps: real, num: Numerics)
    requires 0 <= i < |kids| && |kids| == |trees| == |cur|
    requires forall j :: 0 <= j < |trees| ==> ChildReady(trees[j], csv)
    requires forall j :: i < j < |kids| ==> cur[j] == kids[j]
    requires forall j :: 0 <= j < i ==> ToTree(cur[j]) == AnnotateChild(trees[j], csv, eps, num)
    requires ToTree(q) == AnnotateChild(trees[i], csv, eps, num)
    ensures forall j :: 0 <= j <= i ==> ToTree(cur[i := q][j]) == AnnotateChild(trees[j], csv, eps, num)
    ensures forall j :: i < j < |kids| ==> cur[i := q][j] == kids[j]
  {
    forall j | 0 <= j <= i
      ensures ToTree(cur[i := q][j]) == AnnotateChild(trees[j], csv, eps, num)
    {
      if j < i {
        assert cur[i := q][j] == cur[j];
      }
    }
  }

  /** The loop of add_pkg_delays (main.c lines 146-167) over the root's
      children `kids`, whose values are `trees`: each child is visited in
      turn along the `next` links, starting at the root's `list`. */
  method AnnotateKids(sx: Node, ghost kids: seq<Shape>, ghost trees: seq<Tree>, csv: seq<char>, eps: real,
                      num: Numerics, quiet: bool, ghost nx0: map<Node, Node?>)
    returns (diags: seq<Diag>, ghost cur: seq<Shape>, ghost nx: map<Node, Node?>)
    requires sx.isList && |kids| == |trees| && Terminated(csv)
    requires Holds(nx0) && Layout(Shape(sx, kids), nx0) && Forest(kids) <= nx0.Keys && Distinct(Shape(sx, kids))
    requires forall j :: 0 <= j < |kids| ==> ToTree(kids[j]) == trees[j]
    requires forall j :: 0 <= j < |trees| ==>
      ChildReady(trees[j], csv) && (HeadedBy(trees[j], PadTag) ==> '\0' !in Pin(trees[j]))
    modifies Forest(kids)
    ensures diags == KidsDiags(trees, |trees|, csv, eps, num, quiet)
    ensures |cur| == |kids| && forall j :: 0 <= j < |cur| ==> ToTree(cur[j]) == AnnotateChild(trees[j], csv, eps, num)
    ensures Holds(nx) && Layout(Shape(sx, cur), nx) && Forest(cur) <= nx.Keys && Distinct(Shape(sx, cur))
    ensures Nodes(Shape(sx, kids)) <= Nodes(Shape(sx, cur))
    ensures forall n :: n in nx ==> n in nx0 || fresh(n)
  {
    var entry: Node? := sx.list;
    ghost var i := 0;
    cur, nx := kids, nx0;
    diags := [];
    while entry != null
      invariant 0 <= i <= |kids| && |cur| == |kids|
      invariant entry == if i < |kids| then kids[i].node else null
      invariant forall j :: i <= j < |kids| ==> cur[j] == kids[j]
      invariant forall j :: 0 <= j < i ==> ToTree(cur[j]) == AnnotateChild(trees[j], csv, eps, num)
      invariant Holds(nx) && Layout(Shape(sx, cur), nx) && Forest(cur) <= nx.Keys
      invariant Distinct(Shape(sx, cur))
      invariant Nodes(Shape(sx, kids)) <= Nodes(Shape(sx, cur))
      invariant forall n :: n in nx ==> n in nx0 || fresh(n)
      invariant diags == KidsDiags(trees, i, csv, eps, num, quiet)
      decreases |kids| - i
    {
      ChildNodes(kids, i);
      NextInChain(Shape(sx, cur), i, nx);
      var w, cur', nx' := VisitAt(entry, sx, cur, i, trees[i], csv, eps, num, quiet, nx);
      AdvanceTrees(kids, trees, cur, i, cur'[i], csv, eps, num);
      assert KidsDiags(trees, i + 1, csv, eps, num, quiet) == diags + w;
      diags := diags + w;
      cur := cur';
      nx := nx';
      entry := entry.next;
      i := i + 1;
    }
  }

  /** add_pkg_delays: a root that is not `(module ...)` is rejected with
      -1; otherwise every pad child with a nonzero length gains its
      `(die_length <value>)` property. The tree is `shape` in the heap
      before and `result` after, and the messages are `diags`. */
  method AddPkgDelays(sx: Node, ghost shape: Shape, csv: seq<char>, eps: real, num: Numerics, quiet: bool)
    returns (r: int, diags: seq<Diag>, ghost result: Shape)
    requires shape.node == sx && Linked(shape) && Distinct(shape)
    requires Terminated(csv) && Ready(ToTree(shape), csv)
    modifies Forest(shape.kids)
    ensures diags == Diags(ToTree(shape), csv, eps, num, quiet)
    ensures r == (if HeadedBy(ToTree(shape), ModuleTag) then 0 else -1)
    ensures r == 0 ==> Annotate(ToTree(shape), csv, eps, num) == Some(ToTree(result))
    ensures r != 0 ==> result == shape && Holds(old(NextOf(Forest(shape.kids))))
    ensures result.node == sx && Linked(result) && Distinct(result)
    ensures Nodes(shape) <= Nodes(result)
    ensures forall n :: n in Nodes(result) - Nodes(shape) ==> fresh(n)
  {
    ghost var root := ToTree(shape);
    ghost var nx := NextOf(Forest(shape.kids));
    EntryView(shape, nx, ModuleTag);
    if !sx.isList || sx.list.isList || sx.list.val != ModuleTag {
      return -1, [NotFootprint], shape;
    }
    forall j | 0 <= j < |root.kids|
      ensures ToTree(shape.kids[j]) == root.kids[j]
      ensures ChildReady(root.kids[j], csv)
      ensures HeadedBy(root.kids[j], PadTag) ==> '\0' !in Pin(root.kids[j])
    {
      ChildOfModule(root, j, csv);
    }
    ghost var cur;
    diags, cur, nx := AnnotateKids(sx, shape.kids, root.kids, csv, eps, num, quiet, nx);
    result := Shape(sx, cur);
    LinkedFromHolds(result, nx);
    AnnotateFromChildren(root, csv, eps, num, sx, cur);
    r := 0;
  }
}
