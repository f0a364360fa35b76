/** How a tree lies in the pool of JSON nodes: in preorder, each container linked to its first and
    last child and each node to its next sibling. While a container is open its sibling link holds
    its parent instead. */
module JsonPool {
  import opened Bits
  import opened Wrappers
  import opened JsonTree

  const NIL := -1

  /** The union of json_t: a leaf uses the first word as its text, a container both words as links. */
  datatype Payload = Value(pos: nat) | Kids(child: int, last: int)

  datatype Node = Node(sibling: int, name: int, u: Payload, kind: Kind)

  function NamePos(name: Option<Str>): int { if name.Some? then name.value.pos else NIL }

  // ---------------------------------------------------------------- finished trees

  function Layout(t: Tree, base: nat, sibling: int): (ns: seq<Node>)
    ensures |ns| == Size(t) && ns[0].sibling == sibling
    decreases t, 0
  {
    match t
    case Leaf(name, kind, value) => [Node(sibling, NamePos(name), Value(value.pos), kind)]
    case Branch(name, kind, kids) =>
      [Node(sibling, NamePos(name), Links(kids, base + 1, false), kind)] + LayoutAll(kids, base + 1, NIL)
  }

  /** Siblings side by side; `after` is the sibling of the last one. */
  function LayoutAll(ts: seq<Tree>, base: nat, after: int): (ns: seq<Node>)
    ensures |ns| == SizeAll(ts)
    decreases ts, |ts|
  {
    if ts == [] then []
    else
      var n := |ts| - 1;
      var here := base + SizeAll(ts[..n]);
      LayoutAll(ts[..n], base, here) + Layout(ts[n], here, after)
  }

  /** The index of the last of the siblings that start at `base`. */
  function LastIndex(ts: seq<Tree>, base: nat): nat
    requires ts != []
  {
    base + SizeAll(ts[..|ts| - 1])
  }

  /** The links of a container with the given finished children, and one more child still open if `open`. */
  function Links(kids: seq<Tree>, first: nat, open: bool): Payload {
    if open then Kids(first, first + SizeAll(kids))
    else if kids == [] then Kids(NIL, NIL)
    else Kids(first, LastIndex(kids, first))
  }

  lemma LayoutSibling(t: Tree, base: nat, a: int, b: int)
    ensures Layout(t, base, b) == Layout(t, base, a)[0 := Layout(t, base, a)[0].(sibling := b)]
  {
  }

  lemma LayoutAllAfter(ts: seq<Tree>, base: nat, a: int, b: int)
    requires ts != []
    ensures var k := LastIndex(ts, 0);
      k < SizeAll(ts) &&
      LayoutAll(ts, base, b) == LayoutAll(ts, base, a)[k := LayoutAll(ts, base, a)[k].(sibling := b)]
  {
    hide Layout;
    var n := |ts| - 1;
    var here := base + SizeAll(ts[..n]);
    LayoutSibling(ts[n], here, a, b);
    assert LayoutAll(ts, base, a) == LayoutAll(ts[..n], base, here) + Layout(ts[n], here, a);
    assert LayoutAll(ts, base, b) == LayoutAll(ts[..n], base, here) + Layout(ts[n], here, b);
  }

  lemma LayoutAllPush(ts: seq<Tree>, t: Tree, base: nat, after: int)
    ensures LayoutAll(ts + [t], base, after) ==
      LayoutAll(ts, base, base + SizeAll(ts)) + Layout(t, base + SizeAll(ts), after)
  {
    hide Layout;
    assert (ts + [t])[..|ts|] == ts;
  }

  /** Following the links: the children of a container are found one after the other by their sibling
      links, the last of them ends the chain, and each starts its own subtree. */
  lemma {:induction false} SiblingAt(ts: seq<Tree>, base: nat, after: int, k: nat)
    requires k < |ts|
    ensures var at := SizeAll(ts[..k]);
      && at + Size(ts[k]) <= SizeAll(ts)
      && LayoutAll(ts, base, after)[at].sibling == (if k + 1 < |ts| then base + at + Size(ts[k]) else after)
      && LayoutAll(ts, base, after)[at..at + Size(ts[k])] ==
         Layout(ts[k], base + at, if k + 1 < |ts| then base + at + Size(ts[k]) else after)
    decreases |ts|
  {
    hide Layout, LayoutAll, Size, SizeAll;
    var n := |ts| - 1;
    var here := base + SizeAll(ts[..n]);
    var rest, last := LayoutAll(ts[..n], base, here), Layout(ts[n], here, after);
    LayoutAllSplit(ts, base, after);
    if k < n {
      SiblingAt(ts[..n], base, here, k);
      assert ts[..n][..k] == ts[..k];
      SliceOfConcat(rest, last, SizeAll(ts[..k]), Size(ts[k]));
      if k + 1 == n { assert ts[..n] == ts[..k] + [ts[k]]; SizeAllPush(ts[..k], ts[k]); }
    } else {
      TailOfConcat(rest, last);
    }
  }

  lemma LayoutAllSplit(ts: seq<Tree>, base: nat, after: int)
    requires ts != []
    ensures var n := |ts| - 1;
      && SizeAll(ts) == SizeAll(ts[..n]) + Size(ts[n])
      && LayoutAll(ts, base, after) ==
         LayoutAll(ts[..n], base, base + SizeAll(ts[..n])) + Layout(ts[n], base + SizeAll(ts[..n]), after)
  {
    hide Layout, Size;
  }

  lemma TailOfConcat<T>(a: seq<T>, b: seq<T>)
    ensures (a + b)[|a|..|a| + |b|] == b
  {
  }

  lemma SliceOfConcat<T>(a: seq<T>, b: seq<T>, at: nat, len: nat)
    requires at + len <= |a|
    ensures (a + b)[at..at + len] == a[at..at + len]
  {
  }

  /** A finished tree is acyclic: every link but NIL leads forward, and stays in the tree. */
  predicate Forward(ns: seq<Node>, base: nat, end: int) {
    forall i :: 0 <= i < |ns| ==>
      && (ns[i].sibling == NIL || base + i < ns[i].sibling <= end)
      && (ns[i].u.Kids? && ns[i].u.child != NIL ==>
           ns[i].u.child == base + i + 1 && base + i < ns[i].u.last < base + |ns|)
  }

  lemma {:induction false} LayoutForward(t: Tree, base: nat, sibling: int)
    requires sibling == NIL || sibling >= base + Size(t)
    ensures Forward(Layout(t, base, sibling), base, if sibling == NIL then base + Size(t) else sibling)
    decreases t, 0
  {
    if t.Branch? {
      LayoutAllForward(t.kids, base + 1, NIL);
      var ns, inner := Layout(t, base, sibling), LayoutAll(t.kids, base + 1, NIL);
      forall i | 0 < i < |ns| ensures ns[i] == inner[i - 1] {}
      if t.kids != [] { SizeAllPush(t.kids[..|t.kids| - 1], t.kids[|t.kids| - 1]); }
    }
  }

  lemma {:induction false} LayoutAllForward(ts: seq<Tree>, base: nat, after: int)
    requires after == NIL || after >= base + SizeAll(ts)
    ensures Forward(LayoutAll(ts, base, after), base, if after == NIL then base + SizeAll(ts) else after)
    decreases ts, |ts|
  {
    if ts != [] {
      var n := |ts| - 1;
      var here := base + SizeAll(ts[..n]);
      LayoutAllForward(ts[..n], base, here);
      LayoutForward(ts[n], here, after);
      var a, b := LayoutAll(ts[..n], base, here), Layout(ts[n], here, after);
      var ns := LayoutAll(ts, base, after);
      forall i | 0 <= i < |ns| ensures ns[i] == if i < |a| then a[i] else b[i - |a|] {}
    }
  }

  // ---------------------------------------------------------------- unfinished trees

  function TopIndex(fs: seq<Frame>): nat
    requires fs != []
  {
    StackSize(Below(fs))
  }

  function ParentIndex(fs: seq<Frame>): int
    requires fs != []
  {
    if |fs| == 1 then NIL else TopIndex(Below(fs))
  }

  /** An open container and its finished children; `open` if one more child is open in it. */
  function FramePart(f: Frame, index: nat, parent: int, open: bool): (ns: seq<Node>)
    ensures |ns| == 1 + SizeAll(f.kids)
  {
    [Node(parent, NamePos(f.name), Links(f.kids, index + 1, open), f.kind)] +
    LayoutAll(f.kids, index + 1, if open then index + 1 + SizeAll(f.kids) else NIL)
  }

  /** The whole pool while the containers `fs` are open. */
  function StackLayout(fs: seq<Frame>, open: bool): (ns: seq<Node>)
    ensures |ns| == StackSize(fs)
  {
    if fs == [] then []
    else StackLayout(Below(fs), true) + FramePart(Top(fs), TopIndex(fs), ParentIndex(fs), open)
  }

  /** What the pool says about the innermost open container. */
  lemma TopNode(fs: seq<Frame>)
    requires fs != []
    ensures TopIndex(fs) < StackSize(fs)
    ensures StackLayout(fs, false)[TopIndex(fs)] ==
      Node(ParentIndex(fs), NamePos(Top(fs).name), Links(Top(fs).kids, TopIndex(fs) + 1, false), Top(fs).kind)
  {
  }

  /** Two updates behind a prefix. */
  lemma UpdateBehind<T>(a: seq<T>, b: seq<T>, k: nat, x: T, y: T)
    requires k < |b|
    ensures (a + b)[|a| + k] == b[k] && (a + b)[|a|] == b[0]
    ensures (a + b)[|a| + k := x][|a| := y] == a + b[k := x][0 := y]
  {
  }

  lemma FrameLinkFirst(f: Frame, index: nat, parent: int)
    requires f.kids == []
    ensures var p := FramePart(f, index, parent, false);
      FramePart(f, index, parent, true) == p[0 := p[0].(u := Kids(index + 1, index + 1))]
  {
    LayoutAllEmpty(index + 1, NIL, index + 1);
  }

  lemma FrameLinkNext(f: Frame, index: nat, parent: int)
    requires f.kids != []
    ensures LastIndex(f.kids, 0) < SizeAll(f.kids)
    ensures var p, n, k := FramePart(f, index, parent, false), index + 1 + SizeAll(f.kids), 1 + LastIndex(f.kids, 0);
      FramePart(f, index, parent, true) == p[k := p[k].(sibling := n)][0 := p[0].(u := Kids(index + 1, n))]
  {
    hide LayoutAll;
    LayoutAllAfter(f.kids, index + 1, NIL, index + 1 + SizeAll(f.kids));
  }

  lemma LayoutAllEmpty(base: nat, a: int, b: int)
    ensures LayoutAll([], base, a) == LayoutAll([], base, b) == []
  {
  }

  lemma TopPart(fs: seq<Frame>, open: bool)
    requires fs != []
    ensures StackSize(fs) == TopIndex(fs) + 1 + SizeAll(Top(fs).kids)
    ensures StackLayout(fs, open) ==
      StackLayout(Below(fs), true) + FramePart(Top(fs), TopIndex(fs), ParentIndex(fs), open)
  {
  }

  /** `add` on an empty container: its first child. */
  lemma LinkFirst(fs: seq<Frame>)
    requires fs != [] && Top(fs).kids == []
    ensures TopIndex(fs) + 1 == StackSize(fs)
    ensures var p, top, n := StackLayout(fs, false), TopIndex(fs), StackSize(fs);
      StackLayout(fs, true) == p[top := p[top].(u := Kids(n, n))]
  {
    hide FramePart, StackLayout, Links;
    TopPart(fs, false);
    TopPart(fs, true);
    var f, top, parent, below := Top(fs), TopIndex(fs), ParentIndex(fs), StackLayout(Below(fs), true);
    var part, n := FramePart(f, top, parent, false), StackSize(fs);
    FrameLinkFirst(f, top, parent);
    UpdateFront(below, part, part[0].(u := Kids(n, n)));
  }

  /** `add` on a container with children: one more behind the last. */
  lemma LinkNext(fs: seq<Frame>, last: nat)
    requires fs != [] && Top(fs).kids != [] && last == LastIndex(Top(fs).kids, TopIndex(fs) + 1)
    ensures TopIndex(fs) < last < StackSize(fs)
    ensures var p, top, n := StackLayout(fs, false), TopIndex(fs), StackSize(fs);
      StackLayout(fs, true) == p[last := p[last].(sibling := n)][top := p[top].(u := Kids(top + 1, n))]
  {
    hide FramePart, StackLayout, Links, SizeAll, LastIndex;
    TopPart(fs, false);
    TopPart(fs, true);
    LastInside(fs);
    LastShift(Top(fs).kids, TopIndex(fs) + 1);
    var f, top, parent, below := Top(fs), TopIndex(fs), ParentIndex(fs), StackLayout(Below(fs), true);
    var part, n := FramePart(f, top, parent, false), StackSize(fs);
    var k := 1 + LastIndex(f.kids, 0);
    FrameLinkNext(f, top, parent);
    UpdateBehind(below, part, k, part[k].(sibling := n), part[0].(u := Kids(top + 1, n)));
  }

  lemma LastShift(ts: seq<Tree>, base: nat)
    requires ts != []
    ensures LastIndex(ts, base) == base + LastIndex(ts, 0) && LastIndex(ts, 0) < SizeAll(ts)
  {
  }

  lemma LastInside(fs: seq<Frame>)
    requires fs != [] && Top(fs).kids != []
    ensures TopIndex(fs) < LastIndex(Top(fs).kids, TopIndex(fs) + 1) < StackSize(fs)
  {
    var kids := Top(fs).kids;
    SizeAllPush(kids[..|kids| - 1], kids[|kids| - 1]);
    assert kids[..|kids| - 1] + [kids[|kids| - 1]] == kids;
  }

  /** A finished child behind the linked ones. */
  lemma AddKidLayout(fs: seq<Frame>, t: Tree)
    requires fs != []
    ensures StackLayout(AddKid(fs, t), false) == StackLayout(fs, true) + Layout(t, StackSize(fs), NIL)
  {
    hide FramePart, Layout;
    var gs := AddKid(fs, t);
    assert Below(gs) == Below(fs);
    FrameKid(Top(fs), t, TopIndex(fs), ParentIndex(fs));
    var below, part := StackLayout(Below(fs), true), FramePart(Top(fs), TopIndex(fs), ParentIndex(fs), true);
    assert below + (part + Layout(t, StackSize(fs), NIL)) == (below + part) + Layout(t, StackSize(fs), NIL);
  }

  lemma FrameKid(f: Frame, t: Tree, index: nat, parent: int)
    ensures FramePart(f.(kids := f.kids + [t]), index, parent, false) ==
      FramePart(f, index, parent, true) + Layout(t, index + 1 + SizeAll(f.kids), NIL)
  {
    hide Layout, LayoutAll, SizeAll;
    var kids := f.kids + [t];
    LayoutAllPush(f.kids, t, index + 1, NIL);
    assert kids[..|kids| - 1] == f.kids;
    assert Links(kids, index + 1, false) == Links(f.kids, index + 1, true);
    var head := [Node(parent, NamePos(f.name), Links(f.kids, index + 1, true), f.kind)];
    var inner := LayoutAll(f.kids, index + 1, index + 1 + SizeAll(f.kids));
    var last := Layout(t, index + 1 + SizeAll(f.kids), NIL);
    assert head + (inner + last) == (head + inner) + last;
  }

  /** An open child behind the linked ones: its sibling link holds the parent. */
  lemma PushLayout(fs: seq<Frame>, name: Option<Str>, kind: Kind)
    requires fs != []
    ensures StackLayout(fs + [Frame(name, kind, [])], false) ==
      StackLayout(fs, true) + [Node(TopIndex(fs), NamePos(name), Kids(NIL, NIL), kind)]
  {
    var g := Frame(name, kind, []);
    assert Below(fs + [g]) == fs && Top(fs + [g]) == g;
  }

  /** Closing the innermost container: clearing its sibling link makes it a finished child of its parent. */
  lemma PopLayout(fs: seq<Frame>)
    requires |fs| > 1
    ensures TopIndex(fs) < StackSize(fs)
    ensures var p, top := StackLayout(fs, false), TopIndex(fs);
      p[top := p[top].(sibling := NIL)] == StackLayout(AddKid(Below(fs), Closed(Top(fs))), false)
  {
    hide FramePart, Layout, StackLayout, Links, SizeAll;
    TopPart(fs, false);
    var f, top, parent, below := Top(fs), TopIndex(fs), ParentIndex(fs), StackLayout(Below(fs), true);
    var part := FramePart(f, top, parent, false);
    AddKidLayout(Below(fs), Closed(f));
    ClosedFrame(f, top, parent);
    UpdateFront(below, part, part[0].(sibling := NIL));
  }

  lemma UpdateFront<T>(a: seq<T>, b: seq<T>, x: T)
    requires b != []
    ensures (a + b)[|a|] == b[0] && (a + b)[|a| := x] == a + b[0 := x]
  {
  }

  lemma ClosedFrame(f: Frame, index: nat, parent: int)
    ensures var p := FramePart(f, index, parent, false); p[0 := p[0].(sibling := NIL)] == Layout(Closed(f), index, NIL)
  {
    hide LayoutAll, SizeAll;
  }

  /** Closing the root leaves the finished tree. */
  lemma RootLayout(fs: seq<Frame>)
    requires |fs| == 1
    ensures StackLayout(fs, false) == Layout(Closed(Top(fs)), 0, NIL)
  {
    assert Below(fs) == [];
  }
}
