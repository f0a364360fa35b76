/** The JSON parser: in place, without recursion, with the parent of an open container kept in its
    sibling link. It builds exactly the tree of the recursive reader. */
module TinyJson {
  import opened Bits
  import opened Wrappers
  import opened JsonLex
  import opened JsonNumber
  import opened JsonTree
  import opened JsonPool
  import opened JsonBuffer
  import JsonDoc

  // ---------------------------------------------------------------- the pool

  /** jsonStaticPool_t: the node array of the caller, and how much of it is in use. */
  class Pool {
    const mem: array<Node>
    var nextFree: nat

    constructor (mem: array<Node>)
      ensures this.mem == mem
    {
      this.mem := mem;
      nextFree := 0;
    }

    /** poolInit: the root takes the first node. */
    method Init() returns (root: nat)
      modifies this
      ensures root == 0 && nextFree == 1
    {
      nextFree := 1;
      root := 0;
    }

    /** poolAlloc. */
    method Alloc() returns (r: Option<nat>)
      modifies this
      ensures old(nextFree) < mem.Length ==> r == Some(old(nextFree)) && nextFree == old(nextFree) + 1
      ensures old(nextFree) >= mem.Length ==> r == None && nextFree == old(nextFree)
    {
      if nextFree >= mem.Length { return None; }
      r := Some(nextFree);
      nextFree := nextFree + 1;
    }
  }

  /** add: links `property` as the last child of `obj`. */
  method Add(pool: Pool, obj: nat, property: nat)
    requires obj < property < pool.mem.Length
    requires var u := pool.mem[obj].u; u.Kids? && (u.child != NIL ==> obj < u.last < property)
    modifies pool.mem
    ensures var p := old(pool.mem[..]);
      pool.mem[..] ==
        (if p[obj].u.child == NIL then p[obj := p[obj].(u := Kids(property, property))]
         else
           p[p[obj].u.last := p[p[obj].u.last].(sibling := property)]
            [obj := p[obj].(u := Kids(p[obj].u.child, property))])
        [property := p[property].(sibling := NIL)]
  {
    var mem := pool.mem;
    mem[property] := mem[property].(sibling := NIL);
    if mem[obj].u.child == NIL {
      mem[obj] := mem[obj].(u := Kids(property, property));
    } else {
      var last := mem[obj].u.last;
      mem[last] := mem[last].(sibling := property);
      mem[obj] := mem[obj].(u := Kids(mem[obj].u.child, property));
    }
  }

  // ---------------------------------------------------------------- names and plain values

  /** The buffer moved from `s` to `t` by reading a token of [from, to): its string is stored, nothing
      before or after the token changed. */
  predicate Consumed(s: seq<byte>, t: seq<byte>, from: nat, to: nat, st: Str) {
    && |t| == |s| && from < to < |s| && Terminated(t)
    && t[..from] == s[..from] && SameFrom(s, t, to) && Stored(t, st, to)
  }

  /** propertyName. */
  method PropertyName(buf: array<byte>, start: nat) returns (r: Option<nat>)
    requires Terminated(buf[..]) && start < buf.Length && buf[start] == QUOTE
    modifies buf
    ensures match ReadName(old(buf[..]), start)
      case None => r == None
      case Some((name, v)) => r == Some(v) && name.pos == start + 1 && Consumed(old(buf[..]), buf[..], start, v, name)
    ensures Terminated(buf[..])
  {
    hide Scan, GoBlank;
    ghost var s := buf[..];
    NotLast(s, start);
    r := ParseString(buf, start + 1);
    if r.None? { return; }
    var end := r.value;
    ghost var text := Scan(s, start + 1).value.0;
    AheadAfter(s, buf[..], end);
    BlankSame(s, buf[..], end);
    r := SkipBlank(buf, end);
    if r.None? { return; }
    if buf[r.value] != COLON { return None; }
    NotLast(buf[..], r.value);
    BlankSame(s, buf[..], r.value + 1);
    r := SkipBlank(buf, r.value + 1);
    if r.None? { return; }
    HoldsStored(buf[..], start + 1, text, r.value);
    assert buf[..start] == buf[..start + 1][..start] && s[..start] == s[..start + 1][..start];
  }

  lemma AheadAfter(s: seq<byte>, t: seq<byte>, i: nat)
    requires |t| == |s| && i < |s| && Terminated(s) && Terminated(t) && t[i..] == s[i..]
    ensures Ahead(s, t, i)
  {
    forall k | i <= k < |s| ensures s[k] == t[k] { assert s[k] == s[i..][k - i] && t[k] == t[i..][k - i]; }
  }

  /** checkStr. */
  method CheckStr(buf: array<byte>, start: nat, word: seq<byte>) returns (r: Option<nat>)
    requires Terminated(buf[..]) && start < buf.Length && forall k :: 0 <= k < |word| ==> word[k] != 0
    ensures r == if Matches(buf[..], start, word) then Some(start + |word|) else None
  {
    var k := 0;
    while k < |word|
      invariant 0 <= k <= |word| && start + k < buf.Length && buf[start..start + k] == word[..k]
    {
      if buf[start + k] != word[k] {
        if start + |word| < buf.Length { assert buf[start..start + |word|][k] == buf[start + k]; }
        return None;
      }
      assert buf[start..start + (k + 1)] == buf[start..start + k] + [buf[start + k]];
      k := k + 1;
    }
    assert word[..k] == word;
    r := Some(start + k);
  }

  /** primitiveValue. */
  method PrimitiveValue(buf: array<byte>, start: nat, word: seq<byte>) returns (r: Option<nat>)
    requires Terminated(buf[..]) && start < buf.Length && word != [] && forall k :: 0 <= k < |word| ==> word[k] != 0
    modifies buf
    ensures match Literal(old(buf[..]), start, word)
      case None => r == None
      case Some(next) => r == Some(next) && Consumed(old(buf[..]), buf[..], start, next, Str(start, word))
    ensures Terminated(buf[..])
  {
    r := CheckStr(buf, start, word);
    if r.None? { return; }
    if !Delimits(buf[r.value]) { return None; }
    ghost var s := buf[..];
    CutStores(s, start, r.value);
    var next := SetToNull(buf, r.value);
    r := Some(next);
  }

  /** Cutting a token off leaves it stored. */
  lemma CutStores(s: seq<byte>, start: nat, end: nat)
    requires Terminated(s) && start < end < |s| && Delimits(s[end])
    ensures Consumed(s, Cut(s, end), start, AfterCut(s, end), Str(start, s[start..end]))
  {
    var t := Cut(s, end);
    assert t[start..end] == s[start..end] && t[..start] == s[..start];
  }

  /** The cases of the value switch that are not containers. */
  method LeafValue(buf: array<byte>, start: nat, ghost name: Option<Str>) returns (r: Option<nat>, pos: nat, kind: Kind)
    requires Terminated(buf[..]) && start < buf.Length
    modifies buf
    ensures match ReadLeaf(old(buf[..]), start, name)
      case None => r == None
      case Some((t, next)) =>
        r == Some(next) && pos == t.value.pos && kind == t.kind && Consumed(old(buf[..]), buf[..], start, next, t.value)
    ensures Terminated(buf[..])
  {
    hide Scan, Accept, Literal;
    ghost var s := buf[..];
    pos := start;
    if buf[start] == QUOTE {
      pos, kind := start + 1, Text;
      r := TextValue(buf, start);
    } else if buf[start] == 116 {
      kind := Boolean;
      r := PrimitiveValue(buf, start, TRUE_TEXT);
    } else if buf[start] == 102 {
      kind := Boolean;
      r := PrimitiveValue(buf, start, FALSE_TEXT);
    } else if buf[start] == 110 {
      kind := Null;
      r := PrimitiveValue(buf, start, NULL_TEXT);
    } else {
      var n := NumValue(buf, start);
      if n.None? { return None, pos, Null; }
      r, kind := Some(n.value.0), if n.value.1 then Integer else Real;
      CutStores(s, start, Accept(s, start).value.1);
    }
  }

  /** textValue. */
  method TextValue(buf: array<byte>, start: nat) returns (r: Option<nat>)
    requires Terminated(buf[..]) && start < buf.Length && buf[start] == QUOTE
    modifies buf
    ensures start + 1 < buf.Length
    ensures match Scan(old(buf[..]), start + 1)
      case None => r == None
      case Some((text, end)) => r == Some(end) && Consumed(old(buf[..]), buf[..], start, end, Str(start + 1, text))
    ensures Terminated(buf[..])
  {
    hide Scan;
    ghost var s := buf[..];
    NotLast(s, start);
    r := ParseString(buf, start + 1);
    if r.Some? {
      var (text, end) := Scan(s, start + 1).value;
      AheadAfter(s, buf[..], end);
      HoldsStored(buf[..], start + 1, text, end);
      assert buf[..start] == buf[..start + 1][..start] && s[..start] == s[..start + 1][..start];
    }
  }

  // ---------------------------------------------------------------- the state of the loop

  /** Between two turns of objValue: `s` is the text as it was, `fs` the open containers. */
  ghost predicate Running(s: seq<byte>, t: seq<byte>, ns: seq<Node>, used: nat, fs: seq<Frame>, ptr: nat, obj: nat,
                          goal: Option<(Tree, nat)>)
  {
    && Ahead(s, t, ptr)
    && fs != [] && obj == TopIndex(fs)
    && used == StackSize(fs) <= |ns| && ns[..used] == StackLayout(fs, false)
    && AllStored(t, StackStrs(fs), ptr)
    && Resume(s, fs, ptr) == goal
  }

  lemma RunNode(s: seq<byte>, t: seq<byte>, ns: seq<Node>, used: nat, fs: seq<Frame>, ptr: nat, obj: nat,
                goal: Option<(Tree, nat)>)
    requires Running(s, t, ns, used, fs, ptr, obj, goal)
    ensures obj < used <= |ns|
    ensures ns[obj].kind == Top(fs).kind && ns[obj].sibling == ParentIndex(fs)
    ensures ns[obj].u == Links(Top(fs).kids, obj + 1, false)
  {
    TopNode(fs);
    assert ns[obj] == ns[..used][obj];
  }

  lemma RunBlank(s: seq<byte>, t: seq<byte>, ns: seq<Node>, used: nat, fs: seq<Frame>, ptr: nat, obj: nat,
                 goal: Option<(Tree, nat)>)
    requires Running(s, t, ns, used, fs, ptr, obj, goal)
    ensures GoBlank(t, ptr).None? ==> goal == None
    ensures GoBlank(t, ptr).Some? ==> Running(s, t, ns, used, fs, GoBlank(t, ptr).value, obj, goal)
  {
    hide Resume, StackLayout, StackStrs, StackSize;
    BlankSame(s, t, ptr);
    ResumeBlank(s, fs, ptr);
    if GoBlank(t, ptr).Some? { StoredBlank(t, StackStrs(fs), ptr, GoBlank(t, ptr).value); }
  }

  lemma RunComma(s: seq<byte>, t: seq<byte>, ns: seq<Node>, used: nat, fs: seq<Frame>, ptr: nat, obj: nat,
                 goal: Option<(Tree, nat)>)
    requires Running(s, t, ns, used, fs, ptr, obj, goal) && t[ptr] == COMMA
    ensures ptr + 1 < |t| && Running(s, t, ns, used, fs, ptr + 1, obj, goal)
  {
    hide Resume, StackLayout, StackStrs, StackSize;
    ResumeComma(s, fs, ptr);
    StoredKeep(t, t, StackStrs(fs), ptr, ptr + 1);
  }

  /** The closing bracket of an inner container. */
  lemma RunClose(s: seq<byte>, t: seq<byte>, ns: seq<Node>, used: nat, fs: seq<Frame>, ptr: nat, obj: nat,
                 goal: Option<(Tree, nat)>)
    requires Running(s, t, ns, used, fs, ptr, obj, goal) && t[ptr] == Close(Top(fs).kind) && |fs| > 1
    ensures ptr + 1 < |t| && obj < |ns| && ParentIndex(fs) >= 0
    ensures Running(s, t[ptr := 0], ns[obj := ns[obj].(sibling := NIL)], used,
                    AddKid(Below(fs), Closed(Top(fs))), ptr + 1, ParentIndex(fs), goal)
  {
    hide Resume, StackLayout, StackStrs, Layout;
    var gs, ns' := AddKid(Below(fs), Closed(Top(fs))), ns[obj := ns[obj].(sibling := NIL)];
    RunNode(s, t, ns, used, fs, ptr, obj, goal);
    ResumeClose(s, fs, ptr);
    StoredClose(t, StackStrs(fs), ptr);
    StackStrsPop(fs);
    PopLayout(fs);
    StackSizeAdd(Below(fs), Closed(Top(fs)));
    assert Below(gs) == Below(Below(fs));
    assert ns'[..used] == ns[..used][obj := ns[obj].(sibling := NIL)];
    assert Terminated(t[ptr := 0]);
  }

  /** The closing bracket of the root. */
  lemma RunRoot(s: seq<byte>, t: seq<byte>, ns: seq<Node>, used: nat, fs: seq<Frame>, ptr: nat, obj: nat,
                goal: Option<(Tree, nat)>)
    requires Running(s, t, ns, used, fs, ptr, obj, goal) && t[ptr] == Close(Top(fs).kind) && |fs| == 1
    ensures goal == Some((Closed(Top(fs)), ptr + 1))
    ensures Built(t[ptr := 0], ns, used, Closed(Top(fs)))
  {
    hide Resume, StackLayout, Layout;
    ResumeClose(s, fs, ptr);
    RootLayout(fs);
    assert Below(fs) == [];
    StoredClose(t, StackStrs(fs), ptr);
    forall st | st in Strs(Closed(Top(fs))) ensures Holds(t[ptr := 0], st.pos, st.text) {
      assert Stored(t[ptr := 0], st, ptr + 1) && Stored(t, st, ptr);
    }
  }

  /** What the caller gets: the first nodes of the pool are the tree, and its strings are in the buffer. */
  ghost predicate Built(t: seq<byte>, ns: seq<Node>, used: nat, tree: Tree) {
    && used == Size(tree) <= |ns| && ns[..used] == Layout(tree, 0, NIL)
    && forall st :: st in Strs(tree) ==> Holds(t, st.pos, st.text)
  }

  // ---------------------------------------------------------------- one item

  /** The pool after a new node was linked behind the open container's children. */
  lemma Linked(ns: seq<Node>, fs: seq<Frame>)
    requires fs != [] && StackSize(fs) < |ns| && ns[..StackSize(fs)] == StackLayout(fs, false)
    ensures var obj, n := TopIndex(fs), StackSize(fs);
      && obj < n && ns[obj].u.Kids? && (ns[obj].u.child != NIL ==> obj < ns[obj].u.last < n)
      && (var ns' :=
            if ns[obj].u.child == NIL then ns[obj := ns[obj].(u := Kids(n, n))]
            else
              ns[ns[obj].u.last := ns[ns[obj].u.last].(sibling := n)][obj := ns[obj].(u := Kids(ns[obj].u.child, n))];
          ns'[..n] == StackLayout(fs, true) && ns'[n..] == ns[n..])
  {
    hide StackLayout, LastIndex, SizeAll;
    var obj, n := TopIndex(fs), StackSize(fs);
    TopNode(fs);
    assert ns[obj] == ns[..n][obj];
    var kids := Top(fs).kids;
    if kids == [] {
      LinkFirst(fs);
      UpdateInside(ns, n, obj, ns[obj].(u := Kids(n, n)));
    } else {
      var last := LastIndex(kids, obj + 1);
      LinkNext(fs, last);
      var tail := ns[last].(sibling := n);
      UpdateInside(ns, n, last, tail);
      UpdateInside(ns[last := tail], n, obj, ns[obj].(u := Kids(obj + 1, n)));
    }
  }

  lemma UpdateInside<T>(a: seq<T>, n: nat, k: nat, x: T)
    requires k < n <= |a|
    ensures a[k] == a[..n][k] && a[k := x][..n] == a[..n][k := x] && a[k := x][n..] == a[n..]
  {
  }

  /** The new node of an item: allocated, named and linked. What `v` points to is its value. */
  ghost predicate Named(s: seq<byte>, t: seq<byte>, ns: seq<Node>, fs: seq<Frame>, ptr: nat, v: nat, n: nat,
                        name: Option<Str>)
  {
    && fs != [] && n == StackSize(fs) < |ns|
    && Ahead(s, t, v) && t[v] != 0 && ptr < |s| && s[ptr] != 0 && ReadLabel(s, ptr, Top(fs).kind) == Some((name, v))
    && ns[..n] == StackLayout(fs, true) && ns[n].sibling == NIL && ns[n].name == NamePos(name)
    && AllStored(t, StackStrs(fs) + NameStrs(name), v)
  }

  /** Allocates the node of an item, reads its name and links it. */
  method NewProperty(buf: array<byte>, pool: Pool, ptr: nat, obj: nat,
                     ghost s: seq<byte>, ghost fs: seq<Frame>, ghost goal: Option<(Tree, nat)>)
    returns (r: Option<(nat, nat)>, ghost name: Option<Str>)
    requires Running(s, buf[..], pool.mem[..], pool.nextFree, fs, ptr, obj, goal) && StartsItem(s, ptr, Top(fs).kind)
    modifies buf, pool, pool.mem
    ensures Terminated(buf[..])
    ensures r == None ==> goal == None || Size(goal.value.0) > pool.mem.Length
    ensures r.Some? ==> pool.nextFree == r.value.0 + 1
    ensures r.Some? ==> Named(s, buf[..], pool.mem[..], fs, ptr, r.value.1, r.value.0, name)
  {
    hide Resume, StackLayout, StackStrs, StackSize, Size, Links, ReadName;
    name := None;
    RunNode(s, buf[..], pool.mem[..], pool.nextFree, fs, ptr, obj, goal);
    if goal.Some? { ResumeRoom(s, fs, ptr); }
    ResumeLeaf(s, fs, ptr);
    var alloc := pool.Alloc();
    if alloc.None? { return None, name; }
    var n, v := alloc.value, ptr;
    ghost var ns, t := pool.mem[..], buf[..];
    if pool.mem[obj].kind != Array {
      if buf[ptr] != QUOTE { NoName(s, ptr); return None, name; }
      NameSame(s, t, ptr);
      var value := PropertyName(buf, ptr);
      if value.None? { return None, name; }
      pool.mem[n] := pool.mem[n].(name := ptr + 1);
      v := value.value;
      name := Some(ReadName(s, ptr).value.0);
      NameStored(s, t, buf[..], StackStrs(fs), ptr, v, name.value);
    } else {
      pool.mem[n] := pool.mem[n].(name := NIL);
      assert StackStrs(fs) + NameStrs(name) == StackStrs(fs);
    }
    assert pool.mem[..n] == ns[..n];
    Linked(pool.mem[..], fs);
    Add(pool, obj, n);
    r := Some((n, v));
  }

  lemma NoName(s: seq<byte>, i: nat)
    requires Terminated(s) && i < |s| && s[i] != QUOTE
    ensures ReadName(s, i) == None
  {
  }

  lemma NameStored(s: seq<byte>, t: seq<byte>, t': seq<byte>, strs: set<Str>, ptr: nat, v: nat, name: Str)
    requires Ahead(s, t, ptr) && AllStored(t, strs, ptr) && t[ptr] == QUOTE && Consumed(t, t', ptr, v, name)
    ensures Ahead(s, t', v) && AllStored(t', strs + {name}, v)
  {
    StoredKeep(t, t', strs, ptr, v);
  }

  /** A container opens: the parent goes into its sibling link. */
  lemma RunOpen(s: seq<byte>, t: seq<byte>, ns: seq<Node>, fs: seq<Frame>, ptr: nat, v: nat, n: nat, name: Option<Str>,
                kind: Kind)
    requires Named(s, t, ns, fs, ptr, v, n, name) && StartsItem(s, ptr, Top(fs).kind)
    requires t[v] == OPEN_OBJECT || t[v] == OPEN_ARRAY
    requires kind == if t[v] == OPEN_OBJECT then Obj else Array
    ensures v + 1 < |s|
    ensures Running(s, t, ns[n := Node(TopIndex(fs), NamePos(name), Kids(NIL, NIL), kind)], n + 1,
                    fs + [Frame(name, kind, [])], v + 1, n, Resume(s, fs, ptr))
  {
    hide Resume, StackLayout, StackStrs, NameStrs, NamePos, Layout;
    var gs := fs + [Frame(name, kind, [])];
    var node := Node(TopIndex(fs), NamePos(name), Kids(NIL, NIL), kind);
    assert Below(gs) == fs && Top(gs).kids == [];
    ResumeOpen(s, fs, ptr);
    PushLayout(fs, name, kind);
    StackStrsPush(fs, name, kind);
    StoredKeep(t, t, StackStrs(fs) + NameStrs(name), v, v + 1);
    AppendAt(ns, n, node);
  }

  lemma AppendAt<T>(a: seq<T>, n: nat, x: T)
    requires n < |a|
    ensures a[n := x][..n + 1] == a[..n] + [x]
  {
  }

  lemma LeafStart(s: seq<byte>, v: nat, name: Option<Str>)
    requires Terminated(s) && v < |s| && ReadLeaf(s, v, name).Some?
    ensures !EndsBlock(s[v])
  {
  }

  /** A value without structure is a finished child. */
  lemma RunLeaf(s: seq<byte>, t: seq<byte>, t': seq<byte>, ns: seq<Node>, fs: seq<Frame>, ptr: nat, v: nat, next: nat,
                n: nat, leaf: Tree)
    requires leaf.Leaf? && Named(s, t, ns, fs, ptr, v, n, leaf.name) && StartsItem(s, ptr, Top(fs).kind)
    requires t[v] != OPEN_OBJECT && t[v] != OPEN_ARRAY
    requires ReadLeaf(s, v, leaf.name) == Some((leaf, next)) && Consumed(t, t', v, next, leaf.value)
    ensures Running(s, t', ns[n := Node(NIL, NamePos(leaf.name), Value(leaf.value.pos), leaf.kind)], n + 1,
                    AddKid(fs, leaf), next, TopIndex(fs), Resume(s, fs, ptr))
  {
    hide Resume, StackLayout, StackStrs, NameStrs, NamePos, ReadLeaf, ReadLabel, StackSize, AddKid;
    ResumeLeaf(s, fs, ptr);
    AddKidLayout(fs, leaf);
    StackSizeAdd(fs, leaf);
    StackStrsAdd(fs, leaf);
    KidTop(fs, leaf);
    LeafStart(s, v, leaf.name);
    StoredKeep(t, t', StackStrs(fs) + NameStrs(leaf.name), v, next);
    AppendAt(ns, n, Node(NIL, NamePos(leaf.name), Value(leaf.value.pos), leaf.kind));
  }

  lemma KidTop(fs: seq<Frame>, t: Tree)
    requires fs != []
    ensures AddKid(fs, t) != [] && TopIndex(AddKid(fs, t)) == TopIndex(fs)
  {
    assert Below(AddKid(fs, t)) == Below(fs);
  }

  /** The value of the new node `n`: it either becomes the open container or a finished child. */
  method ReadValue(buf: array<byte>, pool: Pool, v: nat, n: nat, obj: nat,
                   ghost s: seq<byte>, ghost fs: seq<Frame>, ghost ptr: nat, ghost name: Option<Str>)
    returns (r: Option<(nat, nat)>, ghost gs: seq<Frame>)
    requires Named(s, buf[..], pool.mem[..], fs, ptr, v, n, name) && StartsItem(s, ptr, Top(fs).kind)
    requires obj == TopIndex(fs) && pool.nextFree == n + 1
    modifies buf, pool.mem
    ensures Terminated(buf[..])
    ensures r == None ==> Resume(s, fs, ptr) == None
    ensures r.Some? ==> r.value.0 > v
    ensures r.Some? ==> Running(s, buf[..], pool.mem[..], pool.nextFree, gs, r.value.0, r.value.1, Resume(s, fs, ptr))
  {
    hide Resume, StackLayout, StackStrs, NameStrs, NamePos, ReadLeaf, ReadLabel, StackSize, AddKid, Layout;
    gs := fs;
    ghost var t, ns := buf[..], pool.mem[..];
    var node := pool.mem[n].(u := Value(v));
    if buf[v] == OPEN_OBJECT || buf[v] == OPEN_ARRAY {
      var kind := if buf[v] == OPEN_OBJECT then Obj else Array;
      node := node.(kind := kind, u := Kids(NIL, NIL), sibling := obj);
      pool.mem[n] := node;
      RunOpen(s, t, ns, fs, ptr, v, n, name, kind);
      gs := fs + [Frame(name, kind, [])];
      r := Some((v + 1, n));
    } else {
      ResumeLeaf(s, fs, ptr);
      LeafSame(s, t, v, name);
      var next, pos, kind := LeafValue(buf, v, name);
      if next.None? { return None, gs; }
      ghost var leaf := ReadLeaf(s, v, name).value.0;
      pool.mem[n] := node.(u := Value(pos), kind := kind);
      RunLeaf(s, t, buf[..], ns, fs, ptr, v, next.value, n, leaf);
      gs := AddKid(fs, leaf);
      r := Some((next.value, obj));
    }
  }

  // ---------------------------------------------------------------- the whole parser

  /** objValue: on success the pool holds the tree and the buffer its strings; it fails exactly when
      the recursive reader fails or the tree has more nodes than the pool. */
  method ObjValue(buf: array<byte>, pool: Pool, start: nat) returns (r: Option<nat>)
    requires Terminated(buf[..]) && start < buf.Length && (buf[start] == OPEN_OBJECT || buf[start] == OPEN_ARRAY)
    requires pool.mem.Length >= 1 && pool.nextFree == 1 && pool.mem[0].name == NIL
    modifies buf, pool, pool.mem
    ensures match Resume(old(buf[..]), [Frame(None, if old(buf[start]) == OPEN_OBJECT then Obj else Array, [])],
                         start + 1)
      case None => r == None
      case Some((tree, end)) =>
        if Size(tree) > pool.mem.Length then r == None
        else r == Some(end) && buf[end..] == old(buf[end..]) && Built(buf[..], pool.mem[..], pool.nextFree, tree)
  {
    hide Resume, StackLayout, StackStrs, NameStrs, NamePos, StackSize, AddKid, ReadLabel;
    ghost var s := buf[..];
    NotLast(s, start);
    var obj: nat, ptr: nat := 0, start;
    pool.mem[obj] := Node(NIL, NIL, Kids(NIL, NIL), if buf[ptr] == OPEN_OBJECT then Obj else Array);
    ghost var fs := [Frame(None, pool.mem[0].kind, [])];
    ghost var goal := Resume(s, fs, start + 1);
    ptr := ptr + 1;
    RunStart(s, pool.mem[..], pool.mem[0].kind, ptr);
    while true
      invariant Running(s, buf[..], pool.mem[..], pool.nextFree, fs, ptr, obj, goal)
      decreases buf.Length - ptr
    {
      RunBlank(s, buf[..], pool.mem[..], pool.nextFree, fs, ptr, obj, goal);
      var blank := SkipBlank(buf, ptr);
      if blank.None? { return None; }
      ptr := blank.value;
      if buf[ptr] == COMMA {
        RunComma(s, buf[..], pool.mem[..], pool.nextFree, fs, ptr, obj, goal);
        ptr := ptr + 1;
        continue;
      }
      RunNode(s, buf[..], pool.mem[..], pool.nextFree, fs, ptr, obj, goal);
      if buf[ptr] == Close(pool.mem[obj].kind) {
        ghost var t, ns := buf[..], pool.mem[..];
        buf[ptr] := 0;
        assert buf[..] == t[ptr := 0];
        var parent := pool.mem[obj].sibling;
        if parent == NIL {
          RunRoot(s, t, ns, pool.nextFree, fs, ptr, obj, goal);
          RunRest(s, t, ptr);
          return Some(ptr + 1);
        }
        RunClose(s, t, ns, pool.nextFree, fs, ptr, obj, goal);
        pool.mem[obj] := pool.mem[obj].(sibling := NIL);
        assert pool.mem[..] == ns[obj := ns[obj].(sibling := NIL)];
        obj := parent;
        ptr := ptr + 1;
        fs := AddKid(Below(fs), Closed(Top(fs)));
        continue;
      }
      var property, name := NewProperty(buf, pool, ptr, obj, s, fs, goal);
      if property.None? { return None; }
      var value, gs := ReadValue(buf, pool, property.value.1, property.value.0, obj, s, fs, ptr, name);
      if value.None? { return None; }
      ptr, obj, fs := value.value.0, value.value.1, gs;
    }
  }

  lemma RunStart(s: seq<byte>, ns: seq<Node>, kind: Kind, ptr: nat)
    requires Terminated(s) && ptr < |s| && ns != [] && ns[0] == Node(NIL, NIL, Kids(NIL, NIL), kind)
    ensures var fs := [Frame(None, kind, [])]; Running(s, s, ns, 1, fs, ptr, 0, Resume(s, fs, ptr))
  {
    hide Resume;
    var fs := [Frame(None, kind, [])];
    assert Below(fs) == [] && Top(fs) == Frame(None, kind, []);
    LayoutAllEmpty(1, NIL, NIL);
    assert FramePart(Top(fs), 0, NIL, false) == [ns[0]];
    assert StackLayout(fs, false) == [ns[0]];
    assert ns[..1] == [ns[0]];
    assert StackStrs([]) == StrsAll([]) == {} && StackStrs(fs) == {};
    assert StackSize([]) == 0 && StackSize(fs) == 1;
  }

  lemma RunRest(s: seq<byte>, t: seq<byte>, ptr: nat)
    requires Ahead(s, t, ptr)
    ensures t[ptr := 0][ptr + 1..] == s[ptr + 1..]
  {
  }

  /** json_create: a text whose document has at most as many nodes as there are leaves exactly those
      nodes, which show the document, and what follows the text untouched. Nothing else is accepted. */
  method JsonCreate(buf: array<byte>, mem: array<Node>) returns (r: Option<nat>, used: nat)
    requires Terminated(buf[..]) && mem.Length >= 1
    modifies buf, mem
    ensures forall lead, d, rest :: JsonDoc.IsText(old(buf[..]), lead, d, rest) ==>
      if JsonDoc.Nodes(d) > mem.Length then r == None
      else
        && r == Some(0) && used == JsonDoc.Nodes(d)
        && JsonDoc.Shows(buf[..], mem[..], 0, d, None) && mem[0].sibling == -1
        && |lead| + |JsonDoc.Bytes(d)| <= buf.Length && buf[|lead| + |JsonDoc.Bytes(d)|..] == rest
    ensures r.Some? ==> exists lead, d, rest :: JsonDoc.IsText(old(buf[..]), lead, d, rest)
    ensures Outcome(old(buf[..]), buf[..], mem[..], r, used)
  {
    hide Resume, Built, Size, JsonDoc.IsText, JsonDoc.Shows, JsonDoc.Nodes, JsonDoc.Bytes, ReadText;
    used := 0;
    ghost var s := buf[..];
    var pool := new Pool(mem);
    var ptr := SkipBlank(buf, 0);
    if ptr.None? || (buf[ptr.value] != OPEN_OBJECT && buf[ptr.value] != OPEN_ARRAY) {
      NoText(s, buf[..], mem[..], used);
      return None, used;
    }
    var obj := pool.Init();
    mem[obj] := mem[obj].(name := NIL, sibling := NIL, u := Kids(NIL, NIL));
    NotLast(buf[..], ptr.value);
    TextIsFrame(buf[..], ptr.value);
    var end := ObjValue(buf, pool, ptr.value);
    r, used := if end.None? then None else Some(obj), if end.None? then 0 else pool.nextFree;
    OutcomeShows(s, buf[..], mem[..], r, used);
  }

  /** What becomes of the text `s` in terms of the recursive reader. */
  ghost predicate Outcome(s: seq<byte>, t: seq<byte>, ns: seq<Node>, r: Option<nat>, used: nat)
    requires Terminated(s)
  {
    match ReadText(s)
    case None => r == None
    case Some((tree, end)) =>
      if Size(tree) > |ns| then r == None
      else r == Some(0) && end <= |t| == |s| && t[end..] == s[end..] && Built(t, ns, used, tree)
  }

  lemma NoText(s: seq<byte>, t: seq<byte>, ns: seq<Node>, used: nat)
    requires Terminated(s)
    requires GoBlank(s, 0).None? || (s[GoBlank(s, 0).value] != OPEN_OBJECT && s[GoBlank(s, 0).value] != OPEN_ARRAY)
    ensures Outcome(s, t, ns, None, used)
    ensures forall lead, d, rest :: !JsonDoc.IsText(s, lead, d, rest)
  {
    hide JsonDoc.IsText;
    OutcomeShows(s, t, ns, None, used);
    forall lead, d, rest | JsonDoc.IsText(s, lead, d, rest) ensures false { JsonDoc.TextIsRead(s, lead, d, rest); }
  }

  /** The outcome of a text is what its document asks for. */
  lemma OutcomeShows(s: seq<byte>, t: seq<byte>, ns: seq<Node>, r: Option<nat>, used: nat)
    requires Terminated(s) && Outcome(s, t, ns, r, used)
    ensures forall lead, d, rest :: JsonDoc.IsText(s, lead, d, rest) ==>
      if JsonDoc.Nodes(d) > |ns| then r == None
      else
        && r == Some(0) && used == JsonDoc.Nodes(d)
        && JsonDoc.Shows(t, ns, 0, d, None) && ns[0].sibling == -1
        && |lead| + |JsonDoc.Bytes(d)| <= |t| && t[|lead| + |JsonDoc.Bytes(d)|..] == rest
    ensures r.Some? ==> exists lead, d, rest :: JsonDoc.IsText(s, lead, d, rest)
  {
    hide JsonDoc.IsText, JsonDoc.Shows, JsonDoc.Nodes, JsonDoc.Bytes, JsonDoc.TreeAt, Size, ReadText, Strs, Layout;
    forall lead, d, rest | JsonDoc.IsText(s, lead, d, rest)
      ensures if JsonDoc.Nodes(d) > |ns| then r == None
        else
          && r == Some(0) && used == JsonDoc.Nodes(d)
          && JsonDoc.Shows(t, ns, 0, d, None) && ns[0].sibling == -1
          && |lead| + |JsonDoc.Bytes(d)| <= |t| && t[|lead| + |JsonDoc.Bytes(d)|..] == rest
    {
      JsonDoc.TextIsRead(s, lead, d, rest);
      JsonDoc.SizeIsNodes(d, None, |lead|);
      JsonDoc.RestIs(s, lead, d, rest);
      if JsonDoc.Nodes(d) <= |ns| { JsonDoc.TreeShows(t, ns, used, d, |lead|); }
    }
    if r.Some? {
      var lead, d, rest := JsonDoc.TextShapeOf(s);
    }
  }

  lemma TextIsFrame(s: seq<byte>, j: nat)
    requires Terminated(s) && j + 1 < |s| && GoBlank(s, 0) == Some(j) && (s[j] == OPEN_OBJECT || s[j] == OPEN_ARRAY)
    ensures ReadText(s) == Resume(s, [Frame(None, if s[j] == OPEN_OBJECT then Obj else Array, [])], j + 1)
    ensures ReadText(s).Some? ==> ReadText(s).value.1 <= |s|
  {
    var k := if s[j] == OPEN_OBJECT then Obj else Array;
    if ReadItems(s, j + 1, k).Some? {
      var kids := ReadItems(s, j + 1, k).value.0;
      assert [] + kids == kids;
    }
  }
}
