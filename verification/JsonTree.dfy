/** What a JSON text means: the tree that a recursive reader builds. Commas are as lenient as in the
    parser: between the items of a container any mixture of blanks and commas will do. */
module JsonTree {
  import opened Bits
  import opened Wrappers
  import opened JsonLex
  import opened JsonNumber

  datatype Kind = Obj | Array | Text | Boolean | Integer | Real | Null

  predicate IsContainer(k: Kind) { k == Obj || k == Array }

  function Close(k: Kind): byte { if k == Obj then CLOSE_OBJECT else CLOSE_ARRAY }

  /** A string of the text: where the parser leaves it in the buffer, and what it says. */
  datatype Str = Str(pos: nat, text: seq<byte>)

  datatype Tree =
    | Leaf(name: Option<Str>, kind: Kind, value: Str)
    | Branch(name: Option<Str>, kind: Kind, kids: seq<Tree>)

  // ---------------------------------------------------------------- values without structure

  const TRUE_TEXT: seq<byte> := [116, 114, 117, 101]
  const FALSE_TEXT: seq<byte> := [102, 97, 108, 115, 101]
  const NULL_TEXT: seq<byte> := [110, 117, 108, 108]

  /** checkStr: whether `word` stands at `i`. */
  predicate Matches(s: seq<byte>, i: nat, word: seq<byte>) {
    i + |word| < |s| && s[i..i + |word|] == word
  }

  /** A literal, delimited; and the position after its text is cut off. */
  function Literal(s: seq<byte>, i: nat, word: seq<byte>): (r: Option<nat>)
    requires Terminated(s)
    ensures r.Some? ==> i + |word| <= r.value < |s|
  {
    if Matches(s, i, word) && Delimits(s[i + |word|]) then
      NotLast(s, i + |word|);
      Some(AfterCut(s, i + |word|))
    else None
  }

  /** Any value that is not a container. */
  function ReadLeaf(s: seq<byte>, i: nat, name: Option<Str>): (r: Option<(Tree, nat)>)
    requires Terminated(s) && i < |s|
    ensures r.Some? ==> i < r.value.1 < |s| && r.value.0.Leaf? && r.value.0.name == name && !IsContainer(r.value.0.kind)
  {
    if s[i] == QUOTE then
      (NotLast(s, i);
       match Scan(s, i + 1)
       case None => None
       case Some((text, end)) => Some((Leaf(name, Text, Str(i + 1, text)), end)))
    else if s[i] == 116 then LiteralLeaf(s, i, name, TRUE_TEXT, Boolean)
    else if s[i] == 102 then LiteralLeaf(s, i, name, FALSE_TEXT, Boolean)
    else if s[i] == 110 then LiteralLeaf(s, i, name, NULL_TEXT, Null)
    else
      match Accept(s, i)
      case None => None
      case Some((n, end)) =>
        NotLast(s, end);
        Some((Leaf(name, if n.IsInteger() then Integer else Real, Str(i, s[i..end])), AfterCut(s, end)))
  }

  function LiteralLeaf(s: seq<byte>, i: nat, name: Option<Str>, word: seq<byte>, kind: Kind): (r: Option<(Tree, nat)>)
    requires Terminated(s) && word != []
    ensures r.Some? ==> i < r.value.1 < |s| && r.value.0 == Leaf(name, kind, Str(i, word))
  {
    match Literal(s, i, word)
    case None => None
    case Some(end) => Some((Leaf(name, kind, Str(i, word)), end))
  }

  /** propertyName: the name and the position of the value. */
  function ReadName(s: seq<byte>, i: nat): (r: Option<(Str, nat)>)
    requires Terminated(s) && i < |s|
    ensures r.Some? ==> i < r.value.1 < |s| && s[r.value.1] != 0
  {
    if s[i] != QUOTE then None
    else
      NotLast(s, i);
      match Scan(s, i + 1)
      case None => None
      case Some((text, end)) =>
        match GoBlank(s, end)
        case None => None
        case Some(colon) =>
          if s[colon] != COLON then None
          else
            NotLast(s, colon);
            match GoBlank(s, colon + 1)
            case None => None
            case Some(v) => Some((Str(i + 1, text), v))
  }

  /** The optional name in front of an item. */
  function ReadLabel(s: seq<byte>, i: nat, kind: Kind): (r: Option<(Option<Str>, nat)>)
    requires Terminated(s) && i < |s| && s[i] != 0
    ensures r.Some? ==> i <= r.value.1 < |s| && s[r.value.1] != 0
  {
    if kind == Array then Some((None, i))
    else
      match ReadName(s, i)
      case None => None
      case Some((name, v)) => Some((Some(name), v))
  }

  // ---------------------------------------------------------------- the recursive reader

  /** The rest of the items of a container of the given kind, up to and including its closing bracket. */
  function ReadItems(s: seq<byte>, i: nat, kind: Kind): (r: Option<(seq<Tree>, nat)>)
    requires Terminated(s) && i < |s|
    ensures r.Some? ==> i < r.value.1 < |s|
    decreases |s| - i, 1
  {
    match GoBlank(s, i)
    case None => None
    case Some(j) =>
      NotLast(s, j);
      if s[j] == COMMA then ReadItems(s, j + 1, kind)
      else if s[j] == Close(kind) then Some(([], j + 1))
      else
        match ReadItem(s, j, kind)
        case None => None
        case Some((t, next)) =>
          match ReadItems(s, next, kind)
          case None => None
          case Some((rest, end)) => Some(([t] + rest, end))
  }

  /** One item: its name in an object, and its value. */
  function ReadItem(s: seq<byte>, i: nat, kind: Kind): (r: Option<(Tree, nat)>)
    requires Terminated(s) && i < |s| && s[i] != 0
    ensures r.Some? ==> i < r.value.1 < |s|
    decreases |s| - i, 0
  {
    match ReadLabel(s, i, kind)
    case None => None
    case Some((name, v)) =>
      NotLast(s, v);
      if s[v] == OPEN_OBJECT || s[v] == OPEN_ARRAY then
        var k := if s[v] == OPEN_OBJECT then Obj else Array;
        match ReadItems(s, v + 1, k)
        case None => None
        case Some((kids, end)) => Some((Branch(name, k, kids), end))
      else ReadLeaf(s, v, name)
  }

  /** json_create: a container after any blanks. What follows it does not matter. */
  function ReadText(s: seq<byte>): (r: Option<(Tree, nat)>)
    requires Terminated(s)
  {
    match GoBlank(s, 0)
    case None => None
    case Some(j) =>
      NotLast(s, j);
      if s[j] == OPEN_OBJECT || s[j] == OPEN_ARRAY then
        var k := if s[j] == OPEN_OBJECT then Obj else Array;
        match ReadItems(s, j + 1, k)
        case None => None
        case Some((kids, end)) => Some((Branch(None, k, kids), end))
      else None
  }

  // ---------------------------------------------------------------- a reader with an explicit stack

  /** A container that is still open: what it is and the items it has so far. */
  datatype Frame = Frame(name: Option<Str>, kind: Kind, kids: seq<Tree>)

  function Top(fs: seq<Frame>): Frame
    requires fs != []
  {
    fs[|fs| - 1]
  }

  function Below(fs: seq<Frame>): seq<Frame>
    requires fs != []
  {
    fs[..|fs| - 1]
  }

  function AddKid(fs: seq<Frame>, t: Tree): (r: seq<Frame>)
    requires fs != []
    ensures |r| == |fs|
  {
    Below(fs) + [Top(fs).(kids := Top(fs).kids + [t])]
  }

  function Closed(f: Frame): Tree { Branch(f.name, f.kind, f.kids) }

  /** What comes of the whole text when the open containers are `fs` and reading goes on at `i`. */
  function Resume(s: seq<byte>, fs: seq<Frame>, i: nat): (r: Option<(Tree, nat)>)
    requires Terminated(s) && i < |s| && fs != []
    decreases |fs|
  {
    match ReadItems(s, i, Top(fs).kind)
    case None => None
    case Some((kids, end)) =>
      var t := Branch(Top(fs).name, Top(fs).kind, Top(fs).kids + kids);
      if |fs| == 1 then Some((t, end)) else Resume(s, AddKid(Below(fs), t), end)
  }

  lemma ResumeBlank(s: seq<byte>, fs: seq<Frame>, i: nat)
    requires Terminated(s) && i < |s| && fs != []
    ensures GoBlank(s, i).None? ==> Resume(s, fs, i) == None
    ensures GoBlank(s, i).Some? ==> Resume(s, fs, i) == Resume(s, fs, GoBlank(s, i).value)
  {
    hide GoBlank, ReadItems;
    ItemsBlank(s, i, Top(fs).kind);
  }

  lemma ItemsBlank(s: seq<byte>, i: nat, kind: Kind)
    requires Terminated(s) && i < |s|
    ensures GoBlank(s, i).None? ==> ReadItems(s, i, kind) == None
    ensures GoBlank(s, i).Some? ==> ReadItems(s, i, kind) == ReadItems(s, GoBlank(s, i).value, kind)
  {
    hide ReadItem, GoBlank;
    if GoBlank(s, i).Some? { BlankAgain(s, i); }
  }

  lemma BlankAgain(s: seq<byte>, i: nat)
    requires Terminated(s) && i < |s| && GoBlank(s, i).Some?
    ensures GoBlank(s, GoBlank(s, i).value) == GoBlank(s, i)
  {
  }

  lemma ResumeComma(s: seq<byte>, fs: seq<Frame>, j: nat)
    requires Terminated(s) && j < |s| && fs != [] && s[j] == COMMA
    ensures j + 1 < |s| && Resume(s, fs, j) == Resume(s, fs, j + 1)
  {
  }

  /** Closing the innermost container. */
  lemma ResumeClose(s: seq<byte>, fs: seq<Frame>, j: nat)
    requires Terminated(s) && j < |s| && fs != [] && s[j] == Close(Top(fs).kind)
    ensures j + 1 < |s|
    ensures Resume(s, fs, j) ==
      if |fs| == 1 then Some((Closed(Top(fs)), j + 1)) else Resume(s, AddKid(Below(fs), Closed(Top(fs))), j + 1)
  {
    assert Top(fs).kids + [] == Top(fs).kids;
    assert ReadItems(s, j, Top(fs).kind) == Some(([], j + 1));
  }

  predicate StartsItem(s: seq<byte>, j: nat, kind: Kind) {
    j < |s| && s[j] != 0 && !IsBlank(s[j]) && s[j] != COMMA && s[j] != Close(kind)
  }

  lemma ItemsFirst(s: seq<byte>, j: nat, kind: Kind)
    requires Terminated(s) && StartsItem(s, j, kind)
    ensures match ReadItem(s, j, kind)
      case None => ReadItems(s, j, kind) == None
      case Some((t, next)) =>
        match ReadItems(s, next, kind)
        case None => ReadItems(s, j, kind) == None
        case Some((rest, end)) => ReadItems(s, j, kind) == Some(([t] + rest, end))
  {
    assert GoBlank(s, j) == Some(j);
  }

  /** An item that is read in one go joins the innermost container. */
  lemma ResumeItem(s: seq<byte>, fs: seq<Frame>, j: nat)
    requires Terminated(s) && fs != [] && StartsItem(s, j, Top(fs).kind)
    ensures match ReadItem(s, j, Top(fs).kind)
      case None => Resume(s, fs, j) == None
      case Some((t, next)) => Resume(s, fs, j) == Resume(s, AddKid(fs, t), next)
  {
    hide ReadItems, ReadItem;
    ItemsFirst(s, j, Top(fs).kind);
    if ReadItem(s, j, Top(fs).kind).Some? {
      var (t, next) := ReadItem(s, j, Top(fs).kind).value;
      var gs := AddKid(fs, t);
      assert Below(gs) == Below(fs) && Top(gs).kind == Top(fs).kind && Top(gs).name == Top(fs).name;
      if ReadItems(s, next, Top(fs).kind).Some? {
        var rest := ReadItems(s, next, Top(fs).kind).value.0;
        assert Top(fs).kids + ([t] + rest) == Top(gs).kids + rest;
      }
    }
  }

  /** Opening a container: going on inside it with one more frame comes to the same. */
  lemma ResumeOpen(s: seq<byte>, fs: seq<Frame>, j: nat)
    requires Terminated(s) && fs != [] && StartsItem(s, j, Top(fs).kind) && ReadLabel(s, j, Top(fs).kind).Some?
    requires var v := ReadLabel(s, j, Top(fs).kind).value.1; s[v] == OPEN_OBJECT || s[v] == OPEN_ARRAY
    ensures var (name, v) := ReadLabel(s, j, Top(fs).kind).value;
      v + 1 < |s| &&
      Resume(s, fs, j) == Resume(s, fs + [Frame(name, if s[v] == OPEN_OBJECT then Obj else Array, [])], v + 1)
  {
    hide ReadItems, ReadLabel;
    var (name, v) := ReadLabel(s, j, Top(fs).kind).value;
    NotLast(s, v);
    var g := Frame(name, if s[v] == OPEN_OBJECT then Obj else Array, []);
    var gs := fs + [g];
    assert Top(gs) == g && Below(gs) == fs;
    ResumeItem(s, fs, j);
    if ReadItems(s, v + 1, g.kind).Some? {
      var kids := ReadItems(s, v + 1, g.kind).value.0;
      assert [] + kids == kids;
    }
  }

  /** An item without structure. */
  lemma ResumeLeaf(s: seq<byte>, fs: seq<Frame>, j: nat)
    requires Terminated(s) && fs != [] && StartsItem(s, j, Top(fs).kind)
    ensures match ReadLabel(s, j, Top(fs).kind)
      case None => Resume(s, fs, j) == None
      case Some((name, v)) =>
        s[v] != OPEN_OBJECT && s[v] != OPEN_ARRAY ==>
          match ReadLeaf(s, v, name)
          case None => Resume(s, fs, j) == None
          case Some((t, next)) => Resume(s, fs, j) == Resume(s, AddKid(fs, t), next)
  {
    hide ReadItems, ReadLabel, ReadLeaf, Resume;
    ResumeItem(s, fs, j);
  }

  // ---------------------------------------------------------------- how many nodes

  function Size(t: Tree): (n: nat)
    ensures n >= 1
  {
    match t
    case Leaf(_, _, _) => 1
    case Branch(_, _, kids) => 1 + SizeAll(kids)
  }

  function SizeAll(ts: seq<Tree>): nat {
    if ts == [] then 0 else SizeAll(ts[..|ts| - 1]) + Size(ts[|ts| - 1])
  }

  function StackSize(fs: seq<Frame>): nat {
    if fs == [] then 0 else StackSize(Below(fs)) + 1 + SizeAll(Top(fs).kids)
  }

  lemma SizeAllPush(ts: seq<Tree>, t: Tree)
    ensures SizeAll(ts + [t]) == SizeAll(ts) + Size(t)
  {
    assert (ts + [t])[..|ts|] == ts;
  }

  lemma {:induction false} SizeAllConcat(a: seq<Tree>, b: seq<Tree>)
    ensures SizeAll(a + b) == SizeAll(a) + SizeAll(b)
    decreases |b|
  {
    if b == [] {
      assert a + b == a;
    } else {
      assert (a + b)[..|a + b| - 1] == a + b[..|b| - 1];
      SizeAllConcat(a, b[..|b| - 1]);
    }
  }

  lemma StackSizeAdd(fs: seq<Frame>, t: Tree)
    requires fs != []
    ensures StackSize(AddKid(fs, t)) == StackSize(fs) + Size(t)
  {
    SizeAllPush(Top(fs).kids, t);
    assert Below(AddKid(fs, t)) == Below(fs);
  }

  /** The finished tree holds at least the nodes read so far. */
  lemma {:induction false} ResumeSize(s: seq<byte>, fs: seq<Frame>, i: nat)
    requires Terminated(s) && i < |s| && fs != [] && Resume(s, fs, i).Some?
    ensures Size(Resume(s, fs, i).value.0) >= StackSize(fs)
    decreases |fs|
  {
    hide ReadItems;
    var (kids, end) := ReadItems(s, i, Top(fs).kind).value;
    var t := Branch(Top(fs).name, Top(fs).kind, Top(fs).kids + kids);
    SizeAllConcat(Top(fs).kids, kids);
    if |fs| == 1 {
      assert Below(fs) == [];
    } else {
      StackSizeAdd(Below(fs), t);
      ResumeSize(s, AddKid(Below(fs), t), end);
    }
  }

  /** Where one more item starts, the finished tree has room for it. */
  lemma ResumeRoom(s: seq<byte>, fs: seq<Frame>, j: nat)
    requires Terminated(s) && fs != [] && StartsItem(s, j, Top(fs).kind) && Resume(s, fs, j).Some?
    ensures Size(Resume(s, fs, j).value.0) > StackSize(fs)
  {
    hide ReadItem, ReadItems, Resume;
    ResumeItem(s, fs, j);
    var (t, next) := ReadItem(s, j, Top(fs).kind).value;
    StackSizeAdd(fs, t);
    ResumeSize(s, AddKid(fs, t), next);
  }
}
