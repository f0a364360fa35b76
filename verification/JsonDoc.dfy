/** JSON documents and how they are written, byte by byte, without reference to any reader; and what a
    node pool shows of one to somebody who follows its links. */
module JsonDoc {
  import opened Bits
  import opened Wrappers
  import opened JsonLex
  import opened JsonNumber
  import opened JsonTree
  import opened JsonPool
  import opened JsonBuffer

  // ---------------------------------------------------------------- documents

  datatype Doc =
    | Txt(units: seq<Unit>)
    | Truth(value: bool)
    | Nothing
    | Num(n: Number)
    | Object(items: seq<Item>, tail: seq<byte>)
    | List(items: seq<Item>, tail: seq<byte>)

  /** An item of a container: what separates it from what comes before, its key in an object, its value. */
  datatype Item = Item(gap: seq<byte>, key: Option<Key>, value: Doc)

  /** A key, with the blanks before and after its colon. */
  datatype Key = Key(units: seq<Unit>, before: seq<byte>, after: seq<byte>)

  // ---------------------------------------------------------------- how they are written

  predicate Blanks(bs: seq<byte>) { forall k :: 0 <= k < |bs| ==> bs[k] in {9, 10, 12, 13, 32} }

  /** Any mixture of blanks and commas. */
  predicate Gap(bs: seq<byte>) { forall k :: 0 <= k < |bs| ==> bs[k] in {9, 10, 12, 13, 32, 44} }

  predicate UnitOk(u: Unit) {
    match u
    case Plain(c) => c != 0 && c != 34 && c != 92
    case Short(c) => c in {34, 92, 47, 98, 102, 110, 114, 116}
    case Hex(a, b, c, d) => HexDigit(a) && HexDigit(b) && HexDigit(c) && HexDigit(d)
  }

  predicate HexDigit(c: byte) { 48 <= c <= 57 || 65 <= c <= 70 || 97 <= c <= 102 }

  function UnitBytes(u: Unit): seq<byte> {
    match u
    case Plain(c) => [c]
    case Short(c) => [92, c]
    case Hex(a, b, c, d) => [92, 117, a, b, c, d]
  }

  /** What it stands for: b, f, n, r and t after the backslash are control characters. */
  function UnitMeans(u: Unit): byte {
    match u
    case Plain(c) => c
    case Short(c) =>
      if c == 98 then 8 else if c == 102 then 12 else if c == 110 then 10 else if c == 114 then 13
      else if c == 116 then 9 else c
    case Hex(_, _, _, _) => 63
  }

  predicate UnitsOk(us: seq<Unit>) { forall k :: 0 <= k < |us| ==> UnitOk(us[k]) }

  function UnitsBytes(us: seq<Unit>): seq<byte> {
    if us == [] then [] else UnitBytes(us[0]) + UnitsBytes(us[1..])
  }

  function UnitsMean(us: seq<Unit>): (t: seq<byte>)
    ensures |t| == |us|
  {
    seq(|us|, k requires 0 <= k < |us| => UnitMeans(us[k]))
  }

  predicate DigitsOk(ds: seq<byte>) { ds != [] && forall k :: 0 <= k < |ds| ==> 48 <= ds[k] <= 57 }

  function Decimal(ds: seq<byte>): int {
    if ds == [] then 0 else Decimal(ds[..|ds| - 1]) * 10 + ds[|ds| - 1] - 48
  }

  /** A number of section 6 of RFC 8259; one without fraction and exponent must fit 64 bits. */
  predicate NumberOk(n: Number) {
    && DigitsOk(n.whole) && (n.whole[0] == 48 ==> |n.whole| == 1)
    && (n.frac.Some? ==> DigitsOk(n.frac.value))
    && (n.exp.Some? ==>
         && (n.exp.value.letter == 101 || n.exp.value.letter == 69) && DigitsOk(n.exp.value.digits)
         && (n.exp.value.sign.Some? ==> n.exp.value.sign.value == 43 || n.exp.value.sign.value == 45))
    && (n.frac.None? && n.exp.None? ==>
         if n.neg then Decimal(n.whole) <= 0x8000_0000_0000_0000 else Decimal(n.whole) < 0x8000_0000_0000_0000)
  }

  function NumberBytes(n: Number): seq<byte> {
    (if n.neg then [45] else []) + n.whole + (if n.frac.Some? then [46] + n.frac.value else []) +
    (if n.exp.None? then []
     else
       [n.exp.value.letter] + (if n.exp.value.sign.Some? then [n.exp.value.sign.value] else []) + n.exp.value.digits)
  }

  function Bytes(d: Doc): seq<byte>
    decreases d, 0
  {
    match d
    case Txt(us) => [34] + UnitsBytes(us) + [34]
    case Truth(b) => if b then [116, 114, 117, 101] else [102, 97, 108, 115, 101]
    case Nothing => [110, 117, 108, 108]
    case Num(n) => NumberBytes(n)
    case Object(items, tail) => [123] + (ItemsBytes(items) + tail + [125])
    case List(items, tail) => [91] + (ItemsBytes(items) + tail + [93])
  }

  function KeyBytes(key: Option<Key>): seq<byte> {
    match key
    case None => []
    case Some(l) => [34] + UnitsBytes(l.units) + [34] + l.before + [58] + l.after
  }

  function ItemsBytes(items: seq<Item>): seq<byte>
    decreases items, |items|
  {
    if items == [] then []
    else items[0].gap + (KeyBytes(items[0].key) + Bytes(items[0].value)) + ItemsBytes(items[1..])
  }

  // ---------------------------------------------------------------- which are allowed

  /** Values that do not tell by themselves where they end. */
  predicate Open(d: Doc) { d.Truth? || d.Nothing? || d.Num? }

  predicate DocOk(d: Doc)
    decreases d, 0
  {
    match d
    case Txt(us) => UnitsOk(us)
    case Truth(_) => true
    case Nothing => true
    case Num(n) => NumberOk(n)
    case Object(items, tail) => ItemsOk(items, true) && Gap(tail)
    case List(items, tail) => ItemsOk(items, false) && Gap(tail)
  }

  predicate KeyOk(key: Option<Key>, inObject: bool) {
    match key
    case None => !inObject
    case Some(l) => inObject && UnitsOk(l.units) && Blanks(l.before) && Blanks(l.after)
  }

  predicate ItemsOk(items: seq<Item>, inObject: bool)
    decreases items, |items|
  {
    items == [] ||
    (&& Gap(items[0].gap) && KeyOk(items[0].key, inObject) && DocOk(items[0].value)
     && (|items| > 1 && Open(items[0].value) ==> items[1].gap != [])
     && ItemsOk(items[1..], inObject))
  }

  /** A text: blanks, a container, and anything. */
  predicate IsText(s: seq<byte>, lead: seq<byte>, d: Doc, rest: seq<byte>) {
    Blanks(lead) && (d.Object? || d.List?) && DocOk(d) && s == lead + Bytes(d) + rest
  }

  // ---------------------------------------------------------------- the same as the scanners' own grammar

  lemma UnitSame(u: Unit)
    ensures UnitOk(u) <==> u.Valid()
    ensures UnitBytes(u) == u.Render() && (UnitOk(u) ==> UnitMeans(u) == u.Means())
  {
  }

  lemma {:induction false} UnitsSame(us: seq<Unit>)
    ensures UnitsOk(us) <==> JsonLex.AllValid(us)
    ensures UnitsBytes(us) == RenderAll(us) && (UnitsOk(us) ==> UnitsMean(us) == MeansAll(us))
    decreases |us|
  {
    hide UnitOk, UnitBytes, UnitMeans, Unit.Valid, Unit.Render, Unit.Means;
    forall k | 0 <= k < |us| ensures UnitOk(us[k]) <==> us[k].Valid() { UnitSame(us[k]); }
    if us != [] {
      UnitSame(us[0]);
      UnitsSame(us[1..]);
      if UnitsOk(us) { assert UnitsMean(us) == [UnitMeans(us[0])] + UnitsMean(us[1..]); }
    }
  }

  lemma {:induction false} DecimalIsVal(ds: seq<byte>)
    requires AllDigits(ds)
    ensures Decimal(ds) == Val(ds)
    decreases |ds|
  {
    hide Val;
    if ds == [] {
      ValNothing();
    } else {
      var front, last := ds[..|ds| - 1], ds[|ds| - 1];
      DecimalIsVal(front);
      ValConcat(front, [last]);
      ValOne(last);
      assert front + [last] == ds;
    }
  }

  lemma ValOne(d: byte)
    requires IsDigit(d)
    ensures AllDigits([d]) && Val([d]) == d - 48 && Pow10(1) == 10
  {
    assert Pow10(0) == 1;
    assert [d][1..] == [];
  }

  lemma NumberSame(n: Number)
    ensures NumberOk(n) <==> n.Valid() && n.Accepted()
    ensures NumberBytes(n) == n.Render()
  {
    hide Decimal, Val;
    if DigitsOk(n.whole) { DecimalIsVal(n.whole); }
    NumberRendering(n);
  }

  lemma NumberRendering(n: Number)
    ensures NumberBytes(n) == n.Render()
  {
    var f, e := n.RenderFrac(), n.RenderExp();
    assert n.RenderSign() == (if n.neg then [45] else []) && f == (if n.frac.Some? then [46] + n.frac.value else []);
    ThreeJoins(n.RenderSign(), n.whole, f, e);
  }

  lemma ThreeJoins(a: seq<byte>, b: seq<byte>, c: seq<byte>, d: seq<byte>)
    ensures a + b + c + d == a + (b + (c + d))
  {
  }

  // ---------------------------------------------------------------- where the parts lie

  predicate Lies(s: seq<byte>, i: nat, bs: seq<byte>) { i + |bs| <= |s| && s[i..i + |bs|] == bs }

  lemma LiesSplit(s: seq<byte>, i: nat, a: seq<byte>, b: seq<byte>)
    ensures Lies(s, i, a + b) <==> Lies(s, i, a) && Lies(s, i + |a|, b)
  {
    if i + |a| + |b| <= |s| { Slices(s, i, a, b); }
  }

  lemma LiesByte(s: seq<byte>, i: nat, bs: seq<byte>, k: nat)
    requires Lies(s, i, bs) && k < |bs|
    ensures s[i + k] == bs[k]
  {
    assert s[i..i + |bs|][k] == s[i + k];
  }

  /** The tree of a document that is written from `at` on. */
  function TreeAt(d: Doc, name: Option<Str>, at: nat): Tree
    decreases d, 0
  {
    match d
    case Txt(us) => Leaf(name, Text, Str(at + 1, UnitsMean(us)))
    case Truth(_) => Leaf(name, Boolean, Str(at, Bytes(d)))
    case Nothing => Leaf(name, Null, Str(at, Bytes(d)))
    case Num(n) => Leaf(name, if n.frac.None? && n.exp.None? then Integer else Real, Str(at, NumberBytes(n)))
    case Object(items, _) => Branch(name, Obj, TreesAt(items, at + 1))
    case List(items, _) => Branch(name, Array, TreesAt(items, at + 1))
  }

  function TreesAt(items: seq<Item>, at: nat): (ts: seq<Tree>)
    ensures |ts| == |items|
    decreases items, |items|
  {
    if items == [] then []
    else
      var j := at + |items[0].gap|;
      var v := j + |KeyBytes(items[0].key)|;
      [TreeAt(items[0].value, KeyAt(items[0].key, j), v)] + TreesAt(items[1..], v + |Bytes(items[0].value)|)
  }

  function KeyAt(key: Option<Key>, at: nat): Option<Str> {
    if key.Some? then Some(Str(at + 1, UnitsMean(key.value.units))) else None
  }

  // ---------------------------------------------------------------- what is written is read

  predicate StartsValue(c: byte) { c == 34 || c == 45 || 48 <= c <= 57 || c in {91, 102, 110, 116, 123} }

  lemma FirstByte(d: Doc)
    requires DocOk(d)
    ensures Bytes(d) != [] && StartsValue(Bytes(d)[0])
    ensures Bytes(d)[0] == 123 <==> d.Object?
    ensures Bytes(d)[0] == 91 <==> d.List?
    ensures Bytes(d)[0] == 34 <==> d.Txt?
  {
  }

  lemma {:induction false} BlanksPassed(s: seq<byte>, i: nat, bs: seq<byte>)
    requires Terminated(s) && Lies(s, i, bs) && Blanks(bs) && i + |bs| < |s|
    requires s[i + |bs|] != 0 && !IsBlank(s[i + |bs|])
    ensures GoBlank(s, i) == Some(i + |bs|)
    decreases |bs|
  {
    if bs != [] {
      LiesByte(s, i, bs, 0);
      assert [bs[0]] + bs[1..] == bs;
      LiesSplit(s, i, [bs[0]], bs[1..]);
      BlanksPassed(s, i + 1, bs[1..]);
    }
  }

  /** Blanks and commas make no difference. */
  lemma {:induction false} GapPassed(s: seq<byte>, i: nat, bs: seq<byte>, kind: Kind)
    requires Terminated(s) && Lies(s, i, bs) && Gap(bs) && i + |bs| < |s|
    ensures ReadItems(s, i, kind) == ReadItems(s, i + |bs|, kind)
    decreases |bs|
  {
    hide ReadItems;
    if bs != [] {
      LiesByte(s, i, bs, 0);
      assert [bs[0]] + bs[1..] == bs;
      LiesSplit(s, i, [bs[0]], bs[1..]);
      GapByte(s, i, kind);
      GapPassed(s, i + 1, bs[1..], kind);
    }
  }

  lemma GapByte(s: seq<byte>, i: nat, kind: Kind)
    requires Terminated(s) && i + 1 < |s| && s[i] in {9, 10, 12, 13, 32, 44}
    ensures ReadItems(s, i, kind) == ReadItems(s, i + 1, kind)
  {
    hide ReadItem;
    if s[i] == 44 { assert GoBlank(s, i) == Some(i); }
  }

  /** Where a reader goes on after a value that ends at `end`: there, or behind a blank or comma. */
  predicate GoesOn(s: seq<byte>, end: nat, next: nat) {
    end <= next < |s| && (next == end || (next == end + 1 && s[end] in {9, 10, 12, 13, 32, 44}))
  }

  lemma GoesOnSame(s: seq<byte>, end: nat, next: nat, kind: Kind)
    requires Terminated(s) && GoesOn(s, end, next)
    ensures ReadItems(s, next, kind) == ReadItems(s, end, kind)
  {
    hide ReadItems;
    if next == end + 1 { GapByte(s, end, kind); }
  }

  predicate Ends(c: byte) { c in {9, 10, 12, 13, 32, 44, 93, 125} }

  lemma EndsDelimits(c: byte)
    ensures Ends(c) <==> Delimits(c)
  {
  }

  lemma CutGoesOn(s: seq<byte>, end: nat)
    requires Terminated(s) && end < |s| && Ends(s[end])
    ensures GoesOn(s, end, AfterCut(s, end))
    ensures AfterCut(s, end) == end <==> s[end] == 93 || s[end] == 125
  {
  }

  lemma LeafRead(s: seq<byte>, v: nat, d: Doc, name: Option<Str>)
    requires Terminated(s) && Lies(s, v, Bytes(d)) && v + |Bytes(d)| < |s| && DocOk(d) && (d.Txt? || Open(d))
    requires Open(d) ==> Ends(s[v + |Bytes(d)|])
    ensures ReadLeaf(s, v, name).Some? && ReadLeaf(s, v, name).value.0 == TreeAt(d, name, v)
    ensures GoesOn(s, v + |Bytes(d)|, ReadLeaf(s, v, name).value.1)
  {
    hide ReadLeaf, NumberOk, NumberBytes, GoesOn, UnitsOk, UnitsMean, UnitsBytes;
    match d {
      case Txt(us) => TextLeaf(s, v, us, name);
      case Truth(b) => WordLeaf(s, v, Bytes(d), if b then TRUE_TEXT else FALSE_TEXT, Boolean, name);
      case Nothing => WordLeaf(s, v, Bytes(d), NULL_TEXT, Null, name);
      case Num(n) => NumberLeaf(s, v, n, name);
    }
  }

  lemma TextLeaf(s: seq<byte>, v: nat, us: seq<Unit>, name: Option<Str>)
    requires Terminated(s) && UnitsOk(us) && Lies(s, v, [34] + UnitsBytes(us) + [34])
    requires v + |UnitsBytes(us)| + 2 < |s|
    ensures v < |s|
    ensures ReadLeaf(s, v, name) == Some((Leaf(name, Text, Str(v + 1, UnitsMean(us))), v + |UnitsBytes(us)| + 2))
    ensures GoesOn(s, v + |UnitsBytes(us)| + 2, v + |UnitsBytes(us)| + 2)
  {
    hide Scan, UnitsOk, UnitsMean, UnitsBytes;
    TextRead(s, v, us);
  }

  /** A word that is written as it should be, letter by letter. */
  lemma WordLeaf(s: seq<byte>, v: nat, bs: seq<byte>, word: seq<byte>, kind: Kind, name: Option<Str>)
    requires Terminated(s) && Lies(s, v, bs) && v + |bs| < |s| && Ends(s[v + |bs|]) && bs == word
    requires (word == TRUE_TEXT && kind == Boolean) || (word == FALSE_TEXT && kind == Boolean) ||
             (word == NULL_TEXT && kind == Null)
    ensures ReadLeaf(s, v, name).Some? && ReadLeaf(s, v, name).value.0 == Leaf(name, kind, Str(v, bs))
    ensures GoesOn(s, v + |bs|, ReadLeaf(s, v, name).value.1)
  {
    hide GoesOn, AfterCut;
    LiesByte(s, v, bs, 0);
    CutGoesOn(s, v + |bs|);
    EndsDelimits(s[v + |bs|]);
  }

  lemma NumberLeaf(s: seq<byte>, v: nat, n: Number, name: Option<Str>)
    requires Terminated(s) && NumberOk(n) && Lies(s, v, NumberBytes(n)) && v + |NumberBytes(n)| < |s|
    requires Ends(s[v + |NumberBytes(n)|])
    ensures ReadLeaf(s, v, name).Some?
    ensures ReadLeaf(s, v, name).value.0 ==
      Leaf(name, if n.frac.None? && n.exp.None? then Integer else Real, Str(v, NumberBytes(n)))
    ensures GoesOn(s, v + |NumberBytes(n)|, ReadLeaf(s, v, name).value.1)
  {
    hide ReadLeaf, GoesOn, AfterCut, Accept, NumberOk, NumberBytes, Number.Render, Number.Accepted, Number.Valid,
         Delimits;
    NumberStart(s, v, n);
    NumberSame(n);
    CutGoesOn(s, v + |NumberBytes(n)|);
    EndsDelimits(s[v + |NumberBytes(n)|]);
    NumberComplete(s, v, n);
    AcceptLeaf(s, v, n, v + |NumberBytes(n)|, name);
  }

  lemma AcceptLeaf(s: seq<byte>, v: nat, n: Number, end: nat, name: Option<Str>)
    requires Terminated(s) && v < |s| && (s[v] == 45 || 48 <= s[v] <= 57) && Accept(s, v) == Some((n, end))
    ensures ReadLeaf(s, v, name) ==
      Some((Leaf(name, if n.frac.None? && n.exp.None? then Integer else Real, Str(v, s[v..end])), AfterCut(s, end)))
  {
    hide Accept;
  }

  lemma NumberStart(s: seq<byte>, v: nat, n: Number)
    requires NumberOk(n) && Lies(s, v, NumberBytes(n))
    ensures v < |s| && (s[v] == 45 || 48 <= s[v] <= 57)
  {
    LiesByte(s, v, NumberBytes(n), 0);
  }

  lemma TextRead(s: seq<byte>, v: nat, us: seq<Unit>)
    requires Terminated(s) && UnitsOk(us) && Lies(s, v, [34] + UnitsBytes(us) + [34])
    ensures v + 1 < |s| && s[v] == 34
    ensures Scan(s, v + 1) == Some((UnitsMean(us), v + |UnitsBytes(us)| + 2))
  {
    hide Scan, RenderAll, UnitsOk, UnitsBytes, UnitsMean;
    var bs := UnitsBytes(us);
    LiesSplit(s, v, [34] + bs, [34]);
    LiesSplit(s, v, [34], bs);
    LiesByte(s, v, [34], 0);
    LiesByte(s, v + 1 + |bs|, [34], 0);
    NotLast(s, v + 1 + |bs|);
    UnitsSame(us);
    ScanOfUnits(s, v + 1, us);
  }

  lemma KeyRead(s: seq<byte>, j: nat, key: Option<Key>, kind: Kind, v: nat)
    requires Terminated(s) && IsContainer(kind) && KeyOk(key, kind == Obj) && Lies(s, j, KeyBytes(key))
    requires v == j + |KeyBytes(key)| < |s| && StartsValue(s[v])
    ensures s[j] != 0 && ReadLabel(s, j, kind) == Some((KeyAt(key, j), v))
    ensures StartsValue(s[j])
  {
    hide Scan, UnitsOk, UnitsMean, UnitsBytes, GoBlank, ReadName, Lies, Blanks;
    if key.Some? {
      NamedKeyRead(s, j, key.value, v);
    }
  }

  lemma NamedKeyRead(s: seq<byte>, j: nat, l: Key, v: nat)
    requires Terminated(s) && KeyOk(Some(l), true) && Lies(s, j, KeyBytes(Some(l)))
    requires v == j + |KeyBytes(Some(l))| < |s| && StartsValue(s[v])
    ensures s[j] == 34 && ReadName(s, j) == Some((Str(j + 1, UnitsMean(l.units)), v))
  {
    hide Scan, UnitsOk, UnitsMean, UnitsBytes, GoBlank, ReadName, Lies, Blanks, KeyBytes;
    var end := j + |UnitsBytes(l.units)| + 2;
    var colon := end + |l.before|;
    KeyParts(s, j, l);
    TextRead(s, j, l.units);
    NoBlank(s[v]);
    BlanksPassed(s, end, l.before);
    BlanksPassed(s, colon + 1, l.after);
    NameRead(s, j, UnitsMean(l.units), end, colon, v);
  }

  lemma NoBlank(c: byte)
    requires StartsValue(c)
    ensures c != 0 && !IsBlank(c) && c != COMMA && c != CLOSE_ARRAY && c != CLOSE_OBJECT
  {
  }

  lemma KeyParts(s: seq<byte>, j: nat, l: Key)
    requires Lies(s, j, KeyBytes(Some(l)))
    ensures var end := j + |UnitsBytes(l.units)| + 2;
      var colon := end + |l.before|;
      && Lies(s, j, [34] + UnitsBytes(l.units) + [34]) && Lies(s, end, l.before)
      && colon < |s| && s[colon] == 58 && Lies(s, colon + 1, l.after)
      && j + |KeyBytes(Some(l))| == colon + 1 + |l.after|
  {
    hide UnitsBytes, Lies;
    var str := [34] + UnitsBytes(l.units) + [34];
    LiesSplit(s, j, str + l.before + [58], l.after);
    LiesSplit(s, j, str + l.before, [58]);
    LiesSplit(s, j, str, l.before);
    var colon := j + |str| + |l.before|;
    ColonLies(s, colon);
  }

  lemma ColonLies(s: seq<byte>, colon: nat)
    requires Lies(s, colon, [58])
    ensures colon < |s| && s[colon] == 58
  {
    LiesByte(s, colon, [58], 0);
  }

  lemma NameRead(s: seq<byte>, j: nat, text: seq<byte>, end: nat, colon: nat, v: nat)
    requires Terminated(s) && j + 1 < |s| && s[j] == 34 && Scan(s, j + 1) == Some((text, end)) && end < |s|
    requires GoBlank(s, end) == Some(colon) && colon + 1 < |s| && s[colon] == 58 && GoBlank(s, colon + 1) == Some(v)
    ensures ReadName(s, j) == Some((Str(j + 1, text), v))
  {
    hide Scan, GoBlank;
  }

  function KindOf(inObject: bool): Kind { if inObject then Obj else Array }

  function Closer(inObject: bool): byte { if inObject then 125 else 93 }

  /** The items of a container and its closing bracket are read as the trees of the items. */
  lemma {:induction false} ItemsRead(s: seq<byte>, i: nat, items: seq<Item>, tail: seq<byte>, inObject: bool)
    requires Terminated(s) && ItemsOk(items, inObject) && Gap(tail)
    requires Lies(s, i, ItemsBytes(items) + tail + [Closer(inObject)])
    ensures var end := i + |ItemsBytes(items)| + |tail| + 1;
      i < end < |s| && ReadItems(s, i, KindOf(inObject)) == Some((TreesAt(items, i), end))
    decreases |s| - i, 1
  {
    hide ReadItems, ReadItem, Lies, Gap, KeyOk, KeyBytes, Bytes, DocOk, KeyAt, TreeAt, Ends;
    var kind := KindOf(inObject);
    if items == [] {
      assert [] + tail + [Closer(inObject)] == tail + [Closer(inObject)];
      TailRead(s, i, tail, inObject);
    } else {
      var it, rest := items[0], items[1..];
      ItemParts(s, i, it, rest, tail, inObject);
      var j := i + |it.gap|;
      var end := j + |KeyBytes(it.key)| + |Bytes(it.value)|;
      GapPassed(s, i, it.gap, kind);
      ItemRead(s, j, it, inObject);
      var (t, next) := ReadItem(s, j, kind).value;
      ItemsFirst(s, j, kind);
      GoesOnSame(s, end, next, kind);
      ItemsRead(s, end, rest, tail, inObject);
    }
  }

  lemma TailRead(s: seq<byte>, i: nat, tail: seq<byte>, inObject: bool)
    requires Terminated(s) && Gap(tail) && Lies(s, i, tail + [Closer(inObject)])
    ensures i + |tail| + 1 < |s|
    ensures ReadItems(s, i, KindOf(inObject)) == Some(([], i + |tail| + 1))
  {
    hide Gap, Lies, ReadItems;
    LiesSplit(s, i, tail, [Closer(inObject)]);
    LiesByte(s, i + |tail|, [Closer(inObject)], 0);
    ByteIn(s, i + |tail|, [Closer(inObject)]);
    NotLast(s, i + |tail|);
    GapPassed(s, i, tail, KindOf(inObject));
    CloserRead(s, i + |tail|, inObject);
  }

  lemma ByteIn(s: seq<byte>, i: nat, bs: seq<byte>)
    requires Lies(s, i, bs)
    ensures i + |bs| <= |s|
  {
  }

  lemma CloserRead(s: seq<byte>, j: nat, inObject: bool)
    requires Terminated(s) && j + 1 < |s| && s[j] == Closer(inObject)
    ensures ReadItems(s, j, KindOf(inObject)) == Some(([], j + 1))
  {
    assert GoBlank(s, j) == Some(j);
  }

  /** Where the parts of the first item lie, and that its value ends where it should. */
  lemma ItemParts(s: seq<byte>, i: nat, it: Item, rest: seq<Item>, tail: seq<byte>, inObject: bool)
    requires Terminated(s) && ItemsOk([it] + rest, inObject) && Gap(tail)
    requires Lies(s, i, ItemsBytes([it] + rest) + tail + [Closer(inObject)])
    ensures var j := i + |it.gap|;
      var end := j + |KeyBytes(it.key)| + |Bytes(it.value)|;
      && ItemsBytes([it] + rest) == it.gap + (KeyBytes(it.key) + Bytes(it.value)) + ItemsBytes(rest)
      && Lies(s, i, it.gap) && Lies(s, j, KeyBytes(it.key) + Bytes(it.value))
      && i <= j < end < |s| && Lies(s, end, ItemsBytes(rest) + tail + [Closer(inObject)])
      && Gap(it.gap) && KeyOk(it.key, inObject) && DocOk(it.value) && ItemsOk(rest, inObject)
      && (Open(it.value) ==> Ends(s[end]))
  {
    hide Lies, Gap, KeyOk, KeyBytes, Bytes, DocOk, Ends;
    var all, core := [it] + rest, KeyBytes(it.key) + Bytes(it.value);
    var more := ItemsBytes(rest) + tail + [Closer(inObject)];
    assert all[0] == it && all[1..] == rest;
    assert ItemsBytes(all) + tail + [Closer(inObject)] == it.gap + (core + more);
    LiesSplit(s, i, it.gap, core + more);
    LiesSplit(s, i + |it.gap|, core, more);
    FirstByte(it.value);
    EndOfValue(s, i + |it.gap| + |core|, rest, tail, inObject);
  }

  lemma EndOfValue(s: seq<byte>, end: nat, rest: seq<Item>, tail: seq<byte>, inObject: bool)
    requires Lies(s, end, ItemsBytes(rest) + tail + [Closer(inObject)]) && Gap(tail)
    requires rest != [] ==> Gap(rest[0].gap)
    ensures end < |s|
    ensures (rest != [] ==> rest[0].gap != []) ==> Ends(s[end])
  {
    hide KeyBytes, Bytes;
    LiesByte(s, end, ItemsBytes(rest) + tail + [Closer(inObject)], 0);
  }

  /** An item without its gap is read as its tree. */
  lemma {:induction false} ItemRead(s: seq<byte>, j: nat, it: Item, inObject: bool)
    requires Terminated(s) && KeyOk(it.key, inObject) && DocOk(it.value)
    requires Lies(s, j, KeyBytes(it.key) + Bytes(it.value)) && j + |KeyBytes(it.key)| + |Bytes(it.value)| < |s|
    requires Open(it.value) ==> Ends(s[j + |KeyBytes(it.key)| + |Bytes(it.value)|])
    ensures StartsItem(s, j, KindOf(inObject)) && ReadItem(s, j, KindOf(inObject)).Some?
    ensures var (t, next) := ReadItem(s, j, KindOf(inObject)).value;
      && t == TreeAt(it.value, KeyAt(it.key, j), j + |KeyBytes(it.key)|)
      && GoesOn(s, j + |KeyBytes(it.key)| + |Bytes(it.value)|, next)
    decreases |s| - j, 0
  {
    hide ReadItems, ReadLabel, ReadLeaf, Lies, KeyOk, KeyBytes, KeyAt, Gap, GoesOn, Ends;
    var kind, v, d := KindOf(inObject), j + |KeyBytes(it.key)|, it.value;
    LiesSplit(s, j, KeyBytes(it.key), Bytes(d));
    FirstByte(d);
    LiesByte(s, v, Bytes(d), 0);
    KeyRead(s, j, it.key, kind, v);
    NoBlank(s[j]);
    NotLast(s, v);
    if d.Object? || d.List? {
      var k := d.Object?;
      var inner := ItemsBytes(d.items) + d.tail + [Closer(k)];
      assert Bytes(d) == [if k then 123 else 91] + inner;
      LiesSplit(s, v, [if k then 123 else 91], inner);
      ItemsRead(s, v + 1, d.items, d.tail, k);
      GoesOnHere(s, v + |Bytes(d)|);
    } else {
      LeafRead(s, v, d, KeyAt(it.key, j));
    }
  }

  lemma GoesOnHere(s: seq<byte>, end: nat)
    requires end < |s|
    ensures GoesOn(s, end, end)
  {
  }

  /** A whole text is read as the tree of its document. */
  lemma TextIsRead(s: seq<byte>, lead: seq<byte>, d: Doc, rest: seq<byte>)
    requires Terminated(s) && IsText(s, lead, d, rest)
    ensures |lead| + |Bytes(d)| < |s|
    ensures ReadText(s) == Some((TreeAt(d, None, |lead|), |lead| + |Bytes(d)|))
  {
    hide IsText, ReadItems, ReadText, Lies, Gap, ItemsBytes, ItemsOk, Blanks, GoBlank, Bytes, TreesAt;
    var j, k := |lead|, d.Object?;
    TextParts(s, lead, d, rest);
    NoBlank(s[j]);
    BlanksPassed(s, 0, lead);
    ItemsRead(s, j + 1, d.items, d.tail, k);
    TextFrom(s, j, k);
  }

  lemma TextParts(s: seq<byte>, lead: seq<byte>, d: Doc, rest: seq<byte>)
    requires IsText(s, lead, d, rest)
    ensures Blanks(lead) && Lies(s, 0, lead) && (d.Object? || d.List?) && ItemsOk(d.items, d.Object?) && Gap(d.tail)
    ensures |lead| < |s| && s[|lead|] == (if d.Object? then 123 else 91) && StartsValue(s[|lead|])
    ensures Lies(s, |lead| + 1, ItemsBytes(d.items) + d.tail + [Closer(d.Object?)])
    ensures |Bytes(d)| == 1 + |ItemsBytes(d.items)| + |d.tail| + 1
  {
    hide Lies, ItemsBytes, ItemsOk, Gap, Blanks;
    var open, inner := if d.Object? then 123 else 91, ItemsBytes(d.items) + d.tail + [Closer(d.Object?)];
    WholeLies(s, lead, Bytes(d), rest);
    assert Bytes(d) == [open] + inner;
    LiesSplit(s, |lead|, [open], inner);
    ByteIn(s, |lead|, [open]);
    LiesByte(s, |lead|, [open], 0);
  }

  lemma TextFrom(s: seq<byte>, j: nat, k: bool)
    requires Terminated(s) && GoBlank(s, 0) == Some(j) && j + 1 < |s| && s[j] == (if k then 123 else 91)
    requires ReadItems(s, j + 1, KindOf(k)).Some?
    ensures var (kids, end) := ReadItems(s, j + 1, KindOf(k)).value;
      ReadText(s) == Some((Branch(None, KindOf(k), kids), end))
  {
    hide ReadItems, GoBlank;
  }

  lemma WholeLies(s: seq<byte>, a: seq<byte>, b: seq<byte>, c: seq<byte>)
    requires s == a + b + c
    ensures Lies(s, 0, a) && Lies(s, |a|, b) && Lies(s, |a| + |b|, c)
  {
  }

  lemma RestIs(s: seq<byte>, lead: seq<byte>, d: Doc, rest: seq<byte>)
    requires IsText(s, lead, d, rest)
    ensures |lead| + |Bytes(d)| <= |s| && s[|lead| + |Bytes(d)|..] == rest
  {
    hide Bytes, DocOk, Blanks;
  }

  // ---------------------------------------------------------------- what is read is written so

  lemma {:induction false} SkippedBlanks(s: seq<byte>, i: nat)
    requires Terminated(s) && i < |s| && GoBlank(s, i).Some?
    ensures Blanks(s[i..GoBlank(s, i).value])
    decreases |s| - i
  {
    if IsBlank(s[i]) {
      SkippedBlanks(s, i + 1);
      var j := GoBlank(s, i).value;
      assert s[i..j] == [s[i]] + s[i + 1..j];
    }
  }

  lemma LiesSlice(s: seq<byte>, i: nat, j: nat)
    requires i <= j <= |s|
    ensures Lies(s, i, s[i..j]) && |s[i..j]| == j - i
  {
  }

  /** A string that is read, quotes included. */
  lemma TextShape(s: seq<byte>, v: nat) returns (us: seq<Unit>)
    requires Terminated(s) && v + 1 < |s| && s[v] == 34 && Scan(s, v + 1).Some?
    ensures UnitsOk(us) && Lies(s, v, [34] + UnitsBytes(us) + [34])
    ensures Scan(s, v + 1).value.1 == v + |UnitsBytes(us)| + 2
  {
    hide Scan, RenderAll, UnitsOk, UnitsBytes, Lies;
    us := UnitsOfScan(s, v + 1);
    UnitsSame(us);
    var bs, end := UnitsBytes(us), Scan(s, v + 1).value.1;
    ScanEnd(s, v + 1);
    QuotedLies(s, v, bs);
  }

  lemma ScanEnd(s: seq<byte>, i: nat)
    requires Terminated(s) && i < |s| && Scan(s, i).Some?
    ensures i < Scan(s, i).value.1 < |s| && s[Scan(s, i).value.1 - 1] == 34
  {
    hide Scan;
  }

  lemma QuotedLies(s: seq<byte>, v: nat, bs: seq<byte>)
    requires v + |bs| + 2 <= |s| && s[v] == 34 && s[v + 1..v + 1 + |bs|] == bs && s[v + 1 + |bs|] == 34
    ensures Lies(s, v, [34] + bs + [34])
  {
    LiesSplit(s, v, [34] + bs, [34]);
    LiesSplit(s, v, [34], bs);
  }

  lemma KeyShape(s: seq<byte>, j: nat, inObject: bool) returns (key: Option<Key>)
    requires Terminated(s) && j < |s| && s[j] != 0 && ReadLabel(s, j, KindOf(inObject)).Some?
    ensures KeyOk(key, inObject) && Lies(s, j, KeyBytes(key))
    ensures ReadLabel(s, j, KindOf(inObject)).value.1 == j + |KeyBytes(key)|
  {
    if inObject {
      key := NamedKeyShape(s, j);
    } else {
      key := None;
    }
  }

  lemma NamedKeyShape(s: seq<byte>, j: nat) returns (key: Option<Key>)
    requires Terminated(s) && j < |s| && s[j] != 0 && ReadName(s, j).Some?
    ensures KeyOk(key, true) && Lies(s, j, KeyBytes(key)) && ReadName(s, j).value.1 == j + |KeyBytes(key)|
  {
    hide Scan, GoBlank, UnitsOk, UnitsBytes, Blanks, Lies, KeyBytes, ReadName;
    var end, colon, v := NameSteps(s, j);
    var us := TextShape(s, j);
    SkippedBlanks(s, end);
    SkippedBlanks(s, colon + 1);
    LiesSlice(s, end, colon);
    LiesSlice(s, colon + 1, v);
    key := Some(Key(us, s[end..colon], s[colon + 1..v]));
    KeyLies(s, j, key.value);
  }

  lemma NameSteps(s: seq<byte>, j: nat) returns (end: nat, colon: nat, v: nat)
    requires Terminated(s) && j < |s| && s[j] != 0 && ReadName(s, j).Some?
    ensures s[j] == 34 && j + 1 < |s| && Scan(s, j + 1).Some? && Scan(s, j + 1).value.1 == end
    ensures end <= colon < v + 1 && end < |s| && GoBlank(s, end) == Some(colon) && colon + 1 < |s| && s[colon] == 58
    ensures GoBlank(s, colon + 1) == Some(v) && colon + 1 <= v < |s| && ReadName(s, j).value.1 == v
  {
    hide Scan, GoBlank;
    NotLast(s, j);
    end := Scan(s, j + 1).value.1;
    colon := GoBlank(s, end).value;
    NotLast(s, colon);
    v := GoBlank(s, colon + 1).value;
  }

  lemma KeyLies(s: seq<byte>, j: nat, l: Key)
    requires var end := j + |UnitsBytes(l.units)| + 2;
      var colon := end + |l.before|;
      && Lies(s, j, [34] + UnitsBytes(l.units) + [34]) && Lies(s, end, l.before)
      && colon < |s| && s[colon] == 58 && Lies(s, colon + 1, l.after)
    ensures Lies(s, j, KeyBytes(Some(l)))
    ensures |KeyBytes(Some(l))| == |UnitsBytes(l.units)| + 3 + |l.before| + |l.after|
  {
    hide UnitsBytes, Lies;
    var str := [34] + UnitsBytes(l.units) + [34];
    LiesSplit(s, j, str + l.before + [58], l.after);
    LiesSplit(s, j, str + l.before, [58]);
    LiesSplit(s, j, str, l.before);
    OneLies(s, j + |str + l.before|, 58);
  }

  lemma OneLies(s: seq<byte>, i: nat, c: byte)
    requires i < |s| && s[i] == c
    ensures Lies(s, i, [c])
  {
  }

  /** A value without structure that is read: what it is, where it ends and where reading goes on. */
  lemma LeafShape(s: seq<byte>, v: nat, name: Option<Str>) returns (d: Doc)
    requires Terminated(s) && v < |s| && ReadLeaf(s, v, name).Some?
    ensures (d.Txt? || Open(d)) && DocOk(d) && Lies(s, v, Bytes(d)) && v + |Bytes(d)| < |s|
    ensures GoesOn(s, v + |Bytes(d)|, ReadLeaf(s, v, name).value.1)
    ensures Open(d) ==> Ends(s[v + |Bytes(d)|])
    ensures Open(d) && ReadLeaf(s, v, name).value.1 == v + |Bytes(d)| ==>
      s[v + |Bytes(d)|] == 93 || s[v + |Bytes(d)|] == 125
  {
    hide GoesOn, Lies, UnitsOk, UnitsBytes, NumberOk, NumberBytes, Scan, Accept, Literal, Ends;
    if s[v] == 34 {
      var us := TextShape(s, v);
      d := Txt(us);
      ScanEnd(s, v + 1);
      GoesOnHere(s, v + |Bytes(d)|);
    } else if s[v] == 116 {
      d := Truth(true);
      WordShape(s, v, TRUE_TEXT, Boolean, name, Bytes(d));
    } else if s[v] == 102 {
      d := Truth(false);
      WordShape(s, v, FALSE_TEXT, Boolean, name, Bytes(d));
    } else if s[v] == 110 {
      d := Nothing;
      WordShape(s, v, NULL_TEXT, Null, name, Bytes(d));
    } else {
      d := NumberShape(s, v, name);
    }
  }

  lemma WordShape(s: seq<byte>, v: nat, word: seq<byte>, kind: Kind, name: Option<Str>, bs: seq<byte>)
    requires Terminated(s) && v < |s| && word != [] && LiteralLeaf(s, v, name, word, kind).Some? && bs == word
    ensures Lies(s, v, bs) && v + |bs| < |s| && Ends(s[v + |bs|])
    ensures GoesOn(s, v + |bs|, LiteralLeaf(s, v, name, word, kind).value.1)
    ensures LiteralLeaf(s, v, name, word, kind).value.1 == v + |bs| ==> s[v + |bs|] == 93 || s[v + |bs|] == 125
  {
    hide GoesOn, AfterCut, Ends;
    EndsDelimits(s[v + |word|]);
    CutGoesOn(s, v + |word|);
  }

  lemma NumberShape(s: seq<byte>, v: nat, name: Option<Str>) returns (d: Doc)
    requires Terminated(s) && v < |s| && s[v] !in {34, 102, 110, 116} && ReadLeaf(s, v, name).Some?
    ensures d.Num? && DocOk(d) && Lies(s, v, Bytes(d)) && v + |Bytes(d)| < |s| && Ends(s[v + |Bytes(d)|])
    ensures GoesOn(s, v + |Bytes(d)|, ReadLeaf(s, v, name).value.1)
    ensures ReadLeaf(s, v, name).value.1 == v + |Bytes(d)| ==> s[v + |Bytes(d)|] == 93 || s[v + |Bytes(d)|] == 125
  {
    hide GoesOn, AfterCut, Ends, Accept, NumberOk, NumberBytes, Delimits;
    hide Number.Render, Number.Valid, Number.Accepted, Number.IsInteger;
    var (n, end) := Accept(s, v).value;
    NumberSound(s, v);
    NumberSame(n);
    d := Num(n);
    EndsDelimits(s[end]);
    CutGoesOn(s, end);
    LiesSlice(s, v, end);
  }

  /** An item that is read, gap aside. */
  lemma {:induction false} ItemShape(s: seq<byte>, j: nat, inObject: bool) returns (it: Item)
    requires Terminated(s) && j < |s| && s[j] != 0 && ReadItem(s, j, KindOf(inObject)).Some?
    ensures it.gap == [] && KeyOk(it.key, inObject) && DocOk(it.value)
    ensures var end := j + |KeyBytes(it.key)| + |Bytes(it.value)|;
      && end < |s| && Lies(s, j, KeyBytes(it.key) + Bytes(it.value))
      && GoesOn(s, end, ReadItem(s, j, KindOf(inObject)).value.1)
      && (Open(it.value) ==> Ends(s[end]))
      && (Open(it.value) && ReadItem(s, j, KindOf(inObject)).value.1 == end ==> s[end] == 93 || s[end] == 125)
    decreases |s| - j, 0
  {
    hide ReadItems, ReadLabel, ReadLeaf, Lies, KeyOk, KeyBytes, GoesOn, Ends;
    var key := KeyShape(s, j, inObject);
    var (name, v) := ReadLabel(s, j, KindOf(inObject)).value;
    NotLast(s, v);
    if s[v] == 123 || s[v] == 91 {
      var k := s[v] == 123;
      var items, tail := ItemsShape(s, v + 1, k);
      var d := if k then Object(items, tail) else List(items, tail);
      ContainerLies(s, v, items, tail, k, d);
      it := Item([], key, d);
      GoesOnHere(s, v + |Bytes(d)|);
    } else {
      var d := LeafShape(s, v, name);
      it := Item([], key, d);
    }
    LiesSplit(s, j, KeyBytes(key), Bytes(it.value));
  }

  lemma ContainerLies(s: seq<byte>, v: nat, items: seq<Item>, tail: seq<byte>, k: bool, d: Doc)
    requires v < |s| && s[v] == (if k then 123 else 91) && d == if k then Object(items, tail) else List(items, tail)
    requires Lies(s, v + 1, ItemsBytes(items) + tail + [Closer(k)])
    ensures Lies(s, v, Bytes(d)) && |Bytes(d)| == |ItemsBytes(items)| + |tail| + 2
  {
    hide ItemsBytes;
    var open, inner := if k then 123 else 91, ItemsBytes(items) + tail + [Closer(k)];
    assert Bytes(d) == [open] + inner;
    LiesSplit(s, v, [open], inner);
  }

  /** Some blanks or commas more in front. */
  lemma GapMore(q: seq<byte>, items: seq<Item>, tail: seq<byte>, inObject: bool)
    returns (items': seq<Item>, tail': seq<byte>)
    requires Gap(q) && ItemsOk(items, inObject) && Gap(tail)
    ensures ItemsOk(items', inObject) && Gap(tail')
    ensures ItemsBytes(items') + tail' == q + (ItemsBytes(items) + tail)
    ensures |items'| == |items| && (items' != [] ==> items'[0].gap == q + items[0].gap)
  {
    hide KeyOk, KeyBytes, Bytes, DocOk;
    if items == [] {
      items', tail' := [], q + tail;
      assert [] + tail' == q + ([] + tail);
    } else {
      var it := items[0].(gap := q + items[0].gap);
      items', tail' := [it] + items[1..], tail;
      assert items'[1..] == items[1..];
      var core := KeyBytes(it.key) + Bytes(it.value);
      FourJoins(q, items[0].gap, core, ItemsBytes(items[1..]), tail);
    }
  }

  lemma FourJoins(q: seq<byte>, a: seq<byte>, b: seq<byte>, c: seq<byte>, d: seq<byte>)
    ensures ((q + a) + b + c) + d == q + ((a + b + c) + d)
  {
  }

  /** The rest of a container that is read. */
  lemma {:induction false} ItemsShape(s: seq<byte>, i: nat, inObject: bool) returns (items: seq<Item>, tail: seq<byte>)
    requires Terminated(s) && i < |s| && ReadItems(s, i, KindOf(inObject)).Some?
    ensures ItemsOk(items, inObject) && Gap(tail)
    ensures Lies(s, i, ItemsBytes(items) + tail + [Closer(inObject)])
    ensures ReadItems(s, i, KindOf(inObject)).value.1 == i + |ItemsBytes(items)| + |tail| + 1
    decreases |s| - i, 2
  {
    hide ReadItem, Lies, ItemsBytes, ItemsOk, Gap;
    var kind := KindOf(inObject);
    var j := GoBlank(s, i).value;
    NotLast(s, j);
    SkippedBlanks(s, i);
    BlanksGap(s[i..j]);
    LiesSlice(s, i, j);
    if s[j] == 44 {
      var more, end := ItemsShape(s, j + 1, inObject);
      LiesSlice(s, i, j + 1);
      CommaGap(s, i, j);
      items, tail := GapMore(s[i..j + 1], more, end, inObject);
      Moved(s, i, s[i..j + 1], ItemsBytes(more) + end, ItemsBytes(items) + tail, [Closer(inObject)]);
    } else if s[j] == Closer(inObject) {
      items, tail := [], s[i..j];
      NoItems(inObject);
      CloserLies(s, i, j, inObject);
    } else {
      items, tail := ItemsShapeFrom(s, i, j, inObject);
    }
  }

  lemma NoItems(inObject: bool)
    ensures ItemsOk([], inObject) && ItemsBytes([]) == []
  {
  }

  lemma CloserLies(s: seq<byte>, i: nat, j: nat, inObject: bool)
    requires i <= j < |s| && s[j] == Closer(inObject)
    ensures Lies(s, i, [] + s[i..j] + [Closer(inObject)])
  {
    assert [] + s[i..j] == s[i..j];
    LiesSlice(s, i, j);
    LiesSplit(s, i, s[i..j], [Closer(inObject)]);
  }

  lemma BlanksGap(bs: seq<byte>)
    requires Blanks(bs)
    ensures Gap(bs)
  {
  }

  lemma CommaGap(s: seq<byte>, i: nat, j: nat)
    requires i <= j < |s| && Gap(s[i..j]) && s[j] in {9, 10, 12, 13, 32, 44}
    ensures Gap(s[i..j + 1])
  {
    assert s[i..j + 1] == s[i..j] + [s[j]];
  }

  /** What lies behind some blanks and commas lies there with them in front. */
  lemma Moved(s: seq<byte>, i: nat, q: seq<byte>, x: seq<byte>, y: seq<byte>, close: seq<byte>)
    requires Lies(s, i, q) && Lies(s, i + |q|, x + close) && y == q + x
    ensures Lies(s, i, y + close) && |y| == |q| + |x|
  {
    hide Lies;
    assert y + close == q + (x + close);
    LiesSplit(s, i, q, x + close);
  }

  lemma {:induction false} ItemsShapeFrom(s: seq<byte>, i: nat, j: nat, inObject: bool)
    returns (items: seq<Item>, tail: seq<byte>)
    requires Terminated(s) && i <= j < |s| && ReadItems(s, i, KindOf(inObject)).Some?
    requires GoBlank(s, i) == Some(j) && s[j] != 44 && s[j] != Closer(inObject) && Gap(s[i..j])
    ensures ItemsOk(items, inObject) && Gap(tail)
    ensures Lies(s, i, ItemsBytes(items) + tail + [Closer(inObject)])
    ensures ReadItems(s, i, KindOf(inObject)).value.1 == i + |ItemsBytes(items)| + |tail| + 1
    decreases |s| - j, 1
  {
    hide ReadItems, ReadItem, Lies, ItemsBytes, ItemsOk, Gap, GoesOn, Ends;
    var kind := KindOf(inObject);
    ItemSteps(s, i, j, inObject);
    var it := ItemShape(s, j, inObject);
    var (t, next) := ReadItem(s, j, kind).value;
    var core := KeyBytes(it.key) + Bytes(it.value);
    var end := j + |core|;
    FirstByte(it.value);
    NextGap(s, end, next);
    var more, left := ItemsShape(s, next, inObject);
    var more', left' := GapMore(s[end..next], more, left, inObject);
    LiesSlice(s, end, next);
    Moved(s, end, s[end..next], ItemsBytes(more) + left, ItemsBytes(more') + left', [Closer(inObject)]);
    if Open(it.value) && next == end && more != [] {
      NoCloser(s, end, more, left, inObject);
    }
    items, tail := [it.(gap := s[i..j])] + more', left';
    LiesSlice(s, i, j);
    ItemsJoin(s, i, s[i..j], it, more', left', inObject);
  }

  lemma ItemSteps(s: seq<byte>, i: nat, j: nat, inObject: bool)
    requires Terminated(s) && i <= j < |s| && ReadItems(s, i, KindOf(inObject)).Some?
    requires GoBlank(s, i) == Some(j) && s[j] != 44 && s[j] != Closer(inObject)
    ensures s[j] != 0 && ReadItem(s, j, KindOf(inObject)).Some?
    ensures var next := ReadItem(s, j, KindOf(inObject)).value.1;
      && ReadItems(s, next, KindOf(inObject)).Some?
      && ReadItems(s, i, KindOf(inObject)).value.1 == ReadItems(s, next, KindOf(inObject)).value.1
  {
    hide ReadItem;
  }

  lemma NextGap(s: seq<byte>, end: nat, next: nat)
    requires GoesOn(s, end, next)
    ensures end <= next < |s| && Gap(s[end..next]) && (next == end || next == end + 1)
  {
  }

  /** An item does not start with a closing bracket. */
  lemma NoCloser(s: seq<byte>, end: nat, items: seq<Item>, tail: seq<byte>, inObject: bool)
    requires items != [] && ItemsOk(items, inObject) && Lies(s, end, ItemsBytes(items) + tail + [Closer(inObject)])
    ensures end < |s| && s[end] != 93 && s[end] != 125
  {
    hide Bytes, DocOk, UnitsBytes;
    var all, it := ItemsBytes(items) + tail + [Closer(inObject)], items[0];
    FirstByte(it.value);
    LiesByte(s, end, all, 0);
    if it.gap != [] {
      assert all[0] == it.gap[0];
    } else if it.key.Some? {
      assert all[0] == 34;
    } else {
      assert all[0] == Bytes(it.value)[0];
    }
  }

  lemma ItemsJoin(s: seq<byte>, i: nat, gap: seq<byte>, it: Item, more: seq<Item>, tail: seq<byte>, inObject: bool)
    requires Gap(gap) && KeyOk(it.key, inObject) && DocOk(it.value) && ItemsOk(more, inObject)
    requires Open(it.value) && more != [] ==> more[0].gap != []
    requires Lies(s, i, gap) && Lies(s, i + |gap|, KeyBytes(it.key) + Bytes(it.value))
    requires Lies(s, i + |gap| + |KeyBytes(it.key)| + |Bytes(it.value)|, ItemsBytes(more) + tail + [Closer(inObject)])
    ensures var items := [it.(gap := gap)] + more;
      && ItemsOk(items, inObject) && Lies(s, i, ItemsBytes(items) + tail + [Closer(inObject)])
      && |ItemsBytes(items)| == |gap| + |KeyBytes(it.key)| + |Bytes(it.value)| + |ItemsBytes(more)|
  {
    hide Lies, Gap, KeyOk, KeyBytes, Bytes, DocOk;
    var items := [it.(gap := gap)] + more;
    assert items[0] == it.(gap := gap) && items[1..] == more;
    var core, rest := KeyBytes(it.key) + Bytes(it.value), ItemsBytes(more) + tail + [Closer(inObject)];
    LiesSplit(s, i, gap, core + rest);
    LiesSplit(s, i + |gap|, core, rest);
    assert ItemsBytes(items) + tail + [Closer(inObject)] == gap + (core + rest);
  }

  /** Every text that is read is blanks, a document and anything. */
  lemma TextShapeOf(s: seq<byte>) returns (lead: seq<byte>, d: Doc, rest: seq<byte>)
    requires Terminated(s) && ReadText(s).Some?
    ensures IsText(s, lead, d, rest)
  {
    hide ReadItems, Blanks, ItemsOk, ItemsBytes, Bytes, Lies, Gap;
    var j := GoBlank(s, 0).value;
    NotLast(s, j);
    SkippedBlanks(s, 0);
    var k := s[j] == 123;
    var items, tail := ItemsShape(s, j + 1, k);
    d := if k then Object(items, tail) else List(items, tail);
    ContainerLies(s, j, items, tail, k, d);
    ByteIn(s, j, Bytes(d));
    lead, rest := s[..j], s[j + |Bytes(d)|..];
    WholeIs(s, j, Bytes(d));
    assert s[0..j] == s[..j];
  }

  lemma WholeIs(s: seq<byte>, j: nat, bs: seq<byte>)
    requires Lies(s, j, bs)
    ensures s == s[..j] + bs + s[j + |bs|..]
  {
  }

  // ---------------------------------------------------------------- what a pool shows

  /** A C string: the text and a NUL. */
  predicate Says(buf: seq<byte>, pos: int, text: seq<byte>) {
    0 <= pos && pos + |text| < |buf| && buf[pos..pos + |text|] == text && buf[pos + |text|] == 0
  }

  /** How many nodes a document takes. */
  function Nodes(d: Doc): nat
    decreases d, 0
  {
    1 + if d.Object? || d.List? then NodesOf(d.items) else 0
  }

  function NodesOf(items: seq<Item>): nat
    decreases items, |items|
  {
    if items == [] then 0 else Nodes(items[0].value) + NodesOf(items[1..])
  }

  /** Node `i` is the document: its kind, its name and its text are right, and from its child on the
      sibling links lead through its items, in order, to the end. */
  predicate Shows(buf: seq<byte>, ns: seq<Node>, i: int, d: Doc, key: Option<Key>)
    decreases d, 0
  {
    && 0 <= i < |ns|
    && (if key.None? then ns[i].name == -1 else Says(buf, ns[i].name, UnitsMean(key.value.units)))
    && match d
       case Txt(us) => ns[i].kind == Text && ns[i].u.Value? && Says(buf, ns[i].u.pos, UnitsMean(us))
       case Truth(_) => ns[i].kind == Boolean && ns[i].u.Value? && Says(buf, ns[i].u.pos, Bytes(d))
       case Nothing => ns[i].kind == Null && ns[i].u.Value? && Says(buf, ns[i].u.pos, Bytes(d))
       case Num(n) =>
         && (n.frac.None? && n.exp.None? ==> ns[i].kind == Integer)
         && (n.frac.Some? || n.exp.Some? ==> ns[i].kind == Real)
         && ns[i].u.Value? && Says(buf, ns[i].u.pos, NumberBytes(n))
       case Object(items, _) => ns[i].kind == Obj && ns[i].u.Kids? && Chain(buf, ns, ns[i].u.child, items)
       case List(items, _) => ns[i].kind == Array && ns[i].u.Kids? && Chain(buf, ns, ns[i].u.child, items)
  }

  predicate Chain(buf: seq<byte>, ns: seq<Node>, i: int, items: seq<Item>)
    decreases items, |items|
  {
    if items == [] then i == -1
    else 0 <= i < |ns| && Shows(buf, ns, i, items[0].value, items[0].key) && Chain(buf, ns, ns[i].sibling, items[1..])
  }

  predicate Named(key: Option<Key>, name: Option<Str>) {
    match key
    case None => name == None
    case Some(l) => name.Some? && name.value.text == UnitsMean(l.units)
  }

  ghost predicate Stands(buf: seq<byte>, strs: set<Str>) { forall st :: st in strs ==> Holds(buf, st.pos, st.text) }

  lemma {:induction false} DocShows(buf: seq<byte>, ns: seq<Node>, d: Doc, key: Option<Key>, name: Option<Str>, at: nat,
                                    i: nat, sibling: int)
    requires var t := TreeAt(d, name, at);
      i + Size(t) <= |ns| && ns[i..i + Size(t)] == Layout(t, i, sibling) && Stands(buf, Strs(t))
    requires Named(key, name)
    ensures Shows(buf, ns, i, d, key) && ns[i].sibling == sibling
    decreases d, 0
  {
    hide Bytes, NumberBytes, UnitsMean, LayoutAll, StrsAll, TreesAt, Chain, SizeAll;
    var t := TreeAt(d, name, at);
    assert ns[i..i + Size(t)][0] == ns[i];
    if name.Some? { assert name.value in Strs(t); }
    if d.Object? || d.List? {
      var ts := TreesAt(d.items, at + 1);
      InnerLayout(ns, t, i, sibling, ts);
      StandsLess(buf, Strs(t), StrsAll(ts));
      ChainShows(buf, ns, d.items, at + 1, 0, ts, i + 1);
      FirstLink(ts, i + 1);
    } else {
      assert t.value in Strs(t);
    }
  }

  lemma StandsLess(buf: seq<byte>, a: set<Str>, b: set<Str>)
    requires Stands(buf, a) && b <= a
    ensures Stands(buf, b)
  {
  }

  lemma FirstLink(ts: seq<Tree>, first: nat)
    ensures SizeAll(ts[..0]) == 0
    ensures Links(ts, first, false).Kids? && Links(ts, first, false).child == if ts == [] then -1 else first
  {
  }

  lemma InnerLayout(ns: seq<Node>, t: Tree, i: nat, sibling: int, ts: seq<Tree>)
    requires t.Branch? && t.kids == ts && i + Size(t) <= |ns| && ns[i..i + Size(t)] == Layout(t, i, sibling)
    ensures Size(t) == 1 + SizeAll(ts) && ns[i] == Node(sibling, NamePos(t.name), Links(ts, i + 1, false), t.kind)
    ensures ns[i + 1..i + 1 + SizeAll(ts)] == LayoutAll(ts, i + 1, NIL)
  {
    hide LayoutAll, SizeAll;
    var all := ns[i..i + Size(t)];
    assert all[0] == ns[i] && all[1..] == ns[i + 1..i + 1 + SizeAll(ts)];
  }

  /** The trees of the items one by one. */
  lemma {:induction false} TreeOfItem(items: seq<Item>, at: nat, k: nat) returns (v: nat, name: Option<Str>)
    requires k < |items|
    ensures TreesAt(items, at)[k] == TreeAt(items[k].value, name, v) && Named(items[k].key, name)
    decreases |items|
  {
    hide TreeAt, KeyBytes, Bytes, UnitsMean;
    var j := at + |items[0].gap|;
    v := j + |KeyBytes(items[0].key)|;
    if k == 0 {
      name := KeyAt(items[0].key, j);
    } else {
      var end := v + |Bytes(items[0].value)|;
      v, name := TreeOfItem(items[1..], end, k - 1);
      assert TreesAt(items, at)[k] == TreesAt(items[1..], end)[k - 1] && items[1..][k - 1] == items[k];
    }
  }

  lemma {:induction false} StrsOfOne(ts: seq<Tree>, k: nat)
    requires k < |ts|
    ensures Strs(ts[k]) <= StrsAll(ts)
    decreases |ts|
  {
    hide Strs;
    if k < |ts| - 1 {
      StrsOfOne(ts[..|ts| - 1], k);
      assert ts[..|ts| - 1][k] == ts[k];
    }
  }

  lemma {:induction false} ChainShows(buf: seq<byte>, ns: seq<Node>, items: seq<Item>, at: nat, k: nat, ts: seq<Tree>,
                                      first: nat)
    requires k <= |items| == |ts| && ts == TreesAt(items, at) && first + SizeAll(ts) <= |ns|
    requires ns[first..first + SizeAll(ts)] == LayoutAll(ts, first, NIL) && Stands(buf, StrsAll(ts))
    ensures Chain(buf, ns, if k < |items| then first + SizeAll(ts[..k]) else -1, items[k..])
    decreases items, |items| - k
  {
    hide TreesAt, TreeAt, Shows, SizeAll, LayoutAll, Layout, Size, StrsAll, Strs, Stands;
    if k < |items| {
      var here := first + SizeAll(ts[..k]);
      var v, name := TreeOfItem(items, at, k);
      SiblingAt(ts, first, NIL, k);
      StrsOfOne(ts, k);
      StandsLess(buf, StrsAll(ts), Strs(ts[k]));
      var next := if k + 1 < |ts| then here + Size(ts[k]) else NIL;
      PartOfPart(ns, first, SizeAll(ts), SizeAll(ts[..k]), Size(ts[k]));
      DocShows(buf, ns, items[k].value, items[k].key, name, v, here, next);
      ChainShows(buf, ns, items, at, k + 1, ts, first);
      assert ts[..k + 1] == ts[..k] + [ts[k]];
      SizeAllPush(ts[..k], ts[k]);
      ChainStep(buf, ns, here, items, k, next);
    } else {
      assert items[k..] == [];
    }
  }

  lemma ChainStep(buf: seq<byte>, ns: seq<Node>, i: int, items: seq<Item>, k: nat, next: int)
    requires k < |items| && 0 <= i < |ns| && Shows(buf, ns, i, items[k].value, items[k].key) && ns[i].sibling == next
    requires Chain(buf, ns, next, items[k + 1..])
    ensures Chain(buf, ns, i, items[k..])
  {
    hide Shows;
    assert items[k..][0] == items[k] && items[k..][1..] == items[k + 1..];
  }

  lemma PartOfPart(ns: seq<Node>, a: nat, n: nat, b: nat, m: nat)
    requires a + n <= |ns| && b + m <= n
    ensures ns[a..a + n][b..b + m] == ns[a + b..a + b + m]
  {
    var x, y := ns[a..a + n][b..b + m], ns[a + b..a + b + m];
    forall k | 0 <= k < m ensures x[k] == y[k] { assert ns[a..a + n][b + k] == ns[a + b + k]; }
  }

  lemma {:induction false} SizeIsNodes(d: Doc, name: Option<Str>, at: nat)
    ensures Size(TreeAt(d, name, at)) == Nodes(d)
    decreases d, 0
  {
    hide TreesAt, SizeAll, NodesOf;
    if d.Object? || d.List? { SizeIsNodesOf(d.items, at + 1); }
  }

  lemma {:induction false} SizeIsNodesOf(items: seq<Item>, at: nat)
    ensures SizeAll(TreesAt(items, at)) == NodesOf(items)
    decreases items, |items|
  {
    hide TreeAt, Size, TreesAt, SizeAll, KeyAt;
    if items == [] {
      NoTrees(at);
    } else {
      var name, v, next := FirstTree(items, at);
      SizeIsNodes(items[0].value, name, v);
      SizeIsNodesOf(items[1..], next);
      SizeAllFirst(TreeAt(items[0].value, name, v), TreesAt(items[1..], next));
    }
  }

  lemma NoTrees(at: nat)
    ensures TreesAt([], at) == [] && SizeAll([]) == 0
  {
  }

  lemma FirstTree(items: seq<Item>, at: nat) returns (name: Option<Str>, v: nat, next: nat)
    requires items != []
    ensures TreesAt(items, at) == [TreeAt(items[0].value, name, v)] + TreesAt(items[1..], next)
  {
    hide TreeAt, KeyBytes, Bytes;
    name := KeyAt(items[0].key, at + |items[0].gap|);
    v := at + |items[0].gap| + |KeyBytes(items[0].key)|;
    next := v + |Bytes(items[0].value)|;
  }

  lemma SizeAllFirst(t: Tree, ts: seq<Tree>)
    ensures SizeAll([t] + ts) == Size(t) + SizeAll(ts)
  {
    hide SizeAll, Size;
    SizeAllConcat([t], ts);
    SizeAllPush([], t);
    NoTrees(0);
    assert [] + [t] == [t];
  }

  /** The nodes and strings of the tree of a document show the document. */
  lemma TreeShows(buf: seq<byte>, ns: seq<Node>, used: nat, d: Doc, at: nat)
    requires var t := TreeAt(d, None, at);
      used == Size(t) <= |ns| && ns[..used] == Layout(t, 0, NIL) && Stands(buf, Strs(t))
    ensures used == Nodes(d) && Shows(buf, ns, 0, d, None) && ns[0].sibling == -1
  {
    hide TreeAt, Size, Layout, Strs, Stands, Shows, Nodes;
    SizeIsNodes(d, None, at);
    DocShows(buf, ns, d, None, None, at, 0, NIL);
  }
}
