/** The text buffer while it is being parsed: everything from the cursor on is as it was, and every
    string read so far stands behind the cursor, unescaped and terminated. */
module JsonBuffer {
  import opened Bits
  import opened Wrappers
  import opened JsonLex
  import opened JsonNumber
  import opened JsonTree

  // ---------------------------------------------------------------- reading depends only on what lies ahead

  predicate SameFrom(s: seq<byte>, t: seq<byte>, i: nat) {
    |s| == |t| && forall k :: i <= k < |s| ==> s[k] == t[k]
  }

  predicate Ahead(s: seq<byte>, t: seq<byte>, i: nat) {
    Terminated(s) && Terminated(t) && i < |s| && SameFrom(s, t, i)
  }

  lemma {:induction false} BlankSame(s: seq<byte>, t: seq<byte>, i: nat)
    requires Ahead(s, t, i)
    ensures GoBlank(s, i) == GoBlank(t, i)
    decreases |s| - i
  {
    if s[i] != 0 && IsBlank(s[i]) { BlankSame(s, t, i + 1); }
  }

  lemma {:induction false} NumSame(s: seq<byte>, t: seq<byte>, i: nat)
    requires Ahead(s, t, i)
    ensures GoNum(s, i) == GoNum(t, i)
    decreases |s| - i
  {
    if s[i] != 0 && IsDigit(s[i]) { NumSame(s, t, i + 1); }
  }

  lemma {:induction false} ScanSame(s: seq<byte>, t: seq<byte>, i: nat)
    requires Ahead(s, t, i)
    ensures Scan(s, i) == Scan(t, i)
    decreases |s| - i
  {
    hide UnitAt, Unit.Render, Unit.Means, Unit.Valid, Prepend;
    if s[i] != QUOTE {
      UnitSame(s, t, i);
      if UnitAt(s, i).Some? { ScanSame(s, t, i + |UnitAt(s, i).value.Render()|); }
    }
  }

  lemma UnitSame(s: seq<byte>, t: seq<byte>, i: nat)
    requires Ahead(s, t, i)
    ensures UnitAt(s, i) == UnitAt(t, i)
  {
  }

  lemma SliceSame(s: seq<byte>, t: seq<byte>, i: nat, k: nat)
    requires SameFrom(s, t, i) && i <= k <= |s|
    ensures s[i..k] == t[i..k]
  {
  }

  lemma DigitsSame(s: seq<byte>, t: seq<byte>, i: nat)
    requires Ahead(s, t, i)
    ensures Digits(s, i) == Digits(t, i)
  {
    NumSame(s, t, i);
  }

  lemma WholeSame(s: seq<byte>, t: seq<byte>, i: nat)
    requires Ahead(s, t, i)
    ensures Whole(s, i) == Whole(t, i)
  {
    hide Digits;
    DigitsSame(s, t, i);
  }

  lemma FracSame(s: seq<byte>, t: seq<byte>, i: nat)
    requires Ahead(s, t, i)
    ensures Frac(s, i) == Frac(t, i)
  {
    hide Digits;
    if s[i] == POINT {
      DigitsSame(s, t, i + 1);
      if Digits(s, i + 1).Some? { SliceSame(s, t, i + 1, Digits(s, i + 1).value); }
    }
  }

  lemma ExpSame(s: seq<byte>, t: seq<byte>, i: nat)
    requires Ahead(s, t, i)
    ensures Exp(s, i) == Exp(t, i)
  {
    hide Digits;
    if s[i] == LETTER_E || s[i] == CAPITAL_E {
      NotLast(s, i);
      var d := if s[i + 1] == MINUS || s[i + 1] == PLUS then i + 2 else i + 1;
      DigitsSame(s, t, d);
      if Digits(s, d).Some? { SliceSame(s, t, d, Digits(s, d).value); }
    }
  }

  lemma ReadNumberSame(s: seq<byte>, t: seq<byte>, i: nat)
    requires Ahead(s, t, i)
    ensures ReadNumber(s, i) == ReadNumber(t, i)
  {
    hide Whole, Frac, Exp;
    var w := if s[i] == MINUS then i + 1 else i;
    WholeSame(s, t, w);
    if Whole(s, w).Some? {
      var f := Whole(s, w).value;
      SliceSame(s, t, w, f);
      FracSame(s, t, f);
      if Frac(s, f).Some? { ExpSame(s, t, Frac(s, f).value.0); }
    }
  }

  lemma AcceptSame(s: seq<byte>, t: seq<byte>, i: nat)
    requires Ahead(s, t, i)
    ensures Accept(s, i) == Accept(t, i)
  {
    hide ReadNumber, TextFits;
    ReadNumberSame(s, t, i);
  }

  lemma LiteralSame(s: seq<byte>, t: seq<byte>, i: nat, word: seq<byte>)
    requires Ahead(s, t, i)
    ensures Literal(s, i, word) == Literal(t, i, word)
  {
    if i + |word| < |s| { SliceSame(s, t, i, i + |word|); }
  }

  lemma NameSame(s: seq<byte>, t: seq<byte>, i: nat)
    requires Ahead(s, t, i)
    ensures ReadName(s, i) == ReadName(t, i)
  {
    hide Scan, GoBlank;
    if s[i] == QUOTE {
      NotLast(s, i);
      ScanSame(s, t, i + 1);
      if Scan(s, i + 1).Some? {
        var end := Scan(s, i + 1).value.1;
        BlankSame(s, t, end);
        if GoBlank(s, end).Some? && s[GoBlank(s, end).value] == COLON {
          NotLast(s, GoBlank(s, end).value);
          BlankSame(s, t, GoBlank(s, end).value + 1);
        }
      }
    }
  }

  lemma LeafSame(s: seq<byte>, t: seq<byte>, i: nat, name: Option<Str>)
    requires Ahead(s, t, i)
    ensures ReadLeaf(s, i, name) == ReadLeaf(t, i, name)
  {
    hide Scan, Accept, Literal;
    if s[i] == QUOTE {
      NotLast(s, i);
      ScanSame(s, t, i + 1);
    } else {
      LiteralSame(s, t, i, TRUE_TEXT);
      LiteralSame(s, t, i, FALSE_TEXT);
      LiteralSame(s, t, i, NULL_TEXT);
      AcceptSame(s, t, i);
      if Accept(s, i).Some? { SliceSame(s, t, i, Accept(s, i).value.1); }
    }
  }

  // ---------------------------------------------------------------- the strings of a tree

  function NameStrs(name: Option<Str>): set<Str> { if name.Some? then {name.value} else {} }

  function Strs(t: Tree): set<Str>
    decreases t, 0
  {
    match t
    case Leaf(name, _, value) => NameStrs(name) + {value}
    case Branch(name, _, kids) => NameStrs(name) + StrsAll(kids)
  }

  function StrsAll(ts: seq<Tree>): set<Str>
    decreases ts, |ts|
  {
    if ts == [] then {} else StrsAll(ts[..|ts| - 1]) + Strs(ts[|ts| - 1])
  }

  function StackStrs(fs: seq<Frame>): set<Str> {
    if fs == [] then {} else StackStrs(Below(fs)) + NameStrs(Top(fs).name) + StrsAll(Top(fs).kids)
  }

  lemma StackStrsAdd(fs: seq<Frame>, t: Tree)
    requires fs != []
    ensures StackStrs(AddKid(fs, t)) == StackStrs(fs) + Strs(t)
  {
    hide Strs;
    assert Below(AddKid(fs, t)) == Below(fs);
    assert (Top(fs).kids + [t])[..|Top(fs).kids|] == Top(fs).kids;
  }

  lemma StackStrsPush(fs: seq<Frame>, name: Option<Str>, kind: Kind)
    ensures StackStrs(fs + [Frame(name, kind, [])]) == StackStrs(fs) + NameStrs(name)
  {
    assert Below(fs + [Frame(name, kind, [])]) == fs;
  }

  lemma StackStrsPop(fs: seq<Frame>)
    requires |fs| > 1
    ensures StackStrs(AddKid(Below(fs), Closed(Top(fs)))) == StackStrs(fs)
  {
    StackStrsAdd(Below(fs), Closed(Top(fs)));
  }

  // ---------------------------------------------------------------- strings behind the cursor

  /** `st` stands in `t` behind the cursor `c`. A number or literal directly before a closing bracket
      has no terminator yet: the bracket under the cursor will become it. */
  predicate Stored(t: seq<byte>, st: Str, c: nat) {
    && c < |t| && st.pos + |st.text| <= c
    && t[st.pos..st.pos + |st.text|] == st.text
    && (if st.pos + |st.text| < c then t[st.pos + |st.text|] == 0 else EndsBlock(t[c]))
  }

  predicate AllStored(t: seq<byte>, strs: set<Str>, c: nat) {
    forall st :: st in strs ==> Stored(t, st, c)
  }

  lemma SubSlice(t: seq<byte>, c: nat, a: nat, b: nat)
    requires a <= b <= c <= |t|
    ensures t[..c][a..b] == t[a..b]
  {
  }

  /** Nothing behind `c` changes and nothing waits for a bracket at `c`: the strings stay put. */
  lemma StoredKeep(t: seq<byte>, t': seq<byte>, strs: set<Str>, c: nat, c': nat)
    requires AllStored(t, strs, c) && c <= c' < |t'| && |t'| == |t| && c < |t| && !EndsBlock(t[c])
    requires t'[..c] == t[..c]
    ensures AllStored(t', strs, c')
  {
    forall st | st in strs ensures Stored(t', st, c') {
      assert Stored(t, st, c);
      var end := st.pos + |st.text|;
      SubSlice(t, c, st.pos, end);
      SubSlice(t', c, st.pos, end);
      assert t'[end] == t'[..c][end] && t[end] == t[..c][end];
    }
  }

  /** Skipping blanks. */
  lemma StoredBlank(t: seq<byte>, strs: set<Str>, c: nat, j: nat)
    requires AllStored(t, strs, c) && c <= j < |t| && forall k :: c <= k < j ==> IsBlank(t[k])
    ensures AllStored(t, strs, j)
  {
    if c < j { StoredKeep(t, t, strs, c, j); }
  }

  /** Overwriting the byte under the cursor with NUL completes whatever waits for a terminator. */
  lemma StoredClose(t: seq<byte>, strs: set<Str>, c: nat)
    requires AllStored(t, strs, c) && c + 1 < |t|
    ensures AllStored(t[c := 0], strs, c + 1)
  {
    var t' := t[c := 0];
    forall st | st in strs ensures Stored(t', st, c + 1) {
      assert Stored(t, st, c);
      var end := st.pos + |st.text|;
      assert t'[st.pos..end] == t[st.pos..end];
    }
  }

  /** A terminated string ends before the cursor. */
  lemma HoldsStored(t: seq<byte>, pos: nat, text: seq<byte>, c: nat)
    requires Holds(t, pos, text) && pos + |text| < c < |t|
    ensures Stored(t, Str(pos, text), c)
  {
  }
}
