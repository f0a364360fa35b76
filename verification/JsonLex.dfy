/** The scanners of the JSON parser: they walk a NUL-terminated buffer and stop at its end.
    A position is an index into the buffer; `None` stands for the null pointer. */
module JsonLex {
  import opened Bits
  import opened Wrappers

  /** The buffer ends in NUL, so every scan that checks each byte it passes stays inside. */
  predicate Terminated(s: seq<byte>) { |s| > 0 && s[|s| - 1] == 0 }

  lemma NotLast(s: seq<byte>, i: nat)
    requires Terminated(s) && i < |s| && s[i] != 0
    ensures i + 1 < |s|
  {
  }

  const QUOTE: byte := 34
  const COMMA: byte := 44
  const MINUS: byte := 45
  const POINT: byte := 46
  const ZERO: byte := 48
  const COLON: byte := 58
  const OPEN_ARRAY: byte := 91
  const BACKSLASH: byte := 92
  const CLOSE_ARRAY: byte := 93
  const OPEN_OBJECT: byte := 123
  const CLOSE_OBJECT: byte := 125

  predicate IsBlank(c: byte) { c == 32 || c == 10 || c == 13 || c == 9 || c == 12 }

  predicate IsDigit(c: byte) { 48 <= c <= 57 }

  predicate IsHex(c: byte) { IsDigit(c) || 65 <= c <= 70 || 97 <= c <= 102 }

  predicate EndsBlock(c: byte) { c == CLOSE_OBJECT || c == CLOSE_ARRAY }

  /** isEndOfPrimitive. */
  predicate Delimits(c: byte) { c == COMMA || IsBlank(c) || EndsBlock(c) }

  // ---------------------------------------------------------------- blanks and digits

  /** The first byte from `i` on that is not blank, if there is one before the end. */
  function GoBlank(s: seq<byte>, i: nat): (r: Option<nat>)
    requires Terminated(s) && i < |s|
    ensures r.Some? ==> i <= r.value < |s| && s[r.value] != 0 && !IsBlank(s[r.value])
    ensures r.Some? ==> forall k :: i <= k < r.value ==> IsBlank(s[k])
    decreases |s| - i
  {
    if s[i] == 0 then None else if IsBlank(s[i]) then GoBlank(s, i + 1) else Some(i)
  }

  /** The first byte from `i` on that is not a digit, if there is one before the end. */
  function GoNum(s: seq<byte>, i: nat): (r: Option<nat>)
    requires Terminated(s) && i < |s|
    ensures r.Some? ==> i <= r.value < |s| && s[r.value] != 0 && !IsDigit(s[r.value])
    ensures r.Some? ==> forall k :: i <= k < r.value ==> IsDigit(s[k])
    decreases |s| - i
  {
    if s[i] == 0 then None else if IsDigit(s[i]) then GoNum(s, i + 1) else Some(i)
  }

  method SkipBlank(buf: array<byte>, start: nat) returns (r: Option<nat>)
    requires Terminated(buf[..]) && start < buf.Length
    ensures r == GoBlank(buf[..], start)
  {
    var ptr := start;
    while buf[ptr] != 0
      invariant start <= ptr < buf.Length && GoBlank(buf[..], ptr) == GoBlank(buf[..], start)
      decreases buf.Length - ptr
    {
      if !IsBlank(buf[ptr]) { return Some(ptr); }
      ptr := ptr + 1;
    }
    r := None;
  }

  method SkipDigits(buf: array<byte>, start: nat) returns (r: Option<nat>)
    requires Terminated(buf[..]) && start < buf.Length
    ensures r == GoNum(buf[..], start)
  {
    var ptr := start;
    while buf[ptr] != 0
      invariant start <= ptr < buf.Length && GoNum(buf[..], ptr) == GoNum(buf[..], start)
      decreases buf.Length - ptr
    {
      if !IsDigit(buf[ptr]) { return Some(ptr); }
      ptr := ptr + 1;
    }
    r := None;
  }

  // ---------------------------------------------------------------- strings

  /** getEscape: 0 for a character that cannot be escaped. */
  function Escape(c: byte): (e: byte) {
    if c == QUOTE || c == BACKSLASH || c == 47 then c
    else if c == 98 then 8
    else if c == 102 then 12
    else if c == 110 then 10
    else if c == 114 then 13
    else if c == 116 then 9
    else 0
  }

  const LETTER_U: byte := 117
  const QUESTION: byte := 63

  lemma NoEscapeOfU()
    ensures Escape(LETTER_U) == 0 && Escape(0) == 0
  {
  }

  /** One unit of a JSON string (section 7 of RFC 8259): a character, a two-character escape or a
      six-character one. Unlike the RFC the parser lets control characters other than NUL through. */
  datatype Unit = Plain(c: byte) | Short(c: byte) | Hex(h0: byte, h1: byte, h2: byte, h3: byte)
  {
    predicate Valid() {
      match this
      case Plain(c) => c != 0 && c != QUOTE && c != BACKSLASH
      case Short(c) => Escape(c) != 0
      case Hex(h0, h1, h2, h3) => IsHex(h0) && IsHex(h1) && IsHex(h2) && IsHex(h3)
    }

    function Render(): (r: seq<byte>)
      ensures r != []
    {
      match this
      case Plain(c) => [c]
      case Short(c) => [BACKSLASH, c]
      case Hex(h0, h1, h2, h3) => [BACKSLASH, LETTER_U, h0, h1, h2, h3]
    }

    /** What the unit stands for; the parser shows every \u escape as a question mark. */
    function Means(): byte {
      match this
      case Plain(c) => c
      case Short(c) => Escape(c)
      case Hex(_, _, _, _) => QUESTION
    }
  }

  predicate AllValid(us: seq<Unit>) { forall k :: 0 <= k < |us| ==> us[k].Valid() }

  function RenderAll(us: seq<Unit>): seq<byte> {
    if us == [] then [] else us[0].Render() + RenderAll(us[1..])
  }

  function MeansAll(us: seq<Unit>): seq<byte> {
    if us == [] then [] else [us[0].Means()] + MeansAll(us[1..])
  }

  /** The unit at `i`, if one starts there. */
  function UnitAt(s: seq<byte>, i: nat): (r: Option<Unit>)
    requires Terminated(s) && i < |s|
    ensures r.Some? ==>
      r.value.Valid() && i + |r.value.Render()| < |s| && s[i..i + |r.value.Render()|] == r.value.Render()
  {
    if s[i] == 0 || s[i] == QUOTE then None
    else if s[i] != BACKSLASH then Some(Plain(s[i]))
    else if s[i + 1] == LETTER_U then
      if IsHex(s[i + 2]) && IsHex(s[i + 3]) && IsHex(s[i + 4]) && IsHex(s[i + 5])
      then Some(Hex(s[i + 2], s[i + 3], s[i + 4], s[i + 5])) else None
    else if Escape(s[i + 1]) != 0 then Some(Short(s[i + 1]))
    else None
  }

  /** The text of the string that starts at `i`, and the position after its closing quote. */
  function Scan(s: seq<byte>, i: nat): (r: Option<(seq<byte>, nat)>)
    requires Terminated(s) && i < |s|
    ensures r.Some? ==> i + |r.value.0| < r.value.1 < |s| && s[r.value.1 - 1] == QUOTE
    decreases |s| - i
  {
    if s[i] == QUOTE then NotLast(s, i); Some(([], i + 1))
    else
      match UnitAt(s, i)
      case None => None
      case Some(u) =>
        Prepend([u.Means()], Scan(s, i + |u.Render()|))
  }

  lemma UnitOfRender(s: seq<byte>, i: nat, u: Unit)
    requires Terminated(s) && u.Valid() && i + |u.Render()| < |s| && s[i..i + |u.Render()|] == u.Render()
    ensures s[i] != QUOTE && UnitAt(s, i) == Some(u)
  {
    NoEscapeOfU();
    var r, w := u.Render(), s[i..i + |u.Render()|];
    assert w[0] == s[i];
    if !u.Plain? { assert w[1] == s[i + 1]; }
    if u.Hex? { assert w[2] == s[i + 2] && w[3] == s[i + 3] && w[4] == s[i + 4] && w[5] == s[i + 5]; }
  }

  lemma Slices(s: seq<byte>, i: nat, a: seq<byte>, b: seq<byte>)
    requires i + |a| + |b| <= |s|
    ensures s[i..i + |a + b|] == a + b <==> s[i..i + |a|] == a && s[i + |a|..i + |a| + |b|] == b
  {
    var x, y := s[i..i + |a|], s[i + |a|..i + |a| + |b|];
    assert s[i..i + |a + b|] == x + y;
    assert (x + y)[..|a|] == x && (x + y)[|a|..] == y && (a + b)[..|a|] == a && (a + b)[|a|..] == b;
  }

  /** Every rendered string is read back as what its units mean ... */
  lemma {:induction false} ScanOfUnits(s: seq<byte>, i: nat, us: seq<Unit>)
    requires Terminated(s) && AllValid(us)
    requires i + |RenderAll(us)| + 1 < |s| && s[i..i + |RenderAll(us)|] == RenderAll(us)
    requires s[i + |RenderAll(us)|] == QUOTE
    ensures Scan(s, i) == Some((MeansAll(us), i + |RenderAll(us)| + 1))
    decreases |us|
  {
    hide UnitAt, Unit.Render, Unit.Means, Unit.Valid;
    if us != [] {
      Slices(s, i, us[0].Render(), RenderAll(us[1..]));
      UnitOfRender(s, i, us[0]);
      ScanOfUnits(s, i + |us[0].Render()|, us[1..]);
    }
  }

  /** ... and every string that is read is the rendering of some units. */
  lemma {:induction false} UnitsOfScan(s: seq<byte>, i: nat) returns (us: seq<Unit>)
    requires Terminated(s) && i < |s| && Scan(s, i).Some?
    ensures AllValid(us) && MeansAll(us) == Scan(s, i).value.0
    ensures i + |RenderAll(us)| + 1 == Scan(s, i).value.1 && s[i..i + |RenderAll(us)|] == RenderAll(us)
    decreases |s| - i
  {
    hide UnitAt, Unit.Render, Unit.Means, Unit.Valid;
    if s[i] == QUOTE {
      us := [];
      assert s[i..i] == [];
    } else {
      var u := UnitAt(s, i).value;
      var rest := UnitsOfScan(s, i + |u.Render()|);
      us := [u] + rest;
      assert us[1..] == rest;
      Slices(s, i, u.Render(), RenderAll(rest));
    }
  }

  /** A string read from `s`, one unit later. */
  lemma ScanStep(s: seq<byte>, i: nat)
    requires Terminated(s) && i < |s| && s[i] != QUOTE
    ensures match UnitAt(s, i)
      case None => Scan(s, i) == None
      case Some(u) =>
        Scan(s, i) == Prepend([u.Means()], Scan(s, i + |u.Render()|))
  {
  }

  /** `buf` holds `text` and a NUL at `pos`. */
  predicate Holds(buf: seq<byte>, pos: nat, text: seq<byte>) {
    pos + |text| < |buf| && buf[pos..pos + |text|] == text && buf[pos + |text|] == 0
  }

  /** parseString: unescapes the string at `start` in place. What it writes stays behind what it has
      still to read; everything before the string and from the returned position on is unchanged. */
  method ParseString(buf: array<byte>, start: nat) returns (r: Option<nat>)
    requires Terminated(buf[..]) && start < buf.Length
    modifies buf
    ensures match Scan(old(buf[..]), start)
      case None => r == None
      case Some((text, end)) => r == Some(end) && Holds(buf[..], start, text) && buf[end..] == old(buf[end..])
    ensures buf[..start] == old(buf[..start]) && Terminated(buf[..])
  {
    hide Scan, UnitAt, Unit.Means, Unit.Valid, Unit.Render, Midway;
    ghost var s := buf[..];
    var head: nat, tail: nat := start, start;
    ghost var text: seq<byte> := [];
    MidwayStart(s, start);
    while buf[head] != 0
      invariant start <= tail <= head < buf.Length && Midway(s, buf[..], start, tail, head, text)
      invariant Terminated(buf[..])
      decreases buf.Length - head
    {
      ghost var t := buf[..];
      MidwayAhead(s, t, start, tail, head, text);
      if buf[head] == QUOTE {
        MidwayEnd(s, t, start, tail, head, text);
        buf[tail] := 0;
        assert buf[..] == t[tail := 0];
        return Some(head + 1);
      }
      var next, ch := ReadUnit(buf, head);
      if ch == 0 {
        MidwayFails(s, t, start, tail, head, text);
        return None;
      }
      MidwayNext(s, t, start, tail, head, next, text, ch);
      buf[tail] := ch;
      assert buf[..] == t[tail := ch];
      head, tail, text := next, tail + 1, text + [ch];
    }
    MidwayAhead(s, buf[..], start, tail, head, text);
    MidwayFails(s, buf[..], start, tail, head, text);
    r := None;
  }

  /** In the middle of a string: `text` is written, and it is what the string starts with. */
  predicate Midway(s: seq<byte>, t: seq<byte>, start: nat, tail: nat, head: nat, text: seq<byte>) {
    && Terminated(s) && Unescaped(s, t, start, tail, head, text)
    && Scan(s, start) == Prepend(text, Scan(s, head))
  }

  lemma MidwayStart(s: seq<byte>, start: nat)
    requires Terminated(s) && start < |s|
    ensures Midway(s, s, start, start, start, [])
  {
    hide Scan;
    PrependNothing(Scan(s, start));
    UnescapedStart(s, start);
  }

  lemma MidwayAhead(s: seq<byte>, t: seq<byte>, start: nat, tail: nat, head: nat, text: seq<byte>)
    requires Midway(s, t, start, tail, head, text)
    ensures Terminated(s) && |t| == |s| && head < |s| && Terminated(t) && t[..start] == s[..start]
    ensures t[head] == s[head] && UnitAt(t, head) == UnitAt(s, head)
  {
    hide Scan, UnitAt, Prepend;
    AheadSame(s, t, start, tail, head, text);
  }

  lemma MidwayEnd(s: seq<byte>, t: seq<byte>, start: nat, tail: nat, head: nat, text: seq<byte>)
    requires Midway(s, t, start, tail, head, text) && s[head] == QUOTE
    ensures Scan(s, start) == Some((text, head + 1)) && head + 1 < |s| == |t|
    ensures var t' := t[tail := 0];
      t'[..start] == s[..start] && Holds(t', start, text) && t'[head + 1..] == s[head + 1..] && Terminated(t')
  {
    hide Scan;
    ScanEnd(s, head);
    PrependCases(text, Scan(s, head));
    UnescapedEnd(s, t, start, tail, head, text);
  }

  lemma MidwayNext(s: seq<byte>, t: seq<byte>, start: nat, tail: nat, head: nat, next: nat, text: seq<byte>, ch: byte)
    requires Midway(s, t, start, tail, head, text) && s[head] != QUOTE && UnitAt(s, head).Some?
    requires ch == UnitAt(s, head).value.Means() && next == head + |UnitAt(s, head).value.Render()| < |s|
    ensures head < next && Midway(s, t[tail := ch], start, tail + 1, next, text + [ch]) && Terminated(t[tail := ch])
  {
    hide Scan, UnitAt, Unit.Means, Unit.Valid, Unit.Render, Unescaped, Prepend;
    ScanStep(s, head);
    PrependPush(text, ch, Scan(s, next));
    UnescapedPush(s, t, start, tail, head, next, text, ch);
  }

  lemma MidwayFails(s: seq<byte>, t: seq<byte>, start: nat, tail: nat, head: nat, text: seq<byte>)
    requires Midway(s, t, start, tail, head, text) && (s[head] == 0 || (s[head] != QUOTE && UnitAt(s, head) == None))
    ensures Scan(s, start) == None
  {
    hide Scan, UnitAt;
    if s[head] == 0 { ScanNothing(s, head); } else { ScanStep(s, head); }
    PrependCases(text, Scan(s, head));
  }

  /** The state of the in-place loop: `text` written so far, everything from `head` on still to be read. */
  predicate Unescaped(s: seq<byte>, t: seq<byte>, start: nat, tail: nat, head: nat, text: seq<byte>) {
    && |t| == |s| && start <= tail <= head < |s|
    && t[..start] == s[..start] && t[start..tail] == text && t[head..] == s[head..]
  }

  lemma UnescapedStart(s: seq<byte>, start: nat)
    requires start < |s|
    ensures Unescaped(s, s, start, start, start, [])
  {
  }

  lemma AheadSame(s: seq<byte>, t: seq<byte>, start: nat, tail: nat, head: nat, text: seq<byte>)
    requires Unescaped(s, t, start, tail, head, text) && Terminated(s)
    ensures Terminated(t) && t[..start] == s[..start]
    ensures t[head] == s[head] && UnitAt(t, head) == UnitAt(s, head)
  {
    assert forall k :: head <= k < |s| ==> s[k] == s[head..][k - head] == t[k];
  }

  lemma UnescapedPush(s: seq<byte>, t: seq<byte>, start: nat, tail: nat, head: nat, next: nat, text: seq<byte>,
                      ch: byte)
    requires Unescaped(s, t, start, tail, head, text) && Terminated(s) && head < next < |s|
    ensures Unescaped(s, t[tail := ch], start, tail + 1, next, text + [ch]) && Terminated(t[tail := ch])
  {
    var t' := t[tail := ch];
    assert t[next..] == t[head..][next - head..] && s[next..] == s[head..][next - head..];
    assert t'[next..] == t[next..] && t'[start..tail] == t[start..tail];
    assert t'[|t| - 1] == t'[next..][|t| - 1 - next] == s[|s| - 1];
  }

  lemma UnescapedEnd(s: seq<byte>, t: seq<byte>, start: nat, tail: nat, head: nat, text: seq<byte>)
    requires Unescaped(s, t, start, tail, head, text) && Terminated(s) && head + 1 < |s|
    ensures var t' := t[tail := 0];
      t'[..start] == s[..start] && Holds(t', start, text) && t'[head + 1..] == s[head + 1..] && Terminated(t')
  {
    UnescapedPush(s, t, start, tail, head, head + 1, text, 0);
    var t' := t[tail := 0];
    assert t'[start..tail] == t[start..tail];
  }

  /** Text in front of what a scan yields. */
  function Prepend(text: seq<byte>, r: Option<(seq<byte>, nat)>): Option<(seq<byte>, nat)> {
    match r
    case None => None
    case Some((rest, end)) => Some((text + rest, end))
  }

  lemma PrependNothing(r: Option<(seq<byte>, nat)>)
    ensures Prepend([], r) == r
  {
    if r.Some? { assert [] + r.value.0 == r.value.0; }
  }

  lemma PrependCases(text: seq<byte>, r: Option<(seq<byte>, nat)>)
    ensures r == None ==> Prepend(text, r) == None
    ensures r.Some? && r.value.0 == [] ==> Prepend(text, r) == Some((text, r.value.1))
  {
    if r.Some? && r.value.0 == [] { assert text + [] == text; }
  }

  lemma PrependPush(text: seq<byte>, ch: byte, r: Option<(seq<byte>, nat)>)
    ensures Prepend(text, Prepend([ch], r)) == Prepend(text + [ch], r)
  {
    if r.Some? { assert text + ([ch] + r.value.0) == (text + [ch]) + r.value.0; }
  }

  lemma ScanEnd(s: seq<byte>, i: nat)
    requires Terminated(s) && i < |s| && s[i] == QUOTE
    ensures Scan(s, i) == Some(([], i + 1)) && i + 1 < |s|
  {
  }

  lemma ScanNothing(s: seq<byte>, i: nat)
    requires Terminated(s) && i < |s| && s[i] == 0
    ensures Scan(s, i) == None
  {
  }

  /** The unit at `head`: where it ends and what it means, or 0 if there is none. */
  method ReadUnit(buf: array<byte>, head: nat) returns (next: nat, ch: byte)
    requires Terminated(buf[..]) && head < buf.Length && buf[head] != 0 && buf[head] != QUOTE
    ensures match UnitAt(buf[..], head)
      case None => ch == 0
      case Some(u) => ch == u.Means() && ch != 0 && next == head + |u.Render()| < buf.Length
  {
    next := head;
    if buf[next] == BACKSLASH {
      next := next + 1;
      if buf[next] == LETTER_U {
        next := next + 1;
        ch := CharFromUnicode(buf, next);
        next := next + 4;
      } else {
        ch := Escape(buf[next]);
        next := next + 1;
      }
    } else {
      ch := buf[next];
      next := next + 1;
    }
  }

  /** getCharFromUnicode: stops at the first byte that is not a hexadecimal digit, so it cannot run off the end. */
  method CharFromUnicode(buf: array<byte>, start: nat) returns (ch: byte)
    requires Terminated(buf[..]) && start < buf.Length
    ensures ch == 0 || ch == QUESTION
    ensures ch == QUESTION <==> start + 4 < buf.Length && forall k :: start <= k < start + 4 ==> IsHex(buf[k])
  {
    var i := 0;
    while i < 4
      invariant 0 <= i <= 4 && start + i < buf.Length && forall k :: start <= k < start + i ==> IsHex(buf[k])
    {
      if !IsHex(buf[start + i]) { return 0; }
      i := i + 1;
    }
    ch := QUESTION;
  }
}
