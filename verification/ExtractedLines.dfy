/**
 What an extraction finds, said without the walk: what the two patterns match, and under which number an
 address of a line is found.
 */
module ExtractedLines {
  import opened Bytes
  import opened Text
  import opened Rewriting
  import opened Extraction

  // ----- what the patterns match -----

  /** The code points Python's `\s` matches. */
  const WHITE_SPACE: set<int> := {
    0x9, 0xa, 0xb, 0xc, 0xd, 0x1c, 0x1d, 0x1e, 0x1f, 0x20, 0x85, 0xa0, 0x1680,
    0x2000, 0x2001, 0x2002, 0x2003, 0x2004, 0x2005, 0x2006, 0x2007, 0x2008, 0x2009, 0x200a,
    0x2028, 0x2029, 0x202f, 0x205f, 0x3000
  }

  /** The characters from `p` to `q` are white space. */
  predicate Blank(t: string, p: nat, q: nat) { p <= q <= |t| && forall y | p <= y < q :: t[y] as int in WHITE_SPACE }

  lemma SpaceIsSpace(c: char)
    ensures IsSpace(c) <==> c as int in WHITE_SPACE
  {}

  /** The word stands in `t` at `p`. */
  predicate Word(t: string, p: nat, w: string) { p + |w| <= |t| && forall i | 0 <= i < |w| :: t[p + i] == w[i] }

  lemma WordIsWord(w: string, t: string, p: nat, end: nat)
    requires end <= |t|
    ensures WordAt(w, t, p, end) <==> p + |w| <= end && Word(t, p, w)
  {
    if p + |w| <= end {
      if t[p..p + |w|] == w {
        forall i | 0 <= i < |w| ensures t[p + i] == w[i] { assert t[p..p + |w|][i] == w[i]; }
      }
    }
  }

  /** The name of the field, white space and a quoted text from `a` to `b` that is not empty. */
  predicate CidMatch(t: string, p: nat, end: nat, a: nat, b: nat) {
    && Word(t, p, "cid_number:") && 0 < a < b < end <= |t|
    && Blank(t, p + 11, a - 1) && t[a - 1] == '"' && t[b] == '"' && forall y | a <= y < b :: t[y] != '"'
  }

  function FieldName(k: Kind): string {
    match k
    case Main => "main_account:"
    case Fee => "fee_account:"
    case Stake => "stake_account:"
  }

  /** The macro around 64 hexadecimal digits from `b` on. */
  predicate MacroMatch(t: string, end: nat, b: nat) {
    && 6 <= b && b + 66 <= end <= |t| && Word(t, b - 6, "hex!(\"") && Word(t, b + 64, "\")")
    && forall y | b <= y < b + 64 :: '0' <= t[y] <= '9' || 'a' <= t[y] <= 'f' || 'A' <= t[y] <= 'F'
  }

  /** The name of the field, white space, and the macro. */
  predicate AddressMatch(k: Kind, t: string, p: nat, end: nat, b: nat) {
    Word(t, p, FieldName(k)) && MacroMatch(t, end, b) && Blank(t, p + |FieldName(k)|, b - 6)
  }

  lemma BlankThenStop(t: string, p: nat, q: nat, end: nat)
    requires p <= q < end <= |t|
    ensures Until(NonSpace, t, p, end) == q <==> Blank(t, p, q) && t[q] as int !in WHITE_SPACE
  {
    UntilFirst(NonSpace, t, p, end);
    forall y | p <= y < end ensures IsSpace(t[y]) <==> t[y] as int in WHITE_SPACE { SpaceIsSpace(t[y]); }
    hide IsSpace, WHITE_SPACE;
    var x := Until(NonSpace, t, p, end);
    assert q < x ==> !Stops(NonSpace, t[q]);
  }

  lemma QuoteThenStop(t: string, p: nat, q: nat, end: nat)
    requires p <= q < end <= |t|
    ensures Until(Quote, t, p, end) == q <==> (forall y | p <= y < q :: t[y] != '"') && t[q] == '"'
  {
    UntilFirst(Quote, t, p, end);
    var x := Until(Quote, t, p, end);
    assert q < x ==> !Stops(Quote, t[q]);
  }

  lemma NoBlank()
    ensures '"' as int !in WHITE_SPACE && 'h' as int !in WHITE_SPACE
  {}

  lemma CidMatchIs(t: string, p: nat, end: nat, a: nat, b: nat)
    requires end <= |t|
    ensures CidAt(t, p, end) == Span(a, b) <==> CidMatch(t, p, end, a, b)
  {
    hide Word, WordAt, Until, WHITE_SPACE, Blank;
    WordIsWord(CID, t, p, end);
    NoBlank();
    assert CID == "cid_number:" && |CID| == 11;
    if WordAt(CID, t, p, end) {
      var q := Until(NonSpace, t, p + 11, end);
      if q < end {
        BlankThenStop(t, p + 11, q, end);
        if t[q] == '"' {
          var z := Until(Quote, t, q + 1, end);
          if z < end { QuoteThenStop(t, q + 1, z, end); }
        }
      }
      if CidMatch(t, p, end, a, b) {
        BlankBounds(t, p + 11, a - 1);
        BlankThenStop(t, p + 11, a - 1, end);
        QuoteThenStop(t, a, b, end);
      }
    }
    if CidMatch(t, p, end, a, b) { BlankBounds(t, p + 11, a - 1); }
  }

  lemma BlankBounds(t: string, p: nat, q: nat)
    requires Blank(t, p, q)
    ensures p <= q <= |t|
  {}

  lemma FieldIsName(k: Kind)
    ensures Field(k) == FieldName(k)
  {}

  /** `hex!(`, the quote, the digits, and the quote and parenthesis behind them. */
  lemma MacroIs(t: string, q: nat, end: nat, b: nat)
    requires end <= |t|
    ensures MacroAt(t, q, end) == Some(b) <==>
            b == q + 6 && MacroMatch(t, end, b)
  {
    WordIsWord(HEX, t, q, end);
    if q + 72 <= end {
      assert Word(t, q, HEX) && t[q + 5] == '"' <==> Word(t, q, "hex!(\"") by {
        HexSpelled();
        if Word(t, q, "hex!(\"") {
          assert t[q + 5] == "hex!(\""[5];
          forall i | 0 <= i < 5 ensures t[q + i] == HEX[i] { assert t[q + i] == "hex!(\""[i]; }
        }
        if Word(t, q, HEX) && t[q + 5] == '"' {
          forall i | 0 <= i < 6 ensures t[q + i] == "hex!(\""[i] { if i < 5 { assert t[q + i] == HEX[i]; } }
        }
      }
      assert t[q + 70] == '"' && t[q + 71] == ')' <==> Word(t, q + 70, "\")") by {
        if Word(t, q + 70, "\")") {
          assert t[q + 70 + 0] == "\")"[0] && t[q + 70 + 1] == "\")"[1];
        }
      }
    }
  }

  lemma HexSpelled()
    ensures |HEX| == 5 && |"hex!(\""| == 6 && "hex!(\""[5] == '"' && forall i | 0 <= i < 5 :: "hex!(\""[i] == HEX[i]
  {}

  lemma AddressMatchIs(k: Kind, t: string, p: nat, end: nat, b: nat)
    requires end <= |t|
    ensures AddressAt(k, t, p, end) == Some(b) <==> AddressMatch(k, t, p, end, b)
  {
    hide Word, WordAt, Until, WHITE_SPACE, Blank, MacroAt, MacroMatch, Field, FieldName;
    var n := |FieldName(k)|;
    WordIsWord(Field(k), t, p, end);
    FieldIsName(k);
    NoBlank();
    if MacroMatch(t, end, b) {
      FirstOfMacro(t, end, b);
      if Word(t, p, FieldName(k)) && Blank(t, p + n, b - 6) {
        BlankBounds(t, p + n, b - 6);
        BlankThenStop(t, p + n, b - 6, end);
      }
    }
    if WordAt(Field(k), t, p, end) {
      var q := Until(NonSpace, t, p + n, end);
      MacroIs(t, q, end, b);
      if MacroAt(t, q, end) == Some(b) { BlankThenStop(t, p + n, q, end); }
    }
  }

  lemma FirstOfMacro(t: string, end: nat, b: nat)
    requires MacroMatch(t, end, b)
    ensures 6 <= b && b + 66 <= end <= |t| && t[b - 6] == 'h'
  {
    assert t[b - 6 + 0] == "hex!(\""[0];
  }

  ghost predicate NoCidAt(t: string, p: nat, end: nat) { forall a: nat, b: nat :: !CidMatch(t, p, end, a, b) }

  ghost predicate NoAddressAt(k: Kind, t: string, p: nat, end: nat) { forall b: nat :: !AddressMatch(k, t, p, end, b) }

  /** The leftmost match from `s` on begins at `p`. */
  ghost predicate FirstCidMatch(t: string, s: nat, p: nat, end: nat, a: nat, b: nat) {
    s <= p && CidMatch(t, p, end, a, b) && forall q | s <= q < p :: NoCidAt(t, q, end)
  }

  ghost predicate LeftmostCid(t: string, s: nat, end: nat, a: nat, b: nat) {
    exists p: nat :: FirstCidMatch(t, s, p, end, a, b)
  }

  ghost predicate LeftmostAddress(k: Kind, t: string, s: nat, end: nat, b: nat) {
    exists p: nat :: FirstAddressMatch(k, t, s, p, end, b)
  }

  ghost predicate FirstAddressMatch(k: Kind, t: string, s: nat, p: nat, end: nat, b: nat) {
    s <= p && AddressMatch(k, t, p, end, b) && forall q | s <= q < p :: NoAddressAt(k, t, q, end)
  }

  /** The search of a line for a number gives the leftmost match, and nothing exactly when there is none. */
  lemma {:induction false} CidSearch(t: string, s: nat, end: nat)
    requires s <= end <= |t|
    ensures match FirstCid(t, s, end)
            case NoSpan => forall p | s <= p :: NoCidAt(t, p, end)
            case Span(a, b) => LeftmostCid(t, s, end, a, b)
    decreases end - s
  {
    hide CidMatch, CidAt;
    forall a: nat, b: nat ensures CidMatch(t, s, end, a, b) <==> CidAt(t, s, end) == Span(a, b) { CidMatchIs(t, s, end, a, b); }
    if CidAt(t, s, end).NoSpan? {
      if s < end {
        CidSearch(t, s + 1, end);
        if FirstCid(t, s, end).Span? {
          var a, b := FirstCid(t, s, end).from, FirstCid(t, s, end).to;
          var s' := s + 1;
          var p: nat :| FirstCidMatch(t, s', p, end, a, b);
          assert NoCidAt(t, s, end);
          assert FirstCidMatch(t, s, p, end, a, b) && LeftmostCid(t, s, end, a, b);
          assert FirstCid(t, s, end) == FirstCid(t, s + 1, end) == Span(a, b);
        }
      } else {
        forall p: nat | s <= p ensures NoCidAt(t, p, end) {
          if a: nat, b: nat :| CidMatch(t, p, end, a, b) { MatchInside(t, p, end, a, b); }
        }
      }
    } else {
      var a, b := CidAt(t, s, end).from, CidAt(t, s, end).to;
      assert FirstCid(t, s, end) == CidAt(t, s, end) == Span(a, b);
      assert FirstCidMatch(t, s, s, end, a, b);
      assert LeftmostCid(t, s, end, a, b);
    }
  }

  lemma MatchInside(t: string, p: nat, end: nat, a: nat, b: nat)
    requires CidMatch(t, p, end, a, b)
    ensures p < end
  {}

  /** The search of a line for an address likewise. */
  lemma {:induction false} AddressSearch(k: Kind, t: string, s: nat, end: nat)
    requires s <= end <= |t|
    ensures match FirstAddress(k, t, s, end)
            case None => forall p | s <= p :: NoAddressAt(k, t, p, end)
            case Some(b) => LeftmostAddress(k, t, s, end, b)
    decreases end - s
  {
    hide AddressMatch, AddressAt;
    forall b: nat ensures AddressMatch(k, t, s, end, b) <==> AddressAt(k, t, s, end) == Some(b) { AddressMatchIs(k, t, s, end, b); }
    if AddressAt(k, t, s, end).None? {
      if s < end {
        AddressSearch(k, t, s + 1, end);
        if FirstAddress(k, t, s, end).Some? {
          var b := FirstAddress(k, t, s, end).value;
          var s' := s + 1;
          var p: nat :| FirstAddressMatch(k, t, s', p, end, b);
          assert NoAddressAt(k, t, s, end);
          assert FirstAddressMatch(k, t, s, p, end, b) && LeftmostAddress(k, t, s, end, b);
          assert FirstAddress(k, t, s, end) == FirstAddress(k, t, s + 1, end) == Some(b);
        }
      } else {
        forall p: nat | s <= p ensures NoAddressAt(k, t, p, end) {
          if b: nat :| AddressMatch(k, t, p, end, b) { AddressInside(k, t, p, end, b); }
        }
      }
    } else {
      var b := AddressAt(k, t, s, end).value;
      assert FirstAddress(k, t, s, end) == AddressAt(k, t, s, end) == Some(b);
      assert FirstAddressMatch(k, t, s, s, end, b);
      assert LeftmostAddress(k, t, s, end, b);
    }
  }

  lemma AddressInside(k: Kind, t: string, p: nat, end: nat, b: nat)
    requires AddressMatch(k, t, p, end, b)
    ensures p < end
  {}

  // ----- the lines of a text -----

  datatype Line = Line(from: nat, to: nat)

  /** The lines from `s` on: `split("\n")`. */
  function Lines(t: string, s: nat): (ls: seq<Line>)
    requires s <= |t|
    ensures |ls| > 0
    decreases |t| - s
  {
    var end := Until(Newline, t, s, |t|);
    [Line(s, end)] + if end == |t| then [] else Lines(t, end + 1)
  }

  ghost predicate NoBreak(t: string, l: Line) { l.from <= l.to <= |t| && forall y | l.from <= y < l.to :: t[y] != '\n' }

  /** The second line begins behind a line break at the end of the first. */
  ghost predicate Adjoin(t: string, l: Line, m: Line) { l.to < |t| && t[l.to] == '\n' && m.from == l.to + 1 }

  /** The lines lie one behind the other with a line break between them and none inside, from `s` to the end. */
  lemma {:induction false} LinesDivide(t: string, s: nat)
    requires s <= |t|
    ensures var ls := Lines(t, s);
            && ls[0].from == s && ls[|ls| - 1].to == |t|
            && (forall i | 0 <= i < |ls| :: NoBreak(t, ls[i]))
            && (forall i | 0 < i < |ls| :: Adjoin(t, ls[i - 1], ls[i]))
    decreases |t| - s
  {
    hide Until, NoBreak, Adjoin;
    FirstLine(t, s);
    var end := Until(Newline, t, s, |t|);
    if end < |t| {
      LinesDivide(t, end + 1);
      var ls, rest := Lines(t, s), Lines(t, end + 1);
      assert ls == [Line(s, end)] + rest;
      NextBegins(t, ls[0], rest[0]);
      forall i | 0 < i < |ls| ensures Adjoin(t, ls[i - 1], ls[i]) {
        assert ls[i] == rest[i - 1];
        if i > 1 { assert ls[i - 1] == rest[i - 2]; }
      }
    }
  }

  lemma FirstLine(t: string, s: nat)
    requires s <= |t|
    ensures var end := Until(Newline, t, s, |t|); NoBreak(t, Line(s, end)) && (end < |t| ==> t[end] == '\n')
  {
    UntilFirst(Newline, t, s, |t|);
    var end := Until(Newline, t, s, |t|);
    forall y | s <= y < end ensures t[y] != '\n' { assert !Stops(Newline, t[y]); }
    hide Until;
  }

  lemma NextBegins(t: string, l: Line, m: Line)
    requires l.to < |t| && t[l.to] == '\n' && m.from == l.to + 1
    ensures Adjoin(t, l, m)
  {}

  // ----- which number an address is found under -----

  predicate Inside(t: string, l: Line) { l.from <= l.to <= |t| }

  function NumberOn(t: string, l: Line): Number {
    if !Inside(t, l) then Unseen
    else
      var m := FirstCid(t, l.from, l.to);
      if m.Span? then Seen(t[m.from..m.to]) else Unseen
  }

  function AddressOn(k: Kind, t: string, l: Line): (b: Option<nat>) {
    if Inside(t, l) then FirstAddress(k, t, l.from, l.to) else None
  }

  /** Among the lines from `j` to `i` none but `j` has a number. */
  predicate LastNumber(t: string, ls: seq<Line>, j: nat, i: nat)
    requires i < |ls|
  {
    j <= i && NumberOn(t, ls[j]).Seen? && forall m | j < m <= i :: NumberOn(t, ls[m]).Unseen?
  }

  predicate NoNumber(t: string, ls: seq<Line>, i: nat)
    requires i < |ls|
  {
    forall m | 0 <= m <= i :: NumberOn(t, ls[m]).Unseen?
  }

  /** From line `j` up to `i` no address; for the fee accounts this does not matter. */
  predicate Unspent(k: Kind, t: string, ls: seq<Line>, j: nat, i: nat)
    requires i < |ls|
  {
    k == Fee || forall m | j <= m < i :: AddressOn(k, t, ls[m]).None?
  }

  /** Line `i` of `ls` yields `f`, when `current` is in force in front of them. */
  ghost predicate Yields(k: Kind, t: string, ls: seq<Line>, i: nat, line: nat, current: Number, f: Found)
    requires i < |ls|
  {
    && AddressOn(k, t, ls[i]) == Some(f.at) && f.line == line + i + 1
    && f.at + 64 <= |t| && f.hex == Lower(t[f.at..f.at + 64])
    && InForce(k, t, ls, i, current, f.cid)
  }

  /** On line `i` the number `cid` is in force: read on the last line with a number, or in front of them all. */
  ghost predicate InForce(k: Kind, t: string, ls: seq<Line>, i: nat, current: Number, cid: string)
    requires i < |ls|
  {
    || SomeNumber(k, t, ls, i, cid)
    || (NoNumber(t, ls, i) && current == Seen(cid) && Unspent(k, t, ls, 0, i))
  }

  lemma LastNumberTail(t: string, ls: seq<Line>, j: nat, i: nat)
    requires 0 < i < |ls|
    ensures j > 0 ==> (LastNumber(t, ls, j, i) <==> LastNumber(t, ls[1..], j - 1, i - 1))
    ensures LastNumber(t, ls, 0, i) <==> NumberOn(t, ls[0]).Seen? && NoNumber(t, ls[1..], i - 1)
    ensures NoNumber(t, ls, i) <==> NumberOn(t, ls[0]).Unseen? && NoNumber(t, ls[1..], i - 1)
  {
    hide NumberOn;
    var rest := ls[1..];
    assert forall m | 0 < m <= i :: ls[m] == rest[m - 1];
    assert forall m | 0 <= m < i :: rest[m] == ls[m + 1];
  }

  lemma UnspentTail(k: Kind, t: string, ls: seq<Line>, j: nat, i: nat)
    requires 0 < i < |ls|
    ensures j > 0 ==> (Unspent(k, t, ls, j, i) <==> Unspent(k, t, ls[1..], j - 1, i - 1))
    ensures Unspent(k, t, ls, 0, i) <==>
            (k == Fee || AddressOn(k, t, ls[0]).None?) && Unspent(k, t, ls[1..], 0, i - 1)
  {
    hide AddressOn;
    var rest := ls[1..];
    assert forall m | 0 < m < i :: ls[m] == rest[m - 1];
    assert forall m | 0 <= m < i - 1 :: rest[m] == ls[m + 1];
  }

  /** What is in force behind a line. */
  function After(k: Kind, t: string, l: Line, current: Number): Number {
    var cid := if NumberOn(t, l).Seen? then NumberOn(t, l) else current;
    if AddressOn(k, t, l).Some? && k != Fee then Unseen else cid
  }

  /** The number in force on line `i` is one read on a line. */
  ghost predicate NumberAt(k: Kind, t: string, ls: seq<Line>, i: nat, cid: string, j: nat)
    requires i < |ls|
  {
    LastNumber(t, ls, j, i) && NumberOn(t, ls[j]) == Seen(cid) && Unspent(k, t, ls, j, i)
  }

  lemma NumberAtTail(k: Kind, t: string, ls: seq<Line>, i: nat, cid: string, j: nat)
    requires 0 < i < |ls| && j > 0
    ensures NumberAt(k, t, ls, i, cid, j) <==> NumberAt(k, t, ls[1..], i - 1, cid, j - 1)
  {
    LastNumberTail(t, ls, j, i);
    UnspentTail(k, t, ls, j, i);
    if j <= i { assert ls[1..][j - 1] == ls[j]; }
    hide NumberOn, Unspent;
  }

  lemma NumberAtHead(k: Kind, t: string, ls: seq<Line>, i: nat, current: Number, cid: string)
    requires 0 < i < |ls|
    ensures var now := After(k, t, ls[0], current);
            NumberAt(k, t, ls, i, cid, 0) || (NoNumber(t, ls, i) && current == Seen(cid) && Unspent(k, t, ls, 0, i))
            <==> NoNumber(t, ls[1..], i - 1) && now == Seen(cid) && Unspent(k, t, ls[1..], 0, i - 1)
  {
    LastNumberTail(t, ls, 0, i);
    UnspentTail(k, t, ls, 0, i);
    hide NumberOn, AddressOn, LastNumber, NoNumber, Unspent;
  }

  lemma InForceTail(k: Kind, t: string, ls: seq<Line>, i: nat, current: Number, cid: string)
    requires 0 < i < |ls|
    ensures InForce(k, t, ls, i, current, cid) <==> InForce(k, t, ls[1..], i - 1, After(k, t, ls[0], current), cid)
  {
    hide NumberAt, NoNumber, Unspent, After, Inside, SomeNumber;
    NumberAtHead(k, t, ls, i, current, cid);
    SomeNumberTail(k, t, ls, i, cid);
  }

  ghost predicate SomeNumber(k: Kind, t: string, ls: seq<Line>, i: nat, cid: string)
    requires i < |ls|
  {
    exists j: nat :: NumberAt(k, t, ls, i, cid, j)
  }

  lemma SomeNumberTail(k: Kind, t: string, ls: seq<Line>, i: nat, cid: string)
    requires 0 < i < |ls|
    ensures SomeNumber(k, t, ls, i, cid) <==> NumberAt(k, t, ls, i, cid, 0) || SomeNumber(k, t, ls[1..], i - 1, cid)
  {
    hide NumberAt;
    var rest, i' := ls[1..], i - 1;
    if j: nat :| NumberAt(k, t, ls, i, cid, j) {
      if j > 0 {
        NumberAtTail(k, t, ls, i, cid, j);
        assert NumberAt(k, t, rest, i', cid, j - 1);
      }
    }
    if j: nat :| NumberAt(k, t, rest, i', cid, j) {
      NumberAtTail(k, t, ls, i, cid, j + 1);
      assert NumberAt(k, t, ls, i, cid, j + 1);
    }
  }

  lemma YieldsTail(k: Kind, t: string, ls: seq<Line>, i: nat, line: nat, current: Number, f: Found)
    requires 0 < i < |ls|
    ensures Yields(k, t, ls, i, line, current, f)
            <==> Yields(k, t, ls[1..], i - 1, line + 1, After(k, t, ls[0], current), f)
  {
    hide InForce, AddressOn, Lower, After, Inside;
    assert ls[1..][i - 1] == ls[i];
    InForceTail(k, t, ls, i, current, f.cid);
  }

  lemma YieldsHead(k: Kind, t: string, ls: seq<Line>, line: nat, current: Number, f: Found)
    requires ls != [] && Inside(t, ls[0])
    ensures Yields(k, t, ls, 0, line, current, f)
            <==> f in OnLine(k, t, ls[0].from, ls[0].to, line, CurrentCid(t, ls[0].from, ls[0].to, current))
  {
    hide FirstCid, FirstAddress, Lower, CurrentCid, InForce, OnLine;
    var l := ls[0];
    var cid := CurrentCid(t, l.from, l.to, current);
    OnLineIs(k, t, l.from, l.to, line, cid);
    HeadNumber(k, t, ls, current, f.cid);
    var m := AddressOn(k, t, l);
    if m.Some? && cid.Seen? {
      InOne(f, Found(cid.cid, line + 1, m.value, Lower(t[m.value..m.value + 64])));
    }
  }

  lemma InOne(f: Found, g: Found)
    ensures f in [g] <==> f.cid == g.cid && f.line == g.line && f.at == g.at && f.hex == g.hex
  {}

  lemma HeadNumber(k: Kind, t: string, ls: seq<Line>, current: Number, cid: string)
    requires ls != [] && Inside(t, ls[0])
    ensures InForce(k, t, ls, 0, current, cid) <==> CurrentCid(t, ls[0].from, ls[0].to, current) == Seen(cid)
  {
    hide FirstCid, FirstAddress;
    var l := ls[0];
    assert LastNumber(t, ls, 0, 0) <==> NumberOn(t, l).Seen?;
    assert NoNumber(t, ls, 0) <==> NumberOn(t, l).Unseen?;
    if NumberOn(t, l) == Seen(cid) { assert NumberAt(k, t, ls, 0, cid, 0) && SomeNumber(k, t, ls, 0, cid); }
  }

  lemma AfterIs(k: Kind, t: string, l: Line, line: nat, current: Number)
    requires Inside(t, l)
    ensures var cid := CurrentCid(t, l.from, l.to, current);
            Following(k, OnLine(k, t, l.from, l.to, line, cid), cid) == After(k, t, l, current)
  {
    hide FirstCid, FirstAddress, Lower;
    OnLineIs(k, t, l.from, l.to, line, CurrentCid(t, l.from, l.to, current));
  }

  /** Some line from `s` on yields `f`. */
  ghost predicate SomeLineYields(k: Kind, t: string, ls: seq<Line>, line: nat, current: Number, f: Found)
  {
    exists i: nat :: i < |ls| && Yields(k, t, ls, i, line, current, f)
  }

  lemma SomeLineStep(k: Kind, t: string, ls: seq<Line>, line: nat, current: Number, f: Found)
    requires ls != []
    ensures SomeLineYields(k, t, ls, line, current, f)
            <==> Yields(k, t, ls, 0, line, current, f)
                 || SomeLineYields(k, t, ls[1..], line + 1, After(k, t, ls[0], current), f)
  {
    hide Yields, After;
    var rest, now, line' := ls[1..], After(k, t, ls[0], current), line + 1;
    forall i: nat | 0 < i < |ls|
      ensures Yields(k, t, ls, i, line, current, f) <==> Yields(k, t, rest, i - 1, line', now, f)
    {
      YieldsTail(k, t, ls, i, line, current, f);
    }
    if i: nat :| i < |rest| && Yields(k, t, rest, i, line', now, f) {
      assert Yields(k, t, ls, i + 1, line, current, f);
    }
  }

  /**
   An address is found exactly when some line matches its pattern and a number is in force there: that of the last
   line with one up to here, provided that, main and stake accounts, no line in between had an address.
   */
  lemma {:induction false} FoundExactly(k: Kind, t: string, s: nat, line: nat, current: Number, f: Found)
    requires s <= |t|
    ensures f in Extracted(k, t, s, line, current) <==> SomeLineYields(k, t, Lines(t, s), line, current, f)
    decreases |t| - s
  {
    hide *;
    var end := Until(Newline, t, s, |t|);
    var now := After(k, t, Lines(t, s)[0], current);
    if end < |t| { FoundExactly(k, t, end + 1, line + 1, now, f); }
    FoundHere(k, t, s, line, current, f, end, now);
  }

  lemma FoundHere(k: Kind, t: string, s: nat, line: nat, current: Number, f: Found, end: nat, now: Number)
    requires s <= |t| && end == Until(Newline, t, s, |t|)
    requires now == After(k, t, Lines(t, s)[0], current)
    requires end < |t| ==> (f in Extracted(k, t, end + 1, line + 1, now) <==> SomeLineYields(k, t, Lines(t, end + 1), line + 1, now, f))
    ensures f in Extracted(k, t, s, line, current) <==> SomeLineYields(k, t, Lines(t, s), line, current, f)
  {
    hide *;
    LinesStep(t, s);
    FoundStep(k, t, s, line, current, f);
    SomeLineStep(k, t, Lines(t, s), line, current, f);
    NothingYields(k, t, line + 1, now, f);
  }

  /** Found on the first line, or on a later one under what is in force behind it. */
  lemma FoundStep(k: Kind, t: string, s: nat, line: nat, current: Number, f: Found)
    requires s <= |t|
    ensures var ls, end := Lines(t, s), Until(Newline, t, s, |t|);
            f in Extracted(k, t, s, line, current)
            <==> Yields(k, t, ls, 0, line, current, f)
                 || (end < |t| && f in Extracted(k, t, end + 1, line + 1, After(k, t, ls[0], current)))
  {
    var ls := Lines(t, s);
    hide *;
    LinesStep(t, s);
    ExtractedStep(k, t, s, line, current);
    YieldsHead(k, t, ls, line, current, f);
    AfterIs(k, t, ls[0], line, current);
  }

  lemma LinesStep(t: string, s: nat)
    requires s <= |t|
    ensures var ls, end := Lines(t, s), Until(Newline, t, s, |t|);
            && ls != [] && ls[0] == Line(s, end) && Inside(t, ls[0])
            && ls[1..] == if end == |t| then [] else Lines(t, end + 1)
  {
    hide Until;
  }

  lemma ExtractedStep(k: Kind, t: string, s: nat, line: nat, current: Number)
    requires s <= |t|
    ensures var end := Until(Newline, t, s, |t|);
            var cid := CurrentCid(t, s, end, current);
            var here := OnLine(k, t, s, end, line, cid);
            Extracted(k, t, s, line, current)
            == if end == |t| then here else here + Extracted(k, t, end + 1, line + 1, Following(k, here, cid))
  {
    hide Until, CurrentCid, OnLine, Following;
  }

  lemma NothingYields(k: Kind, t: string, line: nat, current: Number, f: Found)
    ensures !SomeLineYields(k, t, [], line, current, f)
  {}

  /** Line `i` has the address `f`, and line `j` the number it is found under. */
  ghost predicate FoundOn(k: Kind, t: string, ls: seq<Line>, i: nat, j: nat, f: Found) {
    && j <= i < |ls| && f.line == i + 1
    && AddressOn(k, t, ls[i]) == Some(f.at) && f.at + 64 <= |t| && f.hex == Lower(t[f.at..f.at + 64])
    && NumberOn(t, ls[j]) == Seen(f.cid) && (forall m | j < m <= i :: NumberOn(t, ls[m]).Unseen?)
    && (k == Fee || forall m | j <= m < i :: AddressOn(k, t, ls[m]).None?)
  }

  /**
   The extraction of a text: an address is found exactly when it is the one of a line and its number that of the
   last line with one up to there, where for main and stake accounts no line in between has an address.
   */
  lemma ExtractedExactly(k: Kind, t: string, f: Found)
    ensures f in Extracted(k, t, 0, 0, Unseen) <==> exists i: nat, j: nat :: FoundOn(k, t, Lines(t, 0), i, j, f)
  {
    var ls := Lines(t, 0);
    FoundExactly(k, t, 0, 0, Unseen, f);
    hide Extracted, Lines, NumberOn, AddressOn, Lower;
    if SomeLineYields(k, t, ls, 0, Unseen, f) {
      var i: nat :| i < |ls| && Yields(k, t, ls, i, 0, Unseen, f);
      var j: nat :| NumberAt(k, t, ls, i, f.cid, j);
      assert FoundOn(k, t, ls, i, j, f);
    }
    if i: nat, j: nat :| FoundOn(k, t, ls, i, j, f) {
      assert NumberAt(k, t, ls, i, f.cid, j);
      assert Yields(k, t, ls, i, 0, Unseen, f);
    }
  }
}
