/** Source texts whose addresses are extracted and then missed by the replacement, one for each way this can happen. */
module RewritingCases {
  import opened Bytes
  import opened Text
  import opened Rewriting
  import opened Extraction

  /** A line starts with the number, and goes on with the field's name, `hex!(` and the quote. */
  const NUMBER := "cid_number: \"A\" "
  const FIELD := "main_account: hex!(\""

  function Digits(c: char): string { Repeat(c, 64) }

  function Bare(c: char): string { Literal(Main, Digits(c)) }

  function Line(c: char): string { NUMBER + Bare(c) }

  /** The literal with 64 digits `c` stands at `s`. */
  predicate BareAt(t: string, s: nat, c: char) {
    && s + 86 <= |t|
    && (forall i | 0 <= i < 20 :: t[s + i] == FIELD[i])
    && (forall y | s + 20 <= y < s + 84 :: t[y] == c)
    && t[s + 84] == '"' && t[s + 85] == ')'
  }

  predicate LineAt(t: string, s: nat, c: char) {
    s + 102 <= |t| && (forall i | 0 <= i < 16 :: t[s + i] == NUMBER[i]) && BareAt(t, s + 16, c)
  }

  lemma BareShape(c: char)
    ensures |Bare(c)| == 86 && BareAt(Bare(c), 0, c)
  {
    var t := Bare(c);
    assert Lead(Main) == FIELD;
    forall y | 20 <= y < 84 ensures t[y] == c { assert t[y] == Digits(c)[y - 20]; }
  }

  lemma LineShape(c: char)
    ensures |NUMBER| == 16 && |Line(c)| == 102 && LineAt(Line(c), 0, c)
  {
    BareShape(c);
    var t, b := Line(c), Bare(c);
    hide Bare;
    assert forall i | 0 <= i < 86 :: t[16 + i] == b[i];
    forall y | 36 <= y < 100 ensures t[y] == c { assert t[16 + (y - 16)] == b[y - 16]; }
  }

  /** A line inside a text, behind `x`. */
  lemma LineInside(x: string, c: char, y: string)
    ensures |Line(c)| == 102 && LineAt(x + Line(c) + y, |x|, c)
  {
    LineShape(c);
    var u, t := Line(c), x + Line(c) + y;
    hide Line;
    assert forall i | 0 <= i < 102 :: t[|x| + i] == u[i];
    forall i | 0 <= i < 20 ensures t[|x| + 16 + i] == FIELD[i] { assert t[|x| + (16 + i)] == u[16 + i] == u[0 + 16 + i]; }
    forall q | |x| + 36 <= q < |x| + 100 ensures t[q] == c { assert t[|x| + (q - |x|)] == u[q - |x|]; }
  }

  /** The three literals as they are written in the sources. */
  lemma LiteralSpelled(hex: string)
    ensures Literal(Main, hex) == "main_account: hex!(\"" + hex + "\")"
    ensures Literal(Fee, hex) == "fee_account: hex!(\"" + hex + "\")"
    ensures Literal(Stake, hex) == "stake_account: hex!(\"" + hex + "\")"
  {
    assert Lead(Main) == "main_account: hex!(\"";
    assert Lead(Fee) == "fee_account: hex!(\"";
    assert Lead(Stake) == "stake_account: hex!(\"";
  }

  // ----- the patterns on a line -----

  lemma WordHere(w: string, t: string, p: nat, end: nat)
    requires p + |w| <= end <= |t| && forall i | 0 <= i < |w| :: t[p + i] == w[i]
    ensures WordAt(w, t, p, end)
  {
    assert t[p..p + |w|] == w;
  }

  lemma WordNotHere(w: string, t: string, p: nat, end: nat, i: nat)
    requires end <= |t| && i < |w| && p + i < |t| && t[p + i] != w[i]
    ensures !WordAt(w, t, p, end)
  {
    if p + |w| <= end { assert t[p..p + |w|][i] == t[p + i]; }
  }

  lemma UntilHere(s: Stop, t: string, p: nat, q: nat, end: nat)
    requires p <= q <= end <= |t| && (q < end ==> Stops(s, t[q])) && forall y | p <= y < q :: !Stops(s, t[y])
    ensures Until(s, t, p, end) == q
    decreases q - p
  {
    if p < q { UntilHere(s, t, p + 1, q, end); }
  }

  lemma NumberFound(t: string, s: nat, end: nat)
    requires s + 16 <= end <= |t| && forall i | 0 <= i < 16 :: t[s + i] == NUMBER[i]
    ensures FirstCid(t, s, end) == Span(s + 13, s + 14) && t[s + 13..s + 14] == "A"
  {
    hide Until;
    assert |CID| == 11 && forall i | 0 <= i < 11 :: CID[i] == NUMBER[i];
    WordHere(CID, t, s, end);
    assert t[s + 11] == NUMBER[11] == ' ' && t[s + 12] == NUMBER[12] == '"';
    assert t[s + 13] == NUMBER[13] == 'A' && t[s + 14] == NUMBER[14] == '"';
    UntilHere(NonSpace, t, s + 11, s + 12, end);
    UntilHere(Quote, t, s + 13, s + 14, end);
    assert CidAt(t, s, end) == Span(s + 13, s + 14);
  }

  /** Before the field's name no address begins. */
  lemma NotInNumber(t: string, s: nat, c: char, p: nat)
    requires LineAt(t, s, c) && p < 16
    ensures AddressAt(Main, t, s + p, s + 102) == None
  {
    hide Until, MacroAt, BareAt;
    assert Field(Main)[0] == 'm' && Field(Main)[1] == 'a';
    if p == 6 {
      assert t[s + 7] == NUMBER[7] == 'b';
      WordNotHere(Field(Main), t, s + p, s + 102, 1);
    } else {
      assert t[s + p] == NUMBER[p] != 'm';
      WordNotHere(Field(Main), t, s + p, s + 102, 0);
    }
  }

  lemma AddressHere(t: string, s: nat, c: char)
    requires BareAt(t, s, c) && IsHex(c)
    ensures AddressAt(Main, t, s, s + 86) == Some(s + 20)
  {
    hide Until;
    assert |Field(Main)| == 13 && forall i | 0 <= i < 13 :: Field(Main)[i] == FIELD[i];
    WordHere(Field(Main), t, s, s + 86);
    assert t[s + 13] == FIELD[13] == ' ' && t[s + 14] == FIELD[14] == 'h';
    UntilHere(NonSpace, t, s + 13, s + 14, s + 86);
    assert |HEX| == 5 && forall i | 0 <= i < 5 :: HEX[i] == FIELD[14 + i];
    forall i | 0 <= i < 5 ensures t[s + 14 + i] == HEX[i] { assert t[s + (14 + i)] == FIELD[14 + i]; }
    WordHere(HEX, t, s + 14, s + 86);
    assert t[s + 19] == FIELD[19] == '"';
    assert Digits64(t, s + 20);
  }

  lemma {:induction false} AddressFrom(t: string, s: nat, c: char, p: nat)
    requires LineAt(t, s, c) && IsHex(c) && p <= 16
    ensures FirstAddress(Main, t, s + p, s + 102) == Some(s + 36)
    decreases 16 - p
  {
    hide AddressAt, BareAt;
    if p == 16 {
      AddressHere(t, s + 16, c);
    } else {
      NotInNumber(t, s, c, p);
      AddressFrom(t, s, c, p + 1);
    }
  }

  lemma NoNewline(t: string, s: nat, c: char)
    requires BareAt(t, s, c) && c != '\n'
    ensures forall y | s <= y < s + 86 :: t[y] != '\n'
  {
    forall y | s <= y < s + 86 ensures t[y] != '\n' {
      if y < s + 20 { assert t[s + (y - s)] == FIELD[y - s]; }
      else if y < s + 84 { assert t[y] == c; }
    }
  }

  lemma LineEnds(t: string, s: nat, c: char)
    requires LineAt(t, s, c) && c != '\n' && (s + 102 < |t| ==> t[s + 102] == '\n')
    ensures Until(Newline, t, s, |t|) == s + 102
  {
    NoNewline(t, s + 16, c);
    hide Until, BareAt;
    forall y | s <= y < s + 102 ensures t[y] != '\n' {
      if y < s + 16 { assert t[s + (y - s)] == NUMBER[y - s]; }
    }
    UntilHere(Newline, t, s, s + 102, |t|);
  }

  lemma LowerOfMany(t: string, s: nat, c: char)
    requires BareAt(t, s, c)
    ensures Lower(t[s + 20..s + 84]) == Digits(LowerChar(c))
  {
    assert forall i {:trigger Lower(t[s + 20..s + 84])[i]} | 0 <= i < 64 :: t[s + 20..s + 84][i] == t[s + 20 + i] == c;
    assert forall i | 0 <= i < 64 :: Digits(LowerChar(c))[i] == LowerChar(c);
  }

  /** What such a line yields. */
  function Of(line: nat, s: nat, c: char): Found { Found("A", line + 1, s + 36, Digits(LowerChar(c))) }

  lemma LineYields(t: string, s: nat, c: char, line: nat, current: Number)
    requires LineAt(t, s, c) && IsHex(c) && (s + 102 < |t| ==> t[s + 102] == '\n')
    ensures Extracted(Main, t, s, line, current)
            == if s + 102 == |t| then [Of(line, s, c)]
               else [Of(line, s, c)] + Extracted(Main, t, s + 103, line + 1, Unseen)
  {
    hide OnLine, CurrentCid, Until, LineAt, Digits;
    LineShows(t, s, c, line, current);
    LineEnds(t, s, c);
  }

  lemma LineShows(t: string, s: nat, c: char, line: nat, current: Number)
    requires LineAt(t, s, c) && IsHex(c)
    ensures CurrentCid(t, s, s + 102, current) == Seen("A")
    ensures OnLine(Main, t, s, s + 102, line, Seen("A")) == [Of(line, s, c)]
  {
    hide FirstAddress, FirstCid, Lower, OnLine, BareAt, Digits;
    NumberFound(t, s, s + 102);
    AddressFrom(t, s, c, 0);
    LowerOfMany(t, s + 16, c);
    OnLineIs(Main, t, s, s + 102, line, Seen("A"));
  }

  // ----- the first occurrence of a literal -----

  lemma ReplacedAt(x: string, was: string, y: string, now: string)
    requires forall p | 0 <= p < |x| :: !Stands(x + was + y, p, was)
    ensures ReplaceFirst(x + was + y, was, now) == x + now + y
  {
    var t := x + was + y;
    StandsBehind(x, was, y);
    assert x + (was + y) == t;
    var p := Find(t, was, 0).value;
    hide Find, Stands;
    assert p == |x|;
    assert t[..|x|] == x && t[|x| + |was|..] == y;
  }

  lemma NotInsideNumber(t: string, c: char, d: char, p: nat)
    requires LineAt(t, 0, c) && p < 16
    ensures !Stands(t, p, Bare(d))
  {
    assert Lead(Main)[0] == 'm' && Lead(Main)[1] == 'a';
    if p == 6 { assert t[0 + 7] == NUMBER[7] == 'b'; } else { assert t[0 + p] == NUMBER[p] != 'm'; }
    MismatchAt(Main, t, p, Digits(d), if p == 6 then 1 else 0);
  }

  lemma FirstLineReplaced(c: char, d: char, y: string)
    ensures ReplaceFirst(Line(c) + y, Bare(c), Bare(d)) == Line(d) + y
  {
    LineShape(c);
    var t := Line(c) + y;
    assert LineAt(t, 0, c);
    forall p | 0 <= p < |NUMBER| ensures !Stands(t, p, Bare(c)) { NotInsideNumber(t, c, c, p); }
    hide Bare, Stands, LineAt;
    assert NUMBER + Bare(c) + y == t;
    ReplacedAt(NUMBER, Bare(c), y, Bare(d));
  }

  // ----- upper-case digits -----

  /** The address is extracted, in lower case; no occurrence of the literal is found, so nothing is replaced. */
  lemma UpperCaseExtractedAndMissed(now: string)
    ensures Extracted(Main, Line('A'), 0, 0, Unseen) == [Found("A", 1, 36, Digits('a'))]
    ensures ReplaceFirst(Line('A'), Bare('a'), now) == Line('A')
  {
    hide Line, Bare, Find, Extracted, LineAt, Digits;
    LineShape('A');
    LineYields(Line('A'), 0, 'A', 0, Unseen);
    LiteralMissing();
  }

  lemma LiteralMissing()
    ensures Find(Line('A'), Bare('a'), 0) == None
  {
    LineShape('A');
    BareShape('a');
    var t, w := Line('A'), Bare('a');
    assert w[0 + 83] == 'a';
    hide Line, Bare;
    forall q: nat ensures !Stands(t, q, w) {
      if q + 86 <= 102 {
        assert t[q + 83] == 'A';
        assert t[q..q + 86][83] == t[q + 83];
      }
    }
  }

  // ----- a new address that is the next one's old one -----

  function TwoLines(c: char, d: char): string { Line(c) + ("\n" + Line(d)) }

  const CHAIN: seq<Entry> := [Entry(36, Digits('a'), Digits('b')), Entry(139, Digits('b'), Digits('c'))]

  lemma TwoLinesYield(c: char, d: char)
    requires IsLowerHex(c) && IsLowerHex(d)
    ensures Extracted(Main, TwoLines(c, d), 0, 0, Unseen) == [Found("A", 1, 36, Digits(c)), Found("A", 2, 139, Digits(d))]
  {
    var t := TwoLines(c, d);
    TwoLinesShape(c, d);
    hide LineAt, Extracted, TwoLines, Line, Digits;
    LineYields(t, 0, c, 0, Unseen);
    LineYields(t, 103, d, 1, Unseen);
  }

  lemma TwoLinesShape(c: char, d: char)
    ensures var t := TwoLines(c, d); |t| == 205 && t[102] == '\n' && LineAt(t, 0, c) && LineAt(t, 103, d)
  {
    LineInside("", c, "\n" + Line(d));
    LineInside(Line(c) + "\n", d, "");
    hide Line, LineAt;
    assert TwoLines(c, d) == "" + Line(c) + ("\n" + Line(d)) == Line(c) + "\n" + Line(d) + "";
  }

  /** The first address becomes the second one's old digits, and the second replacement is made in the first line. */
  lemma NewAddressReplacedAgain()
    ensures Extracted(Main, TwoLines('a', 'b'), 0, 0, Unseen)
            == [Found("A", 1, CHAIN[0].at, CHAIN[0].oldHex), Found("A", 2, CHAIN[1].at, CHAIN[1].oldHex)]
    ensures AfterReplacing(Main, TwoLines('a', 'b'), CHAIN, 2) == TwoLines('c', 'b')
  {
    TwoLinesYield('a', 'b');
    FirstLineReplaced('a', 'b', "\n" + Line('b'));
    FirstLineReplaced('b', 'c', "\n" + Line('b'));
    hide ReplaceFirst, Line, Literal, Digits, Extracted;
    assert AfterReplacing(Main, TwoLines('a', 'b'), CHAIN, 0) == TwoLines('a', 'b');
    assert AfterReplacing(Main, TwoLines('a', 'b'), CHAIN, 1) == TwoLines('b', 'b');
  }

  // ----- the same digits in front of the first number -----

  function BareFirst(c: char, d: char): string { Bare(c) + ("\n" + Line(d)) }

  lemma NoNumberHere(t: string, s: nat, p: nat)
    requires BareAt(t, s, 'a') && p <= 86
    ensures CidAt(t, s + p, s + 86) == NoSpan
  {
    assert CID[0] == 'c' && CID[1] == 'i';
    hide QuotedAt, Until;
    if p < 76 {
      if p == 6 || p == 7 {
        assert t[s + (p + 1)] == FIELD[p + 1] != 'i';
        WordNotHere(CID, t, s + p, s + 86, 1);
      } else {
        assert t[s + p] != 'c' by { if p < 20 { assert t[s + p] == FIELD[p]; } }
        WordNotHere(CID, t, s + p, s + 86, 0);
      }
    }
  }

  lemma {:induction false} NoNumberInBare(t: string, s: nat, p: nat)
    requires BareAt(t, s, 'a') && p <= 86
    ensures FirstCid(t, s + p, s + 86) == NoSpan
    decreases 86 - p
  {
    NoNumberHere(t, s, p);
    hide CidAt, BareAt;
    if p < 86 { NoNumberInBare(t, s, p + 1); }
  }

  /** A line without a number yields nothing when none is in force. */
  lemma BareYieldsNothing(t: string)
    requires BareAt(t, 0, 'a') && |t| > 86 && t[86] == '\n'
    ensures Extracted(Main, t, 0, 0, Unseen) == Extracted(Main, t, 87, 1, Unseen)
  {
    hide Until, BareAt, FirstCid, FirstAddress, Lower, OnLine;
    NoNumberInBare(t, 0, 0);
    NoNewline(t, 0, 'a');
    UntilHere(Newline, t, 0, 86, |t|);
    assert CurrentCid(t, 0, 86, Unseen) == Unseen;
    OnLineIs(Main, t, 0, 86, 0, Unseen);
  }

  lemma BareFirstShape()
    ensures var t := BareFirst('a', 'a');
            |t| == 189 && t[86] == '\n' && BareAt(t, 0, 'a') && LineAt(t, 87, 'a')
  {
    BareShape('a');
    LineInside(Bare('a') + "\n", 'a', "");
    hide Bare, Line, LineAt;
    assert BareFirst('a', 'a') == Bare('a') + "\n" + Line('a') + "";
  }

  lemma BareFirstExtracted()
    ensures Extracted(Main, BareFirst('a', 'a'), 0, 0, Unseen) == [Of(1, 87, 'a')]
  {
    BareFirstShape();
    hide LineAt, BareAt, Extracted, BareFirst;
    BareYieldsNothing(BareFirst('a', 'a'));
    LineYields(BareFirst('a', 'a'), 87, 'a', 1, Unseen);
  }

  lemma BareFirstReplaced(y: string)
    ensures ReplaceFirst(Bare('a') + y, Bare('a'), Bare('b')) == Bare('b') + y
  {
    hide ReplaceFirst, Bare;
    ReplacedAt("", Bare('a'), y, Bare('b'));
    assert "" + Bare('a') == Bare('a') && "" + Bare('b') == Bare('b');
  }

  /** The literal in front of the first number is no extracted one, and it is the one that is replaced. */
  lemma UnextractedReplaced()
    ensures Extracted(Main, BareFirst('a', 'a'), 0, 0, Unseen) == [Found("A", 2, 123, Digits('a'))]
    ensures AfterReplacing(Main, BareFirst('a', 'a'), [Entry(123, Digits('a'), Digits('b'))], 1) == BareFirst('b', 'a')
  {
    BareFirstExtracted();
    BareFirstReplaced("\n" + Line('a'));
    hide Extracted, ReplaceFirst, Line, Literal, Digits;
    assert AfterReplacing(Main, BareFirst('a', 'a'), [Entry(123, Digits('a'), Digits('b'))], 0) == BareFirst('a', 'a');
  }

  // ----- number and address on lines of their own -----

  /** The shape of a record: the number on one line, the address on a later one. */
  function Record(): string { NUMBER + "\n" + Bare('a') }

  lemma RecordShape()
    ensures var t := Record();
            |t| == 103 && t[16] == '\n' && BareAt(t, 17, 'a') && forall i | 0 <= i < 16 :: t[0 + i] == NUMBER[i]
  {
    BareShape('a');
    var u, t := Bare('a'), Record();
    hide Bare;
    assert forall i | 0 <= i < 86 :: t[17 + i] == u[i];
    forall i | 0 <= i < 20 ensures t[17 + i] == FIELD[i] { assert u[0 + i] == FIELD[i]; }
    forall y | 37 <= y < 101 ensures t[y] == 'a' { assert t[17 + (y - 17)] == u[y - 17]; }
  }

  /** The number is carried over the line break to the address. */
  lemma NumberCarriedOver()
    ensures Extracted(Main, Record(), 0, 0, Unseen) == [Found("A", 2, 37, Digits('a'))]
  {
    var t := Record();
    RecordShape();
    hide Record, BareAt, FirstCid, FirstAddress, Until, Lower, Extracted, CurrentCid, OnLine, Digits;
    FirstRecordLine(t);
    SecondRecordLine(t);
  }

  lemma FirstRecordLine(t: string)
    requires |t| == 103 && t[16] == '\n' && forall i | 0 <= i < 16 :: t[0 + i] == NUMBER[i]
    ensures Extracted(Main, t, 0, 0, Unseen) == Extracted(Main, t, 17, 1, Seen("A"))
  {
    hide Until, FirstCid, FirstAddress, Lower, OnLine, CurrentCid;
    NumberLineEnds(t);
    NumberLine(t);
  }

  lemma NumberLineEnds(t: string)
    requires |t| == 103 && t[16] == '\n' && forall i | 0 <= i < 16 :: t[0 + i] == NUMBER[i]
    ensures Until(Newline, t, 0, 103) == 16
  {
    hide Until;
    forall y | 0 <= y < 16 ensures t[y] != '\n' { assert t[0 + y] == NUMBER[y]; }
    UntilHere(Newline, t, 0, 16, 103);
  }

  lemma NumberLine(t: string)
    requires |t| == 103 && forall i | 0 <= i < 16 :: t[0 + i] == NUMBER[i]
    ensures CurrentCid(t, 0, 16, Unseen) == Seen("A") && OnLine(Main, t, 0, 16, 0, Seen("A")) == []
  {
    hide Until, FirstCid, FirstAddress, Lower;
    NumberFound(t, 0, 16);
    OnLineIs(Main, t, 0, 16, 0, Seen("A"));
  }

  lemma SecondRecordLine(t: string)
    requires |t| == 103 && BareAt(t, 17, 'a')
    ensures Extracted(Main, t, 17, 1, Seen("A")) == [Found("A", 2, 37, Digits('a'))]
  {
    hide Until, FirstCid, FirstAddress, AddressAt, Lower, BareAt, Digits, OnLine;
    NoNumberInBare(t, 17, 0);
    AddressHere(t, 17, 'a');
    NoNewline(t, 17, 'a');
    LowerOfMany(t, 17, 'a');
    AddressFirst(t, 17, 103);
    UntilHere(Newline, t, 17, 103, 103);
    assert CurrentCid(t, 17, 103, Seen("A")) == Seen("A");
    OnLineIs(Main, t, 17, 103, 1, Seen("A"));
  }

  lemma AddressFirst(t: string, s: nat, end: nat)
    requires s <= end <= |t| && AddressAt(Main, t, s, end).Some?
    ensures FirstAddress(Main, t, s, end) == AddressAt(Main, t, s, end)
  {
    hide AddressAt;
  }
}
