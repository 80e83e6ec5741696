/**
 Extracting again after the rewrite: two texts that differ only in the digits of literals
 yield the same numbers at the same places, so the second extraction reports no change.
 */
module Reextraction {
  import opened Text
  import opened Rewriting
  import opened Extraction

  // ----- texts that differ in digits of literals only -----

  /** Lower-case digits between `("` and `"`. */
  predicate Slot(t: string, b: nat) {
    && 2 <= b && b + 64 < |t| && t[b - 2] == '(' && t[b - 1] == '"' && t[b + 64] == '"'
    && forall y | b <= y < b + 64 :: IsLowerHex(t[y])
  }

  ghost predicate InSlot(t: string, x: nat) { exists b: nat :: b <= x < b + 64 && Slot(t, b) }

  ghost predicate Alike(t: string, r: string) {
    |t| == |r| && forall x: nat | x < |t| && t[x] != r[x] :: InSlot(t, x) && InSlot(r, x)
  }

  lemma AlikeChar(t: string, r: string, x: nat)
    requires Alike(t, r) && x < |t|
    ensures t[x] == r[x] || (IsLowerHex(t[x]) && IsLowerHex(r[x]))
  {
    if t[x] != r[x] {
      assert InSlot(t, x) && InSlot(r, x);
      var b: nat :| b <= x < b + 64 && Slot(t, b);
      var c: nat :| c <= x < c + 64 && Slot(r, c);
    }
  }

  lemma {:induction false} UntilKept(s: Stop, t: string, r: string, p: nat, end: nat)
    requires Alike(t, r) && p <= end <= |t|
    ensures Until(s, t, p, end) == Until(s, r, p, end)
    decreases end - p
  {
    hide Alike;
    if p < end {
      AlikeChar(t, r, p);
      UntilKept(s, t, r, p + 1, end);
    }
  }

  /** A word with a character that is no digit, and without quotes, lies in no slot. */
  lemma WordKept(w: string, i: nat, t: string, r: string, p: nat, end: nat)
    requires Alike(t, r) && end <= |t| && i < |w| && !IsLowerHex(w[i]) && '"' !in w
    ensures WordAt(w, t, p, end) <==> WordAt(w, r, p, end)
  {
    if WordAt(w, t, p, end) { WordCarried(w, i, t, r, p, end); }
    if WordAt(w, r, p, end) { WordCarried(w, i, r, t, p, end); }
  }

  lemma WordChar(w: string, t: string, p: nat, end: nat, j: nat)
    requires end <= |t| && WordAt(w, t, p, end) && j < |w|
    ensures p + j < |t| && t[p + j] == w[j]
  {
    assert t[p..p + |w|][j] == t[p + j];
  }

  lemma SlotChar(t: string, b: nat, x: nat)
    requires Slot(t, b) && b <= x + 2 && x <= b + 64
    ensures x < |t| && (x + 2 == b ==> t[x] == '(') && (x + 1 == b || x == b + 64 ==> t[x] == '"')
    ensures b <= x < b + 64 ==> IsLowerHex(t[x])
  {}

  lemma SlotBounds(t: string, b: nat)
    requires Slot(t, b)
    ensures 2 <= b && b + 64 < |t|
  {}

  lemma WordClear(w: string, i: nat, t: string, p: nat, end: nat, b: nat, j: nat)
    requires end <= |t| && i < |w| && !IsLowerHex(w[i]) && '"' !in w
    requires WordAt(w, t, p, end) && Slot(t, b) && j < |w|
    ensures !(b <= p + j < b + 64)
  {
    hide Slot, WordAt;
    if p < b <= p + |w| {
      WordChar(w, t, p, end, b - 1 - p);
      SlotChar(t, b, b - 1);
    } else if p <= b + 64 < p + |w| {
      WordChar(w, t, p, end, b + 64 - p);
      SlotChar(t, b, b + 64);
    } else if b <= p + i < b + 64 {
      WordChar(w, t, p, end, i);
      SlotChar(t, b, p + i);
    }
  }

  lemma WordCarried(w: string, i: nat, t: string, r: string, p: nat, end: nat)
    requires Alike(t, r) && end <= |t| && i < |w| && !IsLowerHex(w[i]) && '"' !in w
    requires WordAt(w, t, p, end)
    ensures WordAt(w, r, p, end)
  {
    hide Slot;
    forall j: nat | j < |w| ensures p + j < |t| && r[p + j] == w[j] {
      WordChar(w, t, p, end, j);
      if t[p + j] != r[p + j] {
        assert InSlot(t, p + j);
        var b: nat :| b <= p + j < b + 64 && Slot(t, b);
        WordClear(w, i, t, p, end, b, j);
      }
    }
    assert r[p..p + |w|] == w;
  }

  lemma QuoteKept(t: string, r: string, x: nat)
    requires Alike(t, r) && x < |t|
    ensures t[x] == '"' <==> r[x] == '"'
    ensures t[x] == ')' <==> r[x] == ')'
    ensures IsHex(t[x]) <==> IsHex(r[x])
  {
    AlikeChar(t, r, x);
  }

  /** Between the quotes of a number there is no slot: a number's quote follows a colon or a space. */
  lemma CaptureKept(t: string, r: string, q: nat, end: nat)
    requires Alike(t, r) && 0 < q < end <= |t| && t[q] == '"' && t[q - 1] != '('
    ensures var z := Until(Quote, t, q + 1, end); z < end ==> t[q + 1..z] == r[q + 1..z]
  {
    var z := Until(Quote, t, q + 1, end);
    UntilFirst(Quote, t, q + 1, end);
    hide Slot, Until;
    if z == end { return; }
    forall x | q < x < z ensures t[x] == r[x] {
      if t[x] != r[x] {
        assert InSlot(t, x);
        var b: nat :| b <= x < b + 64 && Slot(t, b);
        CaptureClear(t, q, z, x, b);
      }
    }
  }

  lemma CaptureClear(t: string, q: nat, z: nat, x: nat, b: nat)
    requires 0 < q < x < z < |t| && t[q] == '"' && t[q - 1] != '(' && forall y | q < y < z :: t[y] != '"'
    requires Slot(t, b)
    ensures !(b <= x < b + 64)
  {
    hide Slot;
    SlotChar(t, b, b + 64);
    if b <= x < b + 64 {
      SlotBounds(t, b);
      SlotChar(t, b, b - 1);
      SlotChar(t, b, b - 2);
      if b <= q { SlotChar(t, b, q); }
    }
  }

  /** What the pattern of a number reads, step by step. */
  lemma CaptureShape(t: string, p: nat, end: nat, q: nat)
    requires end <= |t| && WordAt(CID, t, p, end) && q == Until(NonSpace, t, p + |CID|, end)
    ensures 0 < q && t[q - 1] != '('
  {
    WordChar(CID, t, p, end, |CID| - 1);
    UntilFirst(NonSpace, t, p + |CID|, end);
  }

  lemma QuotedKept(t: string, r: string, q: nat, end: nat)
    requires Alike(t, r) && 0 < q <= end <= |t| && t[q - 1] != '('
    ensures QuotedAt(t, q, end) == QuotedAt(r, q, end)
    ensures var m := QuotedAt(t, q, end); m.Span? ==> t[m.from..m.to] == r[m.from..m.to]
  {
    hide Alike, Until;
    if q < end {
      QuoteKept(t, r, q);
      if t[q] == '"' {
        UntilKept(Quote, t, r, q + 1, end);
        CaptureKept(t, r, q, end);
      }
    }
  }

  lemma CidKept(t: string, r: string, p: nat, end: nat)
    requires Alike(t, r) && end <= |t|
    ensures CidAt(t, p, end) == CidAt(r, p, end)
    ensures var m := CidAt(t, p, end); m.Span? ==> t[m.from..m.to] == r[m.from..m.to]
  {
    CidWord();
    hide Alike, WordAt, Until, QuotedAt;
    WordKept(CID, 1, t, r, p, end);
    if WordAt(CID, t, p, end) {
      WordBound(CID, t, p, end);
      UntilKept(NonSpace, t, r, p + |CID|, end);
      var q := Until(NonSpace, t, p + |CID|, end);
      CaptureShape(t, p, end, q);
      QuotedKept(t, r, q, end);
    }
  }

  lemma CidWord()
    ensures 1 < |CID| && !IsLowerHex(CID[1]) && '"' !in CID
  {}

  lemma MacroKept(t: string, r: string, q: nat, end: nat)
    requires Alike(t, r) && end <= |t|
    ensures MacroAt(t, q, end) == MacroAt(r, q, end)
  {
    assert |HEX| == 5 && !IsLowerHex(HEX[0]) && '"' !in HEX;
    hide Alike, WordAt, Digits64;
    WordKept(HEX, 0, t, r, q, end);
    var b := q + |HEX| + 1;
    if b + 66 <= end { SlotKept(t, r, b); }
  }

  lemma AddressKept(k: Kind, t: string, r: string, p: nat, end: nat)
    requires Alike(t, r) && end <= |t|
    ensures AddressAt(k, t, p, end) == AddressAt(k, r, p, end)
  {
    var i := FieldWord(k);
    hide Alike, WordAt, Field, Until, MacroAt;
    WordKept(Field(k), i, t, r, p, end);
    if WordAt(Field(k), t, p, end) {
      WordBound(Field(k), t, p, end);
      UntilKept(NonSpace, t, r, p + |Field(k)|, end);
      MacroKept(t, r, Until(NonSpace, t, p + |Field(k)|, end), end);
    }
  }

  lemma WordBound(w: string, t: string, p: nat, end: nat)
    requires end <= |t| && WordAt(w, t, p, end)
    ensures p + |w| <= end
  {}

  lemma FieldWord(k: Kind) returns (i: nat)
    ensures i < |Field(k)| && !IsLowerHex(Field(k)[i]) && '"' !in Field(k)
  {
    i := match k case Main => 4 case Fee => 3 case Stake => 5;
  }

  lemma SlotKept(t: string, r: string, b: nat)
    requires Alike(t, r) && 1 <= b && b + 66 <= |t|
    ensures |r| == |t| && Digits64(t, b) == Digits64(r, b)
    ensures forall y | y == b - 1 || y == b + 64 :: t[y] == '"' <==> r[y] == '"'
    ensures t[b + 65] == ')' <==> r[b + 65] == ')'
  {
    assert |r| == |t|;
    hide Alike, IsHex;
    forall y | b - 1 <= y < b + 66
      ensures (t[y] == '"' <==> r[y] == '"') && (t[y] == ')' <==> r[y] == ')') && (IsHex(t[y]) <==> IsHex(r[y]))
    {
      QuoteKept(t, r, y);
    }
  }

  lemma {:induction false} FirstCidKept(t: string, r: string, p: nat, end: nat)
    requires Alike(t, r) && p <= end <= |t|
    ensures FirstCid(t, p, end) == FirstCid(r, p, end)
    ensures var m := FirstCid(t, p, end); m.Span? ==> t[m.from..m.to] == r[m.from..m.to]
    decreases end - p
  {
    hide CidAt;
    CidKept(t, r, p, end);
    if p < end { FirstCidKept(t, r, p + 1, end); }
  }

  lemma {:induction false} FirstAddressKept(k: Kind, t: string, r: string, p: nat, end: nat)
    requires Alike(t, r) && p <= end <= |t|
    ensures FirstAddress(k, t, p, end) == FirstAddress(k, r, p, end)
    decreases end - p
  {
    hide AddressAt;
    AddressKept(k, t, r, p, end);
    if p < end { FirstAddressKept(k, t, r, p + 1, end); }
  }

  // ----- the two extractions -----

  /** The same number, line and place, with the digits that stand there in `r`. */
  predicate SameButDigits(fs: seq<Found>, gs: seq<Found>, r: string) {
    |fs| == |gs| && forall i | 0 <= i < |fs| ::
      fs[i].at + 64 <= |r| && gs[i] == Found(fs[i].cid, fs[i].line, fs[i].at, Lower(r[fs[i].at..fs[i].at + 64]))
  }

  lemma LineKept(k: Kind, t: string, r: string, s: nat, end: nat, line: nat, cid: Number)
    requires Alike(t, r) && s <= end <= |t|
    ensures SameButDigits(OnLine(k, t, s, end, line, cid), OnLine(k, r, s, end, line, cid), r)
  {
    hide FirstAddress, Lower;
    FirstAddressKept(k, t, r, s, end);
  }

  lemma SameJoined(a: seq<Found>, b: seq<Found>, c: seq<Found>, d: seq<Found>, r: string)
    requires SameButDigits(a, c, r) && SameButDigits(b, d, r)
    ensures SameButDigits(a + b, c + d, r)
  {
    hide Lower;
  }

  lemma {:induction false} ExtractionKept(k: Kind, t: string, r: string, s: nat, line: nat, current: Number)
    requires Alike(t, r) && s <= |t|
    ensures SameButDigits(Extracted(k, t, s, line, current), Extracted(k, r, s, line, current), r)
    decreases |t| - s
  {
    hide Until, OnLine, FirstCid, SameButDigits;
    UntilKept(Newline, t, r, s, |t|);
    var end := Until(Newline, t, s, |t|);
    FirstCidKept(t, r, s, end);
    var cid := CurrentCid(t, s, end, current);
    LineKept(k, t, r, s, end, line, cid);
    var here, there := OnLine(k, t, s, end, line, cid), OnLine(k, r, s, end, line, cid);
    if end < |t| {
      SameEmptiness(here, there, r);
      var next := Following(k, here, cid);
      ExtractionKept(k, t, r, end + 1, line + 1, next);
      SameJoined(here, Extracted(k, t, end + 1, line + 1, next), there, Extracted(k, r, end + 1, line + 1, next), r);
    }
  }

  lemma SameEmptiness(fs: seq<Found>, gs: seq<Found>, r: string)
    requires SameButDigits(fs, gs, r)
    ensures fs == [] <==> gs == []
  {}

  // ----- the round trip -----

  /** The entries of an extraction, `derive` giving the address of a number. */
  function Entries(fs: seq<Found>, derive: string -> string): seq<Entry> {
    seq(|fs|, i requires 0 <= i < |fs| => Entry(fs[i].at, fs[i].hex, derive(fs[i].cid)))
  }

  /** Derived addresses are 64 lower-case digits. */
  predicate HexDerived(es: seq<Entry>) { forall i | 0 <= i < |es| :: LowerHex(es[i].newHex, 64) }

  lemma ExtractedCanonical(k: Kind, t: string, derive: string -> string)
    requires var es := Entries(Extracted(k, t, 0, 0, Unseen), derive); HexDerived(es) && Plain(k, t, es)
    ensures Canonical(k, t, Entries(Extracted(k, t, 0, 0, Unseen), derive))
  {
    FoundInOrder(k, t, 0, 0, Unseen);
    hide Extracted, LowerHex, LiteralAt, Changed, Plain;
  }

  lemma RewrittenAlike(k: Kind, t: string, es: seq<Entry>)
    requires Canonical(k, t, es) && AllUnambiguous(k, t, es, |es|)
    ensures Alike(t, AfterReplacing(k, t, es, |es|))
  {
    RewrittenExactly(k, t, es);
    var r := AfterReplacing(k, t, es, |es|);
    hide AfterReplacing, AllUnambiguous, LiteralAt, Slot, LowerHex, Changed;
    forall x: nat | x < |t| && t[x] != r[x] ensures InSlot(t, x) && InSlot(r, x) {
      assert !Elsewhere(es, x);
      var i :| 0 <= i < |es| && es[i].at <= x < es[i].at + 64 && Changed(es[i]);
      LiteralIsSlot(k, t, es[i].at, es[i].oldHex);
      LiteralIsSlot(k, r, es[i].at, es[i].newHex);
    }
  }

  lemma LeadEnd(k: Kind)
    ensures var n := |Lead(k)|; n >= 18 && Lead(k)[n - 2] == '(' && Lead(k)[n - 1] == '"'
  {}

  lemma LiteralIsSlot(k: Kind, t: string, at: nat, hex: string)
    requires LowerHex(hex, 64) && LiteralAt(k, t, at, hex)
    ensures Slot(t, at)
  {
    LeadEnd(k);
    var p, n := at - |Lead(k)|, |Lead(k)|;
    hide Lead, Literal, Stands;
    LiteralChars(k, hex, t, p, n - 2);
    LiteralChars(k, hex, t, p, n - 1);
    LiteralChars(k, hex, t, p, n + 64);
    forall y | at <= y < at + 64 ensures IsLowerHex(t[y]) { LiteralChars(k, hex, t, p, y - p); }
  }

  lemma DigitsRead(k: Kind, r: string, at: nat, hex: string)
    requires LowerHex(hex, 64) && LiteralAt(k, r, at, hex) && at + 64 <= |r|
    ensures Lower(r[at..at + 64]) == hex
  {
    var p, n := at - |Lead(k)|, |Lead(k)|;
    hide Lead, Literal, Stands;
    forall y | 0 <= y < 64 ensures r[at + y] == hex[y] && IsLowerHex(hex[y]) { LiteralChars(k, hex, r, p, n + y); }
  }

  /** The digits of an entry that is not changed stay what they are, in whatever form. */
  lemma UnchangedKept(t: string, r: string, fs: seq<Found>, es: seq<Entry>, i: nat)
    requires |t| == |r| && |es| == |fs| && Ascending(t, 0, 0, fs) && i < |fs| && !Changed(es[i])
    requires forall j | 0 <= j < |fs| :: es[j].at == fs[j].at
    requires forall x: nat | x < |t| && Elsewhere(es, x) :: r[x] == t[x]
    ensures fs[i].at + 64 <= |t| && r[fs[i].at..fs[i].at + 64] == t[fs[i].at..fs[i].at + 64]
  {
    hide LowerHex, Changed;
    forall x: nat | fs[i].at <= x < fs[i].at + 64 ensures r[x] == t[x] {
      forall j | 0 <= j < |es| && Changed(es[j]) ensures x < es[j].at || es[j].at + 64 <= x {
        if j < i { assert fs[j].at + 66 < fs[i].at; } else if i < j { assert fs[i].at + 66 < fs[j].at; }
      }
      assert Elsewhere(es, x);
    }
  }

  /**
   Extract, rewrite, extract again: the second extraction finds the same numbers on the same
   lines, and every address it finds is the one derived for its number.
   */
  lemma SecondExtractionReportsNoChange(k: Kind, t: string, derive: string -> string)
    requires var es := Entries(Extracted(k, t, 0, 0, Unseen), derive);
             HexDerived(es) && Plain(k, t, es) && AllUnambiguous(k, t, es, |es|)
    ensures var fs := Extracted(k, t, 0, 0, Unseen);
            var es := Entries(fs, derive);
            var gs := Extracted(k, AfterReplacing(k, t, es, |es|), 0, 0, Unseen);
            && |gs| == |fs|
            && (forall i | 0 <= i < |fs| :: gs[i].cid == fs[i].cid && gs[i].line == fs[i].line && gs[i].at == fs[i].at)
            && (forall e | e in Entries(gs, derive) :: !Changed(e))
  {
    var fs := Extracted(k, t, 0, 0, Unseen);
    var es := Entries(fs, derive);
    var r := AfterReplacing(k, t, es, |es|);
    var gs := Extracted(k, r, 0, 0, Unseen);
    hide *;
    ExtractedCanonical(k, t, derive);
    RewrittenAlike(k, t, es);
    RewrittenExactly(k, t, es);
    ExtractionKept(k, t, r, 0, 0, Unseen);
    FoundInOrder(k, t, 0, 0, Unseen);
    ExtractedDigits(k, t, 0, 0, Unseen);
    DerivedEverywhere(k, t, r, fs, gs, derive);
  }

  lemma DerivedEverywhere(k: Kind, t: string, r: string, fs: seq<Found>, gs: seq<Found>, derive: string -> string)
    requires SameButDigits(fs, gs, r) && Ascending(t, 0, 0, fs) && Carries(t, fs) && |t| == |r|
    requires var es := Entries(fs, derive);
             && HexDerived(es)
             && (forall i | 0 <= i < |es| && Changed(es[i]) :: LiteralAt(k, r, es[i].at, es[i].newHex))
             && (forall x: nat | x < |t| && Elsewhere(es, x) :: r[x] == t[x])
    ensures |gs| == |fs|
    ensures forall i | 0 <= i < |fs| :: gs[i].cid == fs[i].cid && gs[i].line == fs[i].line && gs[i].at == fs[i].at
    ensures forall e | e in Entries(gs, derive) :: !Changed(e)
  {
    var es := Entries(fs, derive);
    hide LiteralAt, LowerHex, Lower, Elsewhere, Ascending;
    forall e | e in Entries(gs, derive) ensures !Changed(e) {
      var i :| 0 <= i < |gs| && e == Entries(gs, derive)[i];
      assert fs[i] in fs;
      if Changed(es[i]) {
        DigitsRead(k, r, es[i].at, es[i].newHex);
      } else {
        UnchangedKept(t, r, fs, es, i);
      }
    }
  }
}
