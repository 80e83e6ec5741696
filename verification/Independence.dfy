/**
 One file holds main, fee and stake addresses, and they are rewritten one kind after the other.
 Rewriting one kind leaves the other kinds' addresses as they were, so that after all
 three no extraction reports a change.
 */
module Independence {
  import opened Bytes
  import opened Text
  import opened Rewriting
  import opened Extraction
  import opened Reextraction

  // ----- texts that differ in the literals of one kind -----

  ghost predicate InLiteral(k: Kind, t: string, x: nat) {
    exists b: nat, h :: LowerHex(h, 64) && LiteralAt(k, t, b, h) && b <= x < b + 64
  }

  ghost predicate DiffersIn(k: Kind, t: string, r: string) {
    |t| == |r| && forall x: nat | x < |t| && t[x] != r[x] :: InLiteral(k, t, x) && InLiteral(k, r, x)
  }

  lemma LiteralInSlot(k: Kind, t: string, x: nat)
    requires InLiteral(k, t, x)
    ensures InSlot(t, x)
  {
    hide LiteralAt, LowerHex, Slot;
    var b: nat, h :| LowerHex(h, 64) && LiteralAt(k, t, b, h) && b <= x < b + 64;
    LiteralIsSlot(k, t, b, h);
  }

  lemma DiffersAlike(k: Kind, t: string, r: string)
    requires DiffersIn(k, t, r)
    ensures Alike(t, r)
  {
    hide InLiteral, InSlot;
    forall x: nat | x < |t| && t[x] != r[x] ensures InSlot(t, x) && InSlot(r, x) {
      LiteralInSlot(k, t, x);
      LiteralInSlot(k, r, x);
    }
  }

  lemma RewriteDiffersIn(k: Kind, t: string, es: seq<Entry>)
    requires Canonical(k, t, es) && AllUnambiguous(k, t, es, |es|)
    ensures DiffersIn(k, t, AfterReplacing(k, t, es, |es|))
  {
    RewrittenExactly(k, t, es);
    var r := AfterReplacing(k, t, es, |es|);
    hide AfterReplacing, AllUnambiguous, LiteralAt, LowerHex, Changed;
    forall x: nat | x < |t| && t[x] != r[x] ensures InLiteral(k, t, x) && InLiteral(k, r, x) {
      assert !Elsewhere(es, x);
      var i :| 0 <= i < |es| && es[i].at <= x < es[i].at + 64 && Changed(es[i]);
      assert LowerHex(es[i].oldHex, 64) && LiteralAt(k, t, es[i].at, es[i].oldHex);
      assert LowerHex(es[i].newHex, 64) && LiteralAt(k, r, es[i].at, es[i].newHex);
    }
  }

  // ----- no slot belongs to two kinds -----

  /** Seen from their ends, the names of two fields differ in the tenth or eleventh character. */
  lemma FieldsDiffer(k: Kind, j: Kind)
    requires k != j
    ensures 12 <= |Field(k)| && 12 <= |Field(j)|
    ensures Field(k)[|Field(k)| - 10] != Field(j)[|Field(j)| - 10] || Field(k)[|Field(k)| - 11] != Field(j)[|Field(j)| - 11]
  {}

  lemma FieldEnd(k: Kind)
    ensures 12 <= |Field(k)| && Field(k)[|Field(k)| - 1] == ':'
    ensures |Lead(k)| == |Field(k)| + 7 && Lead(k)[|Lead(k)| - 7] == ' '
    ensures forall i | 0 <= i < |Field(k)| :: Lead(k)[i] == Field(k)[i]
  {}

  /** Where the field's name ends in front of a canonical literal. */
  lemma FieldBeforeLiteral(k: Kind, t: string, b: nat, h: string)
    requires LowerHex(h, 64) && LiteralAt(k, t, b, h)
    ensures 12 <= |Field(k)| && |Lead(k)| == |Field(k)| + 7 <= b <= |t|
    ensures t[b - 7] == ' '
    ensures t[b - 8] == ':' && t[b - 17] == Field(k)[|Field(k)| - 10] && t[b - 18] == Field(k)[|Field(k)| - 11]
  {
    FieldEnd(k);
    var n, p := |Lead(k)|, b - |Lead(k)|;
    hide Lead, Literal, Stands, Field;
    LiteralChars(k, h, t, p, n - 7);
    LiteralChars(k, h, t, p, n - 8);
    LiteralChars(k, h, t, p, n - 17);
    LiteralChars(k, h, t, p, n - 18);
  }

  /** Where the field's name ends in front of an address the pattern matches. */
  lemma FieldBeforeAddress(k: Kind, t: string, p: nat, end: nat, b: nat)
    requires end <= |t| && AddressAt(k, t, p, end) == Some(b) && 7 <= b <= |t| && t[b - 7] == ' '
    requires !IsSpace(t[b - 8])
    ensures 12 <= |Field(k)| && p + |Field(k)| == b - 7
    ensures t[b - 8] == ':' && t[b - 17] == Field(k)[|Field(k)| - 10] && t[b - 18] == Field(k)[|Field(k)| - 11]
  {
    FieldEnd(k);
    var e := p + |Field(k)|;
    var q := Until(NonSpace, t, e, end);
    UntilFirst(NonSpace, t, e, end);
    assert q == b - 6;
    hide Field, Until;
    WordChar(Field(k), t, p, end, |Field(k)| - 1);
    assert !IsSpace(':');
    assert e == b - 7;
    WordChar(Field(k), t, p, end, |Field(k)| - 10);
    WordChar(Field(k), t, p, end, |Field(k)| - 11);
  }

  /** An address of one kind is no literal of another kind. */
  lemma KindsApart(k: Kind, j: Kind, t: string, p: nat, end: nat, b: nat, h: string)
    requires k != j && end <= |t| && AddressAt(j, t, p, end) == Some(b)
    requires LowerHex(h, 64)
    ensures !LiteralAt(k, t, b, h)
  {
    hide Lead, Field, LowerHex, LiteralAt, AddressAt;
    if LiteralAt(k, t, b, h) {
      FieldBeforeLiteral(k, t, b, h);
      FieldBeforeAddress(j, t, p, end, b);
      FieldsDiffer(k, j);
    }
  }

  lemma AddressQuotes(k: Kind, t: string, p: nat, end: nat, b: nat)
    requires end <= |t| && AddressAt(k, t, p, end) == Some(b)
    ensures 0 < b && b + 66 <= |t| && t[b - 1] == '"' && t[b + 64] == '"' && Digits64(t, b)
  {
    hide Digits64, WordAt, Until;
  }

  /** The digits of an address of another kind are the same in both texts. */
  lemma DigitsKept(k: Kind, j: Kind, t: string, r: string, p: nat, end: nat, b: nat)
    requires k != j && DiffersIn(k, t, r) && end <= |t| && AddressAt(j, t, p, end) == Some(b)
    ensures b + 64 <= |t| == |r| && t[b..b + 64] == r[b..b + 64]
  {
    AddressQuotes(j, t, p, end, b);
    hide LowerHex, LiteralAt, AddressAt;
    forall x: nat | b <= x < b + 64 ensures t[x] == r[x] {
      if t[x] != r[x] {
        assert InLiteral(k, t, x);
        var c: nat, h :| LowerHex(h, 64) && LiteralAt(k, t, c, h) && c <= x < c + 64;
        LiteralIsSlot(k, t, c, h);
        SlotsMeet(t, b, c, x);
        KindsApart(k, j, t, p, end, b, h);
      }
    }
  }

  lemma SlotsMeet(t: string, b: nat, c: nat, x: nat)
    requires 0 < b && b + 64 < |t| && t[b - 1] == '"' && t[b + 64] == '"' && Digits64(t, b)
    requires Slot(t, c) && b <= x < b + 64 && c <= x < c + 64
    ensures b == c
  {
    hide Slot, Digits64;
    SlotBounds(t, c);
    if b < c {
      SlotChar(t, c, c - 1);
      DigitAt(t, b, c - 1);
    }
    if c < b { SlotChar(t, c, b - 1); }
  }

  lemma DigitAt(t: string, b: nat, y: nat)
    requires b + 64 <= |t| && Digits64(t, b) && b <= y < b + 64
    ensures IsHex(t[y])
  {}

  // ----- what another kind sees -----

  /** Every address extracted is one the pattern matches. */
  ghost predicate Matched(k: Kind, t: string, b: nat) {
    exists p: nat, end: nat :: end <= |t| && AddressAt(k, t, p, end) == Some(b)
  }

  ghost predicate AllMatched(k: Kind, t: string, fs: seq<Found>) { forall f | f in fs :: Matched(k, t, f.at) }

  lemma {:induction false} FirstIsMatched(k: Kind, t: string, p: nat, end: nat)
    requires p <= end <= |t|
    ensures FirstAddress(k, t, p, end).Some? ==> Matched(k, t, FirstAddress(k, t, p, end).value)
    decreases end - p
  {
    hide AddressAt;
    if p < end { FirstIsMatched(k, t, p + 1, end); }
  }

  lemma {:induction false} ExtractedMatched(k: Kind, t: string, s: nat, line: nat, current: Number)
    requires s <= |t|
    ensures AllMatched(k, t, Extracted(k, t, s, line, current))
    decreases |t| - s
  {
    hide Matched, FirstAddress, Until, CurrentCid, Lower, Following;
    var end := Until(Newline, t, s, |t|);
    FirstIsMatched(k, t, s, end);
    if end < |t| {
      var cid := CurrentCid(t, s, end, current);
      ExtractedMatched(k, t, end + 1, line + 1, Following(k, OnLine(k, t, s, end, line, cid), cid));
    }
  }

  /** Another kind extracts the same numbers, places and digits. */
  lemma OtherExtractionSame(k: Kind, j: Kind, t: string, r: string)
    requires k != j && DiffersIn(k, t, r)
    ensures Extracted(j, r, 0, 0, Unseen) == Extracted(j, t, 0, 0, Unseen)
  {
    hide *;
    DiffersAlike(k, t, r);
    ExtractionKept(j, t, r, 0, 0, Unseen);
    ExtractedMatched(j, t, 0, 0, Unseen);
    ExtractedDigits(j, t, 0, 0, Unseen);
    SameFound(k, j, Extracted(j, t, 0, 0, Unseen), Extracted(j, r, 0, 0, Unseen), t, r);
  }

  lemma MatchedKept(k: Kind, j: Kind, t: string, r: string, b: nat)
    requires k != j && DiffersIn(k, t, r) && Matched(j, t, b)
    ensures b + 64 <= |t| == |r| && t[b..b + 64] == r[b..b + 64]
  {
    hide AddressAt, DiffersIn;
    var p: nat, end: nat :| end <= |t| && AddressAt(j, t, p, end) == Some(b);
    DigitsKept(k, j, t, r, p, end, b);
  }

  lemma SameFound(k: Kind, j: Kind, fs: seq<Found>, gs: seq<Found>, t: string, r: string)
    requires k != j && DiffersIn(k, t, r)
    requires SameButDigits(fs, gs, r) && Carries(t, fs) && AllMatched(j, t, fs)
    ensures gs == fs
  {
    hide Lower, Matched, DiffersIn;
    forall i | 0 <= i < |fs| ensures gs[i] == fs[i] {
      assert fs[i] in fs;
      MatchedKept(k, j, t, r, fs[i].at);
    }
  }

  /** What stands before the opening quote of a literal. */
  function Word(k: Kind): string { Field(k) + " " + HEX }

  lemma WordIs(k: Kind) returns (i: nat)
    ensures Lead(k) == Word(k) + "\"" && i < |Word(k)| && !IsLowerHex(Word(k)[i]) && '"' !in Word(k)
  {
    i := match k case Main => 4 case Fee => 3 case Stake => 5;
  }

  /** A canonical literal, taken apart. */
  lemma LiteralParts(k: Kind, t: string, b: nat, h: string)
    requires |h| == 64
    ensures |Lead(k)| == |Word(k)| + 1
    ensures LiteralAt(k, t, b, h) <==>
            && |Lead(k)| <= b && b + 66 <= |t| && WordAt(Word(k), t, b - |Lead(k)|, |t|)
            && t[b - 1] == '"' && t[b..b + 64] == h && t[b + 64] == '"' && t[b + 65] == ')'
  {
    var i := WordIs(k);
    hide Word, Lead;
    if |Lead(k)| <= b && b + 66 <= |t| {
      var p := b - |Lead(k)|;
      assert |Literal(k, h)| == Width(k);
      assert t[p..p + Width(k)] == t[p..b - 1] + [t[b - 1]] + t[b..b + 64] + [t[b + 64], t[b + 65]];
      SameParts(t[p..b - 1], Word(k), t[b - 1], '"', t[b..b + 64], h, [t[b + 64], t[b + 65]], TAIL);
      assert Literal(k, h) == Word(k) + ['"'] + h + TAIL;
    } else {
      assert |Literal(k, h)| == Width(k);
    }
  }

  lemma SameParts(a: string, a': string, c: char, c': char, d: string, d': string, e: string, e': string)
    requires |a| == |a'| && |d| == |d'| && |e| == |e'|
    ensures a + [c] + d + e == a' + [c'] + d' + e' <==> a == a' && c == c' && d == d' && e == e'
  {
    var s, s' := a + [c] + d + e, a' + [c'] + d' + e';
    var m, n := |a| + 1, |a| + 1 + |d|;
    assert s[..|a|] == a && s[|a|] == c && s[m..n] == d && s[n..] == e;
    assert s'[..|a|] == a' && s'[|a|] == c' && s'[m..n] == d' && s'[n..] == e';
  }

  lemma WordSplit(v: string, w: string, t: string, p: nat, end: nat)
    requires end <= |t| && WordAt(v + w, t, p, end)
    ensures WordAt(v, t, p, end) && WordAt(w, t, p + |v|, end)
  {
    var s := t[p..p + |v + w|];
    assert s[..|v|] == v && s[|v|..] == w;
    assert t[p..p + |v|] == s[..|v|] && t[p + |v|..p + |v| + |w|] == s[|v|..];
  }

  lemma WordEarlier(w: string, t: string, p: nat, end: nat, to: nat)
    requires to <= end <= |t| && WordAt(w, t, p, end) && p + |w| <= to
    ensures WordAt(w, t, p, to)
  {}

  /** A canonical literal is an address the pattern matches. */
  lemma LiteralMatched(k: Kind, t: string, b: nat, h: string)
    requires LowerHex(h, 64) && LiteralAt(k, t, b, h)
    ensures b + 66 <= |t| && AddressAt(k, t, b - |Lead(k)|, b + 66) == Some(b)
  {
    LiteralParts(k, t, b, h);
    FieldEnd(k);
    var p, e := b - |Lead(k)|, b - 7;
    assert p + |Field(k)| == e && |HEX| == 5;
    LiteralIsSlot(k, t, b, h);
    WordSplit(Field(k) + " ", HEX, t, p, |t|);
    WordSplit(Field(k), " ", t, p, |t|);
    hide Field, Word, LiteralAt, LowerHex, Lead, WordAt;
    WordEarlier(Field(k), t, p, |t|, b + 66);
    WordEarlier(HEX, t, e + 1, |t|, b + 66);
    WordChar(" ", t, e, |t|, 0);
    WordChar(HEX, t, e + 1, |t|, 0);
    UntilOne(t, e, b + 66);
    assert Digits64(t, b);
  }

  lemma UntilOne(t: string, e: nat, end: nat)
    requires e + 1 < end <= |t| && t[e] == ' ' && t[e + 1] == 'h'
    ensures Until(NonSpace, t, e, end) == e + 1
  {
    assert Until(NonSpace, t, e, end) == Until(NonSpace, t, e + 1, end);
  }

  lemma OtherLiteralKept(k: Kind, j: Kind, t: string, r: string, b: nat, h: string)
    requires k != j && DiffersIn(k, t, r) && LowerHex(h, 64) && LiteralAt(j, t, b, h)
    ensures LiteralAt(j, r, b, h)
  {
    DiffersAlike(k, t, r);
    assert |h| == 64 && |t| == |r|;
    var p := b - |Lead(j)|;
    hide *;
    LiteralParts(j, t, b, h);
    LiteralMatched(j, t, b, h);
    DigitsKept(k, j, t, r, p, b + 66, b);
    var i := WordIs(j);
    WordKept(Word(j), i, t, r, p, |t|);
    QuoteKept(t, r, b - 1);
    QuoteKept(t, r, b + 64);
    QuoteKept(t, r, b + 65);
    LiteralParts(j, r, b, h);
  }

  lemma OtherLiteralSame(k: Kind, j: Kind, t: string, r: string, b: nat, h: string)
    requires k != j && DiffersIn(k, t, r) && LowerHex(h, 64)
    ensures LiteralAt(j, t, b, h) <==> LiteralAt(j, r, b, h)
  {
    hide LiteralAt, LowerHex, InLiteral;
    assert DiffersIn(k, r, t);
    if LiteralAt(j, t, b, h) { OtherLiteralKept(k, j, t, r, b, h); }
    if LiteralAt(j, r, b, h) { OtherLiteralKept(k, j, r, t, b, h); }
  }

  // ----- the three rewrites -----

  function EntriesOf(k: Kind, t: string, derive: string -> string): seq<Entry> {
    Entries(Extracted(k, t, 0, 0, Unseen), derive)
  }

  /** The file after its addresses of one kind were extracted and rewritten. */
  function Applied(k: Kind, t: string, derive: string -> string): string {
    var es := EntriesOf(k, t, derive);
    AfterReplacing(k, t, es, |es|)
  }

  /** The rewrite of this kind meets its condition. */
  ghost predicate Ready(k: Kind, t: string, derive: string -> string) {
    var es := EntriesOf(k, t, derive);
    HexDerived(es) && Plain(k, t, es) && AllUnambiguous(k, t, es, |es|)
  }

  /** The extraction of this kind reports no change. */
  predicate Settled(k: Kind, t: string, derive: string -> string) {
    forall e | e in EntriesOf(k, t, derive) :: !Changed(e)
  }

  lemma UnambiguousSame(k: Kind, j: Kind, t: string, r: string, es: seq<Entry>, n: nat)
    requires k != j && DiffersIn(k, t, r) && n < |es| && LowerHex(es[n].oldHex, 64)
    requires Unambiguous(j, t, es, n)
    ensures Unambiguous(j, r, es, n)
  {
    hide LiteralAt, LowerHex, DiffersIn, ChangedAt;
    forall at | 0 <= at < es[n].at && LiteralAt(j, r, at, es[n].oldHex) ensures ChangedAt(es, n, at) {
      OtherLiteralSame(k, j, t, r, at, es[n].oldHex);
    }
  }

  lemma LowerEntries(k: Kind, t: string, derive: string -> string)
    ensures var es := EntriesOf(k, t, derive); forall i | 0 <= i < |es| :: LowerHex(es[i].oldHex, 64)
  {
    FoundInOrder(k, t, 0, 0, Unseen);
    hide Extracted, LowerHex;
  }

  lemma PlainSame(k: Kind, j: Kind, t: string, r: string, es: seq<Entry>)
    requires k != j && DiffersIn(k, t, r) && Plain(j, t, es)
    requires forall i | 0 <= i < |es| :: LowerHex(es[i].oldHex, 64)
    ensures Plain(j, r, es)
  {
    hide LiteralAt, LowerHex, DiffersIn;
    forall i | 0 <= i < |es| && Changed(es[i]) ensures LiteralAt(j, r, es[i].at, es[i].oldHex) {
      OtherLiteralSame(k, j, t, r, es[i].at, es[i].oldHex);
    }
  }

  lemma AllUnambiguousSame(k: Kind, j: Kind, t: string, r: string, es: seq<Entry>)
    requires k != j && DiffersIn(k, t, r) && AllUnambiguous(j, t, es, |es|)
    requires forall i | 0 <= i < |es| :: LowerHex(es[i].oldHex, 64)
    ensures AllUnambiguous(j, r, es, |es|)
  {
    hide LowerHex, DiffersIn, Unambiguous;
    forall i | 0 <= i < |es| && Changed(es[i]) ensures Unambiguous(j, r, es, i) {
      UnambiguousSame(k, j, t, r, es, i);
    }
  }

  lemma ReadySame(k: Kind, j: Kind, t: string, r: string, derive: string -> string)
    requires k != j && DiffersIn(k, t, r) && Ready(j, t, derive)
    ensures Ready(j, r, derive)
  {
    var es := EntriesOf(j, t, derive);
    LowerEntries(j, t, derive);
    OtherExtractionSame(k, j, t, r);
    hide Extracted, LowerHex, DiffersIn, Plain, AllUnambiguous, Entries;
    PlainSame(k, j, t, r, es);
    AllUnambiguousSame(k, j, t, r, es);
  }

  /** Rewriting one kind settles it, and leaves every other kind as ready and as settled as it was. */
  lemma KindsAreIndependent(k: Kind, j: Kind, t: string, derive: string -> string, other: string -> string)
    requires k != j && Ready(k, t, derive)
    ensures Settled(k, Applied(k, t, derive), derive)
    ensures Ready(j, t, other) ==> Ready(j, Applied(k, t, derive), other)
    ensures Settled(j, t, other) ==> Settled(j, Applied(k, t, derive), other)
  {
    var es := EntriesOf(k, t, derive);
    SecondExtractionReportsNoChange(k, t, derive);
    ExtractedCanonical(k, t, derive);
    RewriteDiffersIn(k, t, es);
    var r := Applied(k, t, derive);
    hide Extracted, AfterReplacing, DiffersIn, Plain, AllUnambiguous, Canonical, HexDerived;
    OtherExtractionSame(k, j, t, r);
    if Ready(j, t, other) { ReadySame(k, j, t, r, other); }
  }

  /** `--apply` on a file with all three kinds: a second run reports no change of any kind. */
  lemma ApplySettlesTheFile(t: string, main: string -> string, fee: string -> string, stake: string -> string)
    requires Ready(Main, t, main) && Ready(Fee, t, fee) && Ready(Stake, t, stake)
    ensures var r := Applied(Stake, Applied(Fee, Applied(Main, t, main), fee), stake);
            Settled(Main, r, main) && Settled(Fee, r, fee) && Settled(Stake, r, stake)
  {
    hide *;
    var a := Applied(Main, t, main);
    KindsAreIndependent(Main, Fee, t, main, fee);
    KindsAreIndependent(Main, Stake, t, main, stake);
    var b := Applied(Fee, a, fee);
    KindsAreIndependent(Fee, Main, a, fee, main);
    KindsAreIndependent(Fee, Stake, a, fee, stake);
    KindsAreIndependent(Stake, Main, b, stake, main);
    KindsAreIndependent(Stake, Fee, b, stake, fee);
  }
}
