/**
 Rewriting derived addresses in a source text: for each entry in turn, the first
 occurrence of its old literal is replaced by the new one. When does every replacement
 land in the entry's own literal?
 */
module Rewriting {
  import opened Bytes
  import opened Text

  datatype Kind = Main | Fee | Stake

  function Field(k: Kind): (s: string)
    ensures |s| < 16
  {
    match k
    case Main => "main_account:"
    case Fee => "fee_account:"
    case Stake => "stake_account:"
  }

  /** What stands before the 64 digits of a literal in canonical form. */
  function Lead(k: Kind): string { Field(k) + " " + "hex!(\"" }

  const TAIL := "\")"

  /** The literal the rewrite looks for and writes. */
  function Literal(k: Kind, hex: string): string { Lead(k) + hex + TAIL }

  function Width(k: Kind): nat { |Lead(k)| + 66 }

  /** The word `w` stands in `t` at `p`. */
  predicate Stands(t: string, p: nat, w: string) { p + |w| <= |t| && t[p..p + |w|] == w }

  // ----- Python's replace with count 1 -----

  function Find(t: string, w: string, from: nat): (p: Option<nat>)
    ensures p.Some? ==> from <= p.value && Stands(t, p.value, w) && forall q | from <= q < p.value :: !Stands(t, q, w)
    ensures p.None? ==> forall q | from <= q :: !Stands(t, q, w)
    decreases |t| - from
  {
    if Stands(t, from, w) then Some(from)
    else if from >= |t| then None
    else Find(t, w, from + 1)
  }

  function ReplaceFirst(t: string, was: string, now: string): string {
    match Find(t, was, 0)
    case None => t
    case Some(p) => t[..p] + now + t[p + |was|..]
  }

  /** An extracted literal: its place in the text, its digits, the digits derived for it. */
  datatype Entry = Entry(at: nat, oldHex: string, newHex: string)

  /** `rewrite_main`, `rewrite_fee`, `rewrite_stake`. */
  method Rewrite(k: Kind, t: string, es: seq<Entry>) returns (r: string)
    ensures r == AfterReplacing(k, t, es, |es|)
  {
    r := t;
    for i := 0 to |es|
      invariant r == AfterReplacing(k, t, es, i)
    {
      r := ReplaceFirst(r, Literal(k, es[i].oldHex), Literal(k, es[i].newHex));
    }
  }

  function AfterReplacing(k: Kind, t: string, es: seq<Entry>, n: nat): string
    requires n <= |es|
  {
    if n == 0 then t
    else ReplaceFirst(AfterReplacing(k, t, es, n - 1), Literal(k, es[n - 1].oldHex), Literal(k, es[n - 1].newHex))
  }

  // ----- occurrences of literals do not overlap -----

  lemma LeadChars(k: Kind, i: nat)
    requires i < |Lead(k)|
    ensures (Lead(k)[i] == '_') <==> (i == match k case Main => 4 case Fee => 3 case Stake => 5)
    ensures i == 0 ==> Lead(k)[i] != '"' && Lead(k)[i] != ')'
    ensures i == 1 ==> Lead(k)[i] != '"' && (k != Fee ==> !IsLowerHex(Lead(k)[0]))
    ensures k == Fee && i < 3 ==> Lead(k)[i] != '"'
  {
    match k
    case Main => assert Lead(k) == "main_account: hex!(\"";
    case Fee => assert Lead(k) == "fee_account: hex!(\"";
    case Stake => assert Lead(k) == "stake_account: hex!(\"";
  }

  lemma LiteralChars(k: Kind, hex: string, t: string, p: nat, i: nat)
    requires LowerHex(hex, 64) && Stands(t, p, Literal(k, hex)) && i < Width(k)
    ensures p + Width(k) <= |t|
    ensures i < |Lead(k)| ==> t[p + i] == Lead(k)[i]
    ensures |Lead(k)| <= i < |Lead(k)| + 64 ==> t[p + i] == hex[i - |Lead(k)|] && IsLowerHex(t[p + i])
    ensures i == |Lead(k)| + 64 ==> t[p + i] == '"'
    ensures i == |Lead(k)| + 65 ==> t[p + i] == ')'
  {
    assert |Literal(k, hex)| == Width(k);
    assert t[p + i] == t[p..p + Width(k)][i] == Literal(k, hex)[i];
    if |Lead(k)| <= i < |Lead(k)| + 64 { assert hex[i - |Lead(k)|] in hex; }
  }

  lemma MismatchAt(k: Kind, t: string, q: nat, h: string, i: nat)
    requires i < |Lead(k)| && q + i < |t| && t[q + i] != Lead(k)[i]
    ensures !Stands(t, q, Literal(k, h))
  {
    if q + |Literal(k, h)| <= |t| {
      assert t[q..q + |Literal(k, h)|][i] == t[q + i];
      assert Literal(k, h)[i] == Lead(k)[i];
    }
  }

  /** Inside an occurrence of a literal no other occurrence begins. */
  lemma NoOverlap(k: Kind, t: string, p: nat, g: string, d: nat, h: string)
    requires LowerHex(g, 64) && Stands(t, p, Literal(k, g)) && 0 < d < Width(k)
    ensures !Stands(t, p + d, Literal(k, h))
  {
    hide Literal, Lead, Stands;
    var j := match k case Main => 4 case Fee => 3 case Stake => 5;
    LeadLong(k);
    LeadChars(k, j);
    LeadChars(k, 0);
    LeadChars(k, 1);
    LiteralChars(k, g, t, p, d);
    if d + j < Width(k) {
      LiteralChars(k, g, t, p, d + j);
      if d + j < |Lead(k)| { LeadChars(k, d + j); }
      MismatchAt(k, t, p + d, h, j);
    } else if k == Fee && d == Width(k) - 3 {
      LiteralChars(k, g, t, p, d + 1);
      MismatchAt(k, t, p + d, h, 1);
    } else {
      MismatchAt(k, t, p + d, h, 0);
    }
  }

  lemma LeadLong(k: Kind)
    ensures |Lead(k)| >= 18
  {}

  // ----- writing each entry into its own literal -----

  /** `t` with the 64 digits at `at` exchanged. */
  function PutDigits(t: string, at: nat, hex: string): (r: string)
    requires at + 64 <= |t| && |hex| == 64
    ensures |r| == |t|
  {
    t[..at] + hex + t[at + 64..]
  }

  /** The start of the literal whose digits stand at `at`. */
  predicate LiteralAt(k: Kind, t: string, at: nat, hex: string) {
    at >= |Lead(k)| && Stands(t, at - |Lead(k)|, Literal(k, hex))
  }

  predicate Changed(e: Entry) { e.oldHex != e.newHex }

  /** The entries as they are extracted: lower-case digits, in the order of the text. */
  predicate InOrder(es: seq<Entry>) {
    && (forall i | 0 <= i < |es| :: LowerHex(es[i].oldHex, 64) && LowerHex(es[i].newHex, 64))
    && (forall i, j | 0 <= i < j < |es| :: es[i].at < es[j].at)
  }

  /** Every entry to be changed is written with one space and lower-case digits. */
  predicate Plain(k: Kind, t: string, es: seq<Entry>) {
    forall i | 0 <= i < |es| && Changed(es[i]) :: LiteralAt(k, t, es[i].at, es[i].oldHex)
  }

  predicate Canonical(k: Kind, t: string, es: seq<Entry>) { InOrder(es) && Plain(k, t, es) }

  /** The places of the changed entries lie in a text of this length, and their new digits fit. */
  predicate Fits(t: string, es: seq<Entry>) {
    forall i | 0 <= i < |es| && Changed(es[i]) :: es[i].at + 64 <= |t| && |es[i].newHex| == 64
  }

  /** What the rewrite is for: the changed ones of the first `n` entries written into their own places. */
  function Intended(t: string, es: seq<Entry>, n: nat): (r: string)
    requires n <= |es| && Fits(t, es)
    ensures |r| == |t|
  {
    if n == 0 then t
    else if Changed(es[n - 1]) then PutDigits(Intended(t, es, n - 1), es[n - 1].at, es[n - 1].newHex)
    else Intended(t, es, n - 1)
  }

  lemma EntryDigits(es: seq<Entry>, i: nat)
    requires InOrder(es) && i < |es|
    ensures LowerHex(es[i].oldHex, 64) && LowerHex(es[i].newHex, 64) && |es[i].oldHex| == |es[i].newHex| == 64
  {}

  lemma EntryBounds(k: Kind, t: string, es: seq<Entry>, i: nat)
    requires Canonical(k, t, es) && i < |es| && Changed(es[i])
    ensures LowerHex(es[i].oldHex, 64) && LowerHex(es[i].newHex, 64) && |es[i].oldHex| == |es[i].newHex| == 64
    ensures LiteralAt(k, t, es[i].at, es[i].oldHex) && |Lead(k)| <= es[i].at && es[i].at + 66 <= |t|
  {
    EntryDigits(es, i);
    assert |Literal(k, es[i].oldHex)| == Width(k);
  }

  lemma EntriesApart(k: Kind, t: string, es: seq<Entry>, i: nat, j: nat)
    requires Canonical(k, t, es) && i < j < |es| && Changed(es[i]) && Changed(es[j])
    ensures es[i].at + Width(k) <= es[j].at
  {
    hide Literal, Lead, Stands;
    EntryDigits(es, i);
    if es[j].at < es[i].at + Width(k) {
      NoOverlap(k, t, es[i].at - |Lead(k)|, es[i].oldHex, es[j].at - es[i].at, es[j].oldHex);
    }
  }

  lemma CanonicalFits(k: Kind, t: string, es: seq<Entry>)
    requires Canonical(k, t, es)
    ensures Fits(t, es)
  {
    hide Canonical, Changed;
    forall i | 0 <= i < |es| && Changed(es[i]) ensures es[i].at + 64 <= |t| && |es[i].newHex| == 64 {
      EntryBounds(k, t, es, i);
    }
  }

  /** Exchanging digits in one place changes a window elsewhere in no way. */
  lemma WindowKept(t: string, at: nat, hex: string, p: nat, n: nat)
    requires at + 64 <= |t| && |hex| == 64 && p + n <= |t| && (p + n <= at || at + 64 <= p)
    ensures PutDigits(t, at, hex)[p..p + n] == t[p..p + n]
  {}

  lemma Decompose(t: string, p: nat, w: string)
    requires Stands(t, p, w)
    ensures t == t[..p] + (w + t[p + |w|..])
  {
    assert t == t[..p] + (t[p..p + |w|] + t[p + |w|..]);
  }

  lemma PutBetween(a: string, was: string, now: string, c: string)
    requires |was| == 64 && |now| == 64
    ensures PutDigits(a + (was + c), |a|, now) == a + (now + c)
  {
    var t := a + (was + c);
    assert t[..|a|] == a && t[|a| + 64..] == c;
  }

  lemma StandsBehind(a: string, w: string, c: string)
    ensures Stands(a + (w + c), |a|, w)
  {
    assert (a + (w + c))[|a|..|a| + |w|] == w;
  }

  lemma Glue(a: string, lead: string, hex: string, tail: string, c: string)
    ensures a + (((lead + hex) + tail) + c) == (a + lead) + (hex + (tail + c))
  {
    assert ((lead + hex) + tail) + c == lead + (hex + (tail + c));
  }

  lemma LiteralGlued(k: Kind, a: string, hex: string, c: string)
    ensures a + (Literal(k, hex) + c) == (a + Lead(k)) + (hex + (TAIL + c))
  {
    hide Lead;
    Glue(a, Lead(k), hex, TAIL, c);
  }

  lemma LiteralStands(k: Kind, t: string, at: nat, hex: string)
    requires |hex| == 64 && LiteralAt(k, t, at, hex)
    ensures |Lead(k)| <= at && at + 66 <= |t| && Stands(t, at - |Lead(k)|, Literal(k, hex))
    ensures |Literal(k, hex)| == |Lead(k)| + 66
  {
    assert |Literal(k, hex)| == Width(k);
  }

  lemma LiteralWhere(k: Kind, t: string, at: nat, hex: string)
    requires |Lead(k)| <= at && Stands(t, at - |Lead(k)|, Literal(k, hex))
    ensures LiteralAt(k, t, at, hex)
  {}

  /** Exchanging the digits of a literal gives the literal with the new digits. */
  lemma DigitsExchanged(k: Kind, t: string, at: nat, was: string, now: string)
    requires |was| == 64 && |now| == 64 && LiteralAt(k, t, at, was)
    ensures at + 66 <= |t| && LiteralAt(k, PutDigits(t, at, now), at, now)
    ensures var p := at - |Lead(k)|;
            PutDigits(t, at, now) == t[..p] + Literal(k, now) + t[p + |Literal(k, was)|..]
  {
    LiteralStands(k, t, at, was);
    hide *;
    var p := at - |Lead(k)|;
    Decompose(t, p, Literal(k, was));
    Exchanged(k, t[..p], was, now, t[p + |Literal(k, was)|..]);
  }

  lemma Exchanged(k: Kind, a: string, was: string, now: string, c: string)
    requires |was| == 64 && |now| == 64
    ensures var t, at := a + (Literal(k, was) + c), |a| + |Lead(k)|;
            && at + 64 <= |t| && PutDigits(t, at, now) == a + Literal(k, now) + c
            && LiteralAt(k, PutDigits(t, at, now), at, now)
  {
    hide *;
    LiteralGlued(k, a, was, c);
    LiteralGlued(k, a, now, c);
    PutBetween(a + Lead(k), was, now, TAIL + c);
    StandsBehind(a, Literal(k, now), c);
    LiteralWhere(k, a + (Literal(k, now) + c), |a| + |Lead(k)|, now);
    assert a + (Literal(k, now) + c) == a + Literal(k, now) + c;
  }

  /** A window clear of the first `n` entries looks as it did at the start. */
  lemma {:induction false} IntendedWindow(t: string, es: seq<Entry>, n: nat, p: nat, m: nat)
    requires n <= |es| && p + m <= |t|
    requires Fits(t, es)
    requires forall i | 0 <= i < n && Changed(es[i]) :: p + m <= es[i].at || es[i].at + 64 <= p
    ensures Intended(t, es, n)[p..p + m] == t[p..p + m]
  {
    if n > 0 {
      IntendedWindow(t, es, n - 1, p, m);
      if Changed(es[n - 1]) { WindowKept(Intended(t, es, n - 1), es[n - 1].at, es[n - 1].newHex, p, m); }
    }
  }

  lemma IntendedStep(t: string, es: seq<Entry>, n: nat)
    requires 0 < n <= |es| && Fits(t, es)
    ensures Changed(es[n - 1]) ==>
              && es[n - 1].at + 64 <= |t| && |es[n - 1].newHex| == 64
              && Intended(t, es, n) == PutDigits(Intended(t, es, n - 1), es[n - 1].at, es[n - 1].newHex)
    ensures !Changed(es[n - 1]) ==> Intended(t, es, n) == Intended(t, es, n - 1)
  {
    hide PutDigits, Changed;
  }

  lemma OtherLiteral(k: Kind, t: string, es: seq<Entry>, n: nat, i: nat, h: string)
    requires Canonical(k, t, es) && Fits(t, es) && 0 < n <= |es| && i < |es| && i != n - 1 && |h| == 64
    requires Changed(es[i]) && LiteralAt(k, Intended(t, es, n - 1), es[i].at, h)
    ensures LiteralAt(k, Intended(t, es, n), es[i].at, h)
  {
    hide *;
    IntendedStep(t, es, n);
    if Changed(es[n - 1]) {
      if i < n - 1 { EntriesApart(k, t, es, i, n - 1); } else { EntriesApart(k, t, es, n - 1, i); }
      ElsewhereKept(k, Intended(t, es, n - 1), es[n - 1].at, es[n - 1].newHex, es[i].at, h);
    }
  }

  lemma OwnLiteral(k: Kind, t: string, es: seq<Entry>, n: nat)
    requires Canonical(k, t, es) && Fits(t, es) && 0 < n <= |es| && Changed(es[n - 1])
    requires LiteralAt(k, Intended(t, es, n - 1), es[n - 1].at, es[n - 1].oldHex)
    ensures LiteralAt(k, Intended(t, es, n), es[n - 1].at, es[n - 1].newHex)
  {
    hide *;
    IntendedStep(t, es, n);
    EntryBounds(k, t, es, n - 1);
    DigitsExchanged(k, Intended(t, es, n - 1), es[n - 1].at, es[n - 1].oldHex, es[n - 1].newHex);
  }

  /** The literal of a changed entry: done or still to be done. */
  lemma {:induction false} IntendedLiteral(k: Kind, t: string, es: seq<Entry>, n: nat, i: nat)
    requires Canonical(k, t, es) && n <= |es| && i < |es| && Changed(es[i])
    ensures Fits(t, es)
    ensures LiteralAt(k, Intended(t, es, n), es[i].at, if i < n then es[i].newHex else es[i].oldHex)
  {
    hide Canonical, Fits, LiteralAt, LowerHex, PutDigits, Changed;
    CanonicalFits(k, t, es);
    EntryBounds(k, t, es, i);
    if n > 0 {
      IntendedLiteral(k, t, es, n - 1, i);
      if i == n - 1 { OwnLiteral(k, t, es, n); }
      else { OtherLiteral(k, t, es, n, i, if i < n then es[i].newHex else es[i].oldHex); }
    }
  }

  lemma ElsewhereKept(k: Kind, t: string, at: nat, hex: string, other: nat, h: string)
    requires at + 64 <= |t| && |hex| == 64 && |h| == 64
    requires LiteralAt(k, t, other, h) && (other + Width(k) <= at || at + Width(k) <= other)
    ensures LiteralAt(k, PutDigits(t, at, hex), other, h)
  {
    WindowKept(t, at, hex, other - |Lead(k)|, |Literal(k, h)|);
  }

  // ----- when every replacement lands at home -----

  /** In the text `r` the first occurrence of the entry's old literal is the entry's own. */
  ghost predicate FindsHome(k: Kind, r: string, e: Entry) {
    e.at >= |Lead(k)| && Find(r, Literal(k, e.oldHex), 0) == Some(e.at - |Lead(k)|)
  }

  /** Every replacement that changes something is made in the literal it is meant for. */
  ghost predicate AllLand(k: Kind, t: string, es: seq<Entry>, n: nat)
    requires n <= |es|
  {
    forall i | 0 <= i < n && Changed(es[i]) :: FindsHome(k, AfterReplacing(k, t, es, i), es[i])
  }

  /**
   The condition, checkable on the text and the entries: no earlier changed entry is given the
   old digits of entry `n`, and before it they stand in no literal but those of earlier changed entries.
   */
  ghost predicate Unambiguous(k: Kind, t: string, es: seq<Entry>, n: nat)
    requires n < |es|
  {
    && (forall j | 0 <= j < n && Changed(es[j]) :: es[j].newHex != es[n].oldHex)
    && (forall at | 0 <= at < es[n].at && LiteralAt(k, t, at, es[n].oldHex) :: ChangedAt(es, n, at))
  }

  /** One of the first `n` entries is changed and stands at `at`. */
  ghost predicate ChangedAt(es: seq<Entry>, n: nat, at: nat)
    requires n <= |es|
  {
    exists j :: 0 <= j < n && es[j].at == at && Changed(es[j])
  }

  /** Away from the entries already done, the half-rewritten text has the literals of the original. */
  lemma SameLiteralsElsewhere(k: Kind, t: string, es: seq<Entry>, n: nat, at: nat, h: string)
    requires Canonical(k, t, es) && n <= |es| && LowerHex(h, 64) && !ChangedAt(es, n, at)
    ensures Fits(t, es)
    ensures LiteralAt(k, Intended(t, es, n), at, h) <==> LiteralAt(k, t, at, h)
  {
    CanonicalFits(k, t, es);
    var r := Intended(t, es, n);
    hide LiteralAt, Lead, Literal, Canonical, Fits, LowerHex, Intended, Changed;
    if LiteralAt(k, r, at, h) {
      forall i | 0 <= i < n && Changed(es[i]) ensures at + Width(k) <= es[i].at || es[i].at + Width(k) <= at {
        EntryBounds(k, t, es, i);
        IntendedLiteral(k, t, es, n, i);
        Apart(k, r, at, h, es[i].at, es[i].newHex);
      }
      ClearOfEntries(k, t, es, n, at, h);
    }
    if LiteralAt(k, t, at, h) {
      forall i | 0 <= i < n && Changed(es[i]) ensures at + Width(k) <= es[i].at || es[i].at + Width(k) <= at {
        EntryBounds(k, t, es, i);
        Apart(k, t, at, h, es[i].at, es[i].oldHex);
      }
      ClearOfEntries(k, t, es, n, at, h);
    }
  }

  lemma ClearOfEntries(k: Kind, t: string, es: seq<Entry>, n: nat, at: nat, h: string)
    requires n <= |es| && |h| == 64 && Fits(t, es)
    requires LiteralAt(k, t, at, h) || LiteralAt(k, Intended(t, es, n), at, h)
    requires forall i | 0 <= i < n && Changed(es[i]) :: at + Width(k) <= es[i].at || es[i].at + Width(k) <= at
    ensures LiteralAt(k, Intended(t, es, n), at, h) <==> LiteralAt(k, t, at, h)
  {
    hide Lead, Literal, Intended, Stands, LiteralAt, Fits, Changed;
    if LiteralAt(k, t, at, h) { LiteralStands(k, t, at, h); } else { LiteralStands(k, Intended(t, es, n), at, h); }
    IntendedWindow(t, es, n, at - |Lead(k)|, Width(k));
    SameWindow(k, t, Intended(t, es, n), at, h);
  }

  lemma SameWindow(k: Kind, t: string, u: string, at: nat, h: string)
    requires |Lead(k)| <= at && at + 66 <= |t| == |u| && |h| == 64
    requires t[at - |Lead(k)|..at - |Lead(k)| + Width(k)] == u[at - |Lead(k)|..at - |Lead(k)| + Width(k)]
    ensures LiteralAt(k, t, at, h) <==> LiteralAt(k, u, at, h)
  {
    assert |Literal(k, h)| == Width(k);
    hide Lead, Literal;
  }

  lemma Apart(k: Kind, t: string, a: nat, g: string, b: nat, h: string)
    requires LowerHex(g, 64) && LowerHex(h, 64) && LiteralAt(k, t, a, g) && LiteralAt(k, t, b, h) && a != b
    ensures a + Width(k) <= b || b + Width(k) <= a
  {
    hide Literal, Lead, Stands;
    if a < b < a + Width(k) { NoOverlap(k, t, a - |Lead(k)|, g, b - a, h); }
    if b < a < b + Width(k) { NoOverlap(k, t, b - |Lead(k)|, h, a - b, g); }
  }

  ghost predicate AllUnambiguous(k: Kind, t: string, es: seq<Entry>, n: nat)
    requires n <= |es|
  {
    forall i | 0 <= i < n && Changed(es[i]) :: Unambiguous(k, t, es, i)
  }

  lemma SameDigits(k: Kind, t: string, at: nat, g: string, h: string)
    requires |g| == 64 && |h| == 64 && LiteralAt(k, t, at, g) && LiteralAt(k, t, at, h)
    ensures g == h
  {
    assert Literal(k, g)[|Lead(k)|..|Lead(k)| + 64] == g;
    assert Literal(k, h)[|Lead(k)|..|Lead(k)| + 64] == h;
  }

  lemma FoundFirst(k: Kind, r: string, e: Entry, at: nat)
    requires FindsHome(k, r, e) && LiteralAt(k, r, at, e.oldHex)
    ensures e.at <= at
  {
    hide Literal, Lead, Stands;
  }

  lemma FoundLiteral(k: Kind, r: string, e: Entry) returns (at: nat)
    requires LiteralAt(k, r, e.at, e.oldHex)
    ensures FindsHome(k, r, e) || at < e.at
    ensures LiteralAt(k, r, at, e.oldHex)
  {
    hide Literal, Lead, Stands;
    at := Find(r, Literal(k, e.oldHex), 0).value + |Lead(k)|;
  }

  /** On the text in which the first `n` entries are done, the condition is exact. */
  lemma LandsExactly(k: Kind, t: string, es: seq<Entry>, n: nat)
    requires Canonical(k, t, es) && n < |es| && Changed(es[n])
    ensures Fits(t, es)
    ensures FindsHome(k, Intended(t, es, n), es[n]) <==> Unambiguous(k, t, es, n)
  {
    CanonicalFits(k, t, es);
    EntryBounds(k, t, es, n);
    var r, e := Intended(t, es, n), es[n];
    IntendedLiteral(k, t, es, n, n);
    hide Literal, Lead, Stands, LowerHex, LiteralAt, FindsHome, Intended, Fits, Changed;
    if FindsHome(k, r, e) {
      forall j | 0 <= j < n && Changed(es[j]) ensures es[j].newHex != e.oldHex {
        IntendedLiteral(k, t, es, n, j);
        if es[j].newHex == e.oldHex { FoundFirst(k, r, e, es[j].at); }
      }
      forall at | 0 <= at < e.at && LiteralAt(k, t, at, e.oldHex) ensures ChangedAt(es, n, at) {
        if !ChangedAt(es, n, at) {
          SameLiteralsElsewhere(k, t, es, n, at, e.oldHex);
          FoundFirst(k, r, e, at);
        }
      }
    }
    if Unambiguous(k, t, es, n) {
      var at := FoundLiteral(k, r, e);
      if ChangedAt(es, n, at) {
        var j :| 0 <= j < n && es[j].at == at && Changed(es[j]);
        EntryBounds(k, t, es, j);
        IntendedLiteral(k, t, es, n, j);
        SameDigits(k, r, at, es[j].newHex, e.oldHex);
      } else {
        SameLiteralsElsewhere(k, t, es, n, at, e.oldHex);
      }
    }
  }

  /** A replacement made at home writes the entry. */
  lemma OneStep(k: Kind, r: string, e: Entry)
    requires |e.oldHex| == 64 && |e.newHex| == 64 && LiteralAt(k, r, e.at, e.oldHex)
    requires FindsHome(k, r, e)
    ensures e.at + 64 <= |r|
    ensures ReplaceFirst(r, Literal(k, e.oldHex), Literal(k, e.newHex)) == PutDigits(r, e.at, e.newHex)
  {
    hide Literal, Lead, Find, PutDigits, Stands;
    DigitsExchanged(k, r, e.at, e.oldHex, e.newHex);
  }

  /** A replacement that changes nothing leaves the text, wherever it is made. */
  lemma ReplaceSame(t: string, w: string)
    ensures ReplaceFirst(t, w, w) == t
  {
    hide Find, Stands;
    if Find(t, w, 0).Some? {
      var p := Find(t, w, 0).value;
      Decompose(t, p, w);
      Bounded(t, p, w);
      assert t[..p] + (w + t[p + |w|..]) == t[..p] + w + t[p + |w|..];
    }
  }

  lemma Bounded(t: string, p: nat, w: string)
    requires Stands(t, p, w)
    ensures p + |w| <= |t|
  {}

  lemma AllStep(k: Kind, t: string, es: seq<Entry>, n: nat)
    requires 0 < n <= |es|
    ensures AllLand(k, t, es, n) <==>
            AllLand(k, t, es, n - 1) && (Changed(es[n - 1]) ==> FindsHome(k, AfterReplacing(k, t, es, n - 1), es[n - 1]))
    ensures AllUnambiguous(k, t, es, n) <==>
            AllUnambiguous(k, t, es, n - 1) && (Changed(es[n - 1]) ==> Unambiguous(k, t, es, n - 1))
  {
    hide FindsHome, AfterReplacing, Unambiguous, Changed;
  }

  lemma {:induction false} LandedSoFar(k: Kind, t: string, es: seq<Entry>, n: nat)
    requires Canonical(k, t, es) && n <= |es|
    requires AllLand(k, t, es, n) || AllUnambiguous(k, t, es, n)
    ensures Fits(t, es)
    ensures AllLand(k, t, es, n) && AllUnambiguous(k, t, es, n)
    ensures AfterReplacing(k, t, es, n) == Intended(t, es, n)
  {
    hide *;
    CanonicalFits(k, t, es);
    if n == 0 {
      NoneDone(k, t, es);
    } else {
      AllStep(k, t, es, n);
      LandedSoFar(k, t, es, n - 1);
      if Changed(es[n - 1]) { LandsExactly(k, t, es, n - 1); }
      LandedStep(k, t, es, n);
    }
  }

  lemma NoneDone(k: Kind, t: string, es: seq<Entry>)
    requires Fits(t, es)
    ensures AllLand(k, t, es, 0) && AllUnambiguous(k, t, es, 0) && AfterReplacing(k, t, es, 0) == Intended(t, es, 0)
  {}

  lemma LandedStep(k: Kind, t: string, es: seq<Entry>, n: nat)
    requires Canonical(k, t, es) && Fits(t, es) && 0 < n <= |es|
    requires AfterReplacing(k, t, es, n - 1) == Intended(t, es, n - 1)
    requires Changed(es[n - 1]) ==> FindsHome(k, Intended(t, es, n - 1), es[n - 1])
    ensures AfterReplacing(k, t, es, n) == Intended(t, es, n)
  {
    hide Literal, Lead, LiteralAt, FindsHome, ReplaceFirst, Canonical, PutDigits, LowerHex, Fits;
    if Changed(es[n - 1]) {
      EntryBounds(k, t, es, n - 1);
      IntendedLiteral(k, t, es, n - 1, n - 1);
      OneStep(k, Intended(t, es, n - 1), es[n - 1]);
    } else {
      ReplaceSame(Intended(t, es, n - 1), Literal(k, es[n - 1].oldHex));
    }
  }

  // ----- a replacement only lands in a plain literal -----

  lemma {:induction false} PrefixReplaced(k: Kind, t: string, es: seq<Entry>, m: nat, n: nat)
    requires n <= m <= |es|
    ensures AfterReplacing(k, t, es[..m], n) == AfterReplacing(k, t, es, n)
  {
    hide ReplaceFirst, Literal;
    if n > 0 {
      PrefixReplaced(k, t, es, m, n - 1);
      assert es[..m][n - 1] == es[n - 1];
    }
  }

  lemma FoundStands(k: Kind, r: string, e: Entry)
    requires FindsHome(k, r, e)
    ensures LiteralAt(k, r, e.at, e.oldHex)
  {
    hide Literal, Lead, Stands;
  }

  lemma PrefixLands(k: Kind, t: string, es: seq<Entry>, m: nat)
    requires m <= |es| && AllLand(k, t, es, m)
    ensures AllLand(k, t, es[..m], m)
  {
    hide FindsHome, AfterReplacing;
    forall i | 0 <= i < m && Changed(es[..m][i]) ensures FindsHome(k, AfterReplacing(k, t, es[..m], i), es[..m][i]) {
      PrefixReplaced(k, t, es, m, i);
    }
  }

  lemma PlainStep(k: Kind, t: string, es: seq<Entry>, m: nat)
    requires 0 < m <= |es| && Plain(k, t, es[..m - 1])
    requires Changed(es[m - 1]) ==> LiteralAt(k, t, es[m - 1].at, es[m - 1].oldHex)
    ensures Plain(k, t, es[..m])
  {
    hide LiteralAt, Changed;
    forall i | 0 <= i < m && Changed(es[..m][i]) ensures LiteralAt(k, t, es[..m][i].at, es[..m][i].oldHex) {
      if i < m - 1 { assert es[..m - 1][i] == es[i]; }
    }
  }

  lemma PrefixInOrder(es: seq<Entry>, m: nat)
    requires InOrder(es) && 0 < m <= |es|
    ensures InOrder(es[..m - 1]) && !ChangedAt(es[..m - 1], m - 1, es[m - 1].at) && LowerHex(es[m - 1].oldHex, 64)
  {
    hide LowerHex;
  }

  lemma LandedIsPlain(k: Kind, t: string, ps: seq<Entry>, e: Entry)
    requires Canonical(k, t, ps) && AllLand(k, t, ps, |ps|)
    requires FindsHome(k, AfterReplacing(k, t, ps, |ps|), e) && LowerHex(e.oldHex, 64) && !ChangedAt(ps, |ps|, e.at)
    ensures LiteralAt(k, t, e.at, e.oldHex)
  {
    hide *;
    LandedSoFar(k, t, ps, |ps|);
    FoundStands(k, AfterReplacing(k, t, ps, |ps|), e);
    SameLiteralsElsewhere(k, t, ps, |ps|, e.at, e.oldHex);
  }

  lemma {:induction false} LandedArePlain(k: Kind, t: string, es: seq<Entry>, m: nat)
    requires InOrder(es) && m <= |es| && AllLand(k, t, es, m)
    ensures Plain(k, t, es[..m])
  {
    if m == 0 {
      assert es[..0] == [];
    } else {
      var ps := es[..m - 1];
      assert |ps| == m - 1;
      hide *;
      AllStep(k, t, es, m);
      LandedArePlain(k, t, es, m - 1);
      PrefixInOrder(es, m);
      if Changed(es[m - 1]) {
        PrefixLands(k, t, es, m - 1);
        PrefixReplaced(k, t, es, m - 1, m - 1);
        BothCanonical(k, t, ps);
        LandedIsPlain(k, t, ps, es[m - 1]);
      }
      PlainStep(k, t, es, m);
    }
  }

  lemma BothCanonical(k: Kind, t: string, es: seq<Entry>)
    ensures Canonical(k, t, es) <==> InOrder(es) && Plain(k, t, es)
  {
    hide InOrder, Plain;
  }

  /**
   Every changing replacement lands in its own literal if and only if every changed literal is
   plain and none is ambiguous.
   */
  lemma EveryReplacementLandsExactly(k: Kind, t: string, es: seq<Entry>)
    requires InOrder(es)
    ensures AllLand(k, t, es, |es|) <==> Plain(k, t, es) && AllUnambiguous(k, t, es, |es|)
  {
    hide InOrder, AllLand, Plain, AllUnambiguous;
    if AllLand(k, t, es, |es|) {
      LandedArePlain(k, t, es, |es|);
      assert es[..|es|] == es;
      LandedSoFar(k, t, es, |es|);
    }
    if Plain(k, t, es) && AllUnambiguous(k, t, es, |es|) { LandedSoFar(k, t, es, |es|); }
  }

  /** Outside the digits of the changed entries. */
  predicate Elsewhere(es: seq<Entry>, x: nat) {
    forall i | 0 <= i < |es| && Changed(es[i]) :: x < es[i].at || es[i].at + 64 <= x
  }

  /** The rewritten text holds every changed entry's new digits in its own slot and is otherwise the old text. */
  lemma RewrittenExactly(k: Kind, t: string, es: seq<Entry>)
    requires Canonical(k, t, es) && AllUnambiguous(k, t, es, |es|)
    ensures var r := AfterReplacing(k, t, es, |es|);
            && |r| == |t|
            && (forall i | 0 <= i < |es| && Changed(es[i]) :: LiteralAt(k, r, es[i].at, es[i].newHex))
            && (forall x: nat | x < |t| && Elsewhere(es, x) :: r[x] == t[x])
  {
    CanonicalFits(k, t, es);
    LandedSoFar(k, t, es, |es|);
    hide Literal, Lead, Stands, LiteralAt, Unambiguous, ReplaceFirst, Canonical, Changed;
    forall i | 0 <= i < |es| && Changed(es[i]) ensures LiteralAt(k, Intended(t, es, |es|), es[i].at, es[i].newHex) {
      IntendedLiteral(k, t, es, |es|, i);
    }
    forall x: nat | x < |t| && Elsewhere(es, x) ensures Intended(t, es, |es|)[x] == t[x] {
      IntendedWindow(t, es, |es|, x, 1);
      assert Intended(t, es, |es|)[x..x + 1][0] == t[x..x + 1][0];
    }
  }
}
