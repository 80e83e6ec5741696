/**
 Finding the derived addresses in a source text: line by line, the last number seen is
 paired with the address on the line. Rewriting the digits changes nothing the search sees
 except the digits, so a second search reports no change.
 */
module Extraction {
  import opened Bytes
  import opened Text
  import opened Rewriting

  // ----- the two patterns, matched on the part of the text up to `end` -----

  /** Python's `\s`. */
  predicate IsSpace(c: char) {
    || '\U{9}' <= c <= '\U{d}' || '\U{1c}' <= c <= '\U{20}' || c == '\U{85}' || c == '\U{a0}' || c == '\U{1680}'
    || '\U{2000}' <= c <= '\U{200a}' || '\U{2028}' <= c <= '\U{2029}' || c == '\U{202f}' || c == '\U{205f}'
    || c == '\U{3000}'
  }

  predicate IsHex(c: char) { IsLowerHex(c) || 'A' <= c <= 'F' }

  datatype Stop = Newline | NonSpace | Quote

  predicate Stops(s: Stop, c: char) {
    match s
    case Newline => c == '\n'
    case NonSpace => !IsSpace(c)
    case Quote => c == '"'
  }

  /** The first place from `p` on where the scan stops, or `end`. */
  function Until(s: Stop, t: string, p: nat, end: nat): (x: nat)
    requires p <= end <= |t|
    ensures p <= x <= end
    decreases end - p
  {
    if p == end || Stops(s, t[p]) then p else Until(s, t, p + 1, end)
  }

  lemma {:induction false} UntilFirst(s: Stop, t: string, p: nat, end: nat)
    requires p <= end <= |t|
    ensures var x := Until(s, t, p, end);
            (x < end ==> Stops(s, t[x])) && forall y | p <= y < x :: !Stops(s, t[y])
    decreases end - p
  {
    if p < end && !Stops(s, t[p]) { UntilFirst(s, t, p + 1, end); }
  }

  predicate WordAt(w: string, t: string, p: nat, end: nat)
    requires end <= |t|
  {
    p + |w| <= end && t[p..p + |w|] == w
  }

  const CID := "cid_number:"
  const HEX := "hex!("

  datatype Span = NoSpan | Span(from: nat, to: nat)

  /** `"([^"]+)"` at `q`. */
  function QuotedAt(t: string, q: nat, end: nat): (m: Span)
    requires end <= |t|
    ensures m.Span? ==> q <= m.from <= m.to < end
  {
    if q >= end || t[q] != '"' then NoSpan
    else
      var z := Until(Quote, t, q + 1, end);
      if z == end || z == q + 1 then NoSpan else Span(q + 1, z)
  }

  /** `cid_number:\s*"([^"]+)"` at `p`: the captured span. */
  function CidAt(t: string, p: nat, end: nat): (m: Span)
    requires end <= |t|
    ensures m.Span? ==> p <= m.from <= m.to < end
  {
    if !WordAt(CID, t, p, end) then NoSpan else QuotedAt(t, Until(NonSpace, t, p + |CID|, end), end)
  }

  predicate Digits64(t: string, b: nat)
    requires b + 64 <= |t|
  {
    forall y | b <= y < b + 64 :: IsHex(t[y])
  }

  /** `hex!\("([0-9a-fA-F]{64})"\)` at `q`: where the digits begin. */
  function MacroAt(t: string, q: nat, end: nat): (m: Option<nat>)
    requires end <= |t|
    ensures m.Some? ==> q <= m.value && m.value + 66 <= end && Digits64(t, m.value)
  {
    var b := q + |HEX| + 1;
    if WordAt(HEX, t, q, end) && b + 66 <= end && t[b - 1] == '"' && Digits64(t, b) && t[b + 64] == '"' && t[b + 65] == ')'
    then Some(b) else None
  }

  /** The field's name, white space and the macro at `p`. */
  function AddressAt(k: Kind, t: string, p: nat, end: nat): (m: Option<nat>)
    requires end <= |t|
    ensures m.Some? ==> p <= m.value && m.value + 66 <= end && Digits64(t, m.value)
  {
    if !WordAt(Field(k), t, p, end) then None else MacroAt(t, Until(NonSpace, t, p + |Field(k)|, end), end)
  }

  /** `search`: the leftmost match. */
  function FirstCid(t: string, p: nat, end: nat): (m: Span)
    requires p <= end <= |t|
    ensures m.Span? ==> p <= m.from <= m.to < end
    decreases end - p
  {
    if CidAt(t, p, end).Span? then CidAt(t, p, end)
    else if p == end then NoSpan
    else FirstCid(t, p + 1, end)
  }

  function FirstAddress(k: Kind, t: string, p: nat, end: nat): (m: Option<nat>)
    requires p <= end <= |t|
    ensures m.Some? ==> p <= m.value && m.value + 66 <= end && Digits64(t, m.value)
    decreases end - p
  {
    if AddressAt(k, t, p, end).Some? then AddressAt(k, t, p, end)
    else if p == end then None
    else FirstAddress(k, t, p + 1, end)
  }

  // ----- the walk over the lines -----

  datatype Found = Found(cid: string, line: nat, at: nat, hex: string)
  datatype Number = Unseen | Seen(cid: string)

  function LowerChar(c: char): (d: char)
    ensures IsHex(c) ==> IsLowerHex(d)
    ensures IsLowerHex(c) ==> d == c
  {
    if 'A' <= c <= 'Z' then c - 'A' + 'a' else c
  }

  function Lower(s: string): string { seq(|s|, i requires 0 <= i < |s| => LowerChar(s[i])) }

  function CurrentCid(t: string, s: nat, end: nat, current: Number): Number
    requires s <= end <= |t|
  {
    var m := FirstCid(t, s, end);
    if m.Span? then Seen(t[m.from..m.to]) else current
  }

  /** The address of a line, under the number in force. */
  function OnLine(k: Kind, t: string, s: nat, end: nat, line: nat, cid: Number): (fs: seq<Found>)
    requires s <= end <= |t|
    ensures |fs| <= 1
  {
    var m := FirstAddress(k, t, s, end);
    if m.Some? && cid.Seen? then [Found(cid.cid, line + 1, m.value, Lower(t[m.value..m.value + 64]))] else []
  }

  /** The number in force after a line: an address of a main or stake account uses it up. */
  function Following(k: Kind, here: seq<Found>, cid: Number): Number {
    if here != [] && k != Fee then Unseen else cid
  }

  /** What the lines from `s` on yield, `current` being the number in force and `line` the lines before. */
  function Extracted(k: Kind, t: string, s: nat, line: nat, current: Number): seq<Found>
    requires s <= |t|
    decreases |t| - s
  {
    var end := Until(Newline, t, s, |t|);
    var cid := CurrentCid(t, s, end, current);
    var here := OnLine(k, t, s, end, line, cid);
    if end == |t| then here
    else here + Extracted(k, t, end + 1, line + 1, Following(k, here, cid))
  }

  /** The rest of the walk, `cid` being the number in force on the line just read. */
  function Rest(k: Kind, t: string, end: nat, line: nat, here: seq<Found>, cid: Number): seq<Found>
    requires end <= |t|
  {
    if end == |t| then [] else Extracted(k, t, end + 1, line + 1, Following(k, here, cid))
  }

  lemma NextLine(k: Kind, t: string, s: nat, end: nat, line: nat, current: Number, here: seq<Found>, out: seq<Found>)
    requires s <= |t| && end == Until(Newline, t, s, |t|)
    requires here == OnLine(k, t, s, end, line, CurrentCid(t, s, end, current))
    ensures out + Extracted(k, t, s, line, current) == (out + here) + Rest(k, t, end, line, here, CurrentCid(t, s, end, current))
  {
    hide FirstCid, FirstAddress, Until, OnLine, CurrentCid;
  }

  /** `extract_main`, `extract_fee`, `extract_stake`. */
  method Extract(k: Kind, t: string) returns (out: seq<Found>)
    ensures out == Extracted(k, t, 0, 0, Unseen)
  {
    hide Extracted, FirstCid, FirstAddress, Until, Lower, OnLine;
    out := [];
    var s, line, current, more := 0, 0, Unseen, true;
    assert out + Extracted(k, t, 0, 0, Unseen) == Extracted(k, t, 0, 0, Unseen);
    while more
      invariant s <= |t|
      invariant Extracted(k, t, 0, 0, Unseen) == if more then out + Extracted(k, t, s, line, current) else out
      decreases |t| - s, more
    {
      ghost var was, before := out, current;
      var end := Until(Newline, t, s, |t|);
      var m1 := FirstCid(t, s, end);
      if m1.Span? { current := Seen(t[m1.from..m1.to]); }
      ghost var cid := current;
      ghost var here := OnLine(k, t, s, end, line, cid);
      OnLineIs(k, t, s, end, line, cid);
      var m2 := FirstAddress(k, t, s, end);
      if m2.Some? && current.Seen? {
        out := out + [Found(current.cid, line + 1, m2.value, Lower(t[m2.value..m2.value + 64]))];
        if k != Fee { current := Unseen; }
      }
      assert out == was + here && current == Following(k, here, cid);
      NextLine(k, t, s, end, line, before, here, was);
      if end == |t| {
        more := false;
        assert out + [] == out;
      } else {
        s, line := end + 1, line + 1;
      }
    }
  }

  lemma OnLineIs(k: Kind, t: string, s: nat, end: nat, line: nat, cid: Number)
    requires s <= end <= |t|
    ensures var m := FirstAddress(k, t, s, end);
            OnLine(k, t, s, end, line, cid) ==
            if m.Some? && cid.Seen? then [Found(cid.cid, line + 1, m.value, Lower(t[m.value..m.value + 64]))] else []
  {
    hide FirstAddress, Lower;
  }

  // ----- what the extraction finds -----

  lemma LowerDigits(t: string, b: nat)
    requires b + 64 <= |t| && Digits64(t, b)
    ensures LowerHex(Lower(t[b..b + 64]), 64)
  {
    forall c | c in Lower(t[b..b + 64]) ensures IsLowerHex(c) {
      var i :| 0 <= i < 64 && Lower(t[b..b + 64])[i] == c;
      assert IsHex(t[b + i]);
    }
  }

  /** Each address found lies in the text, behind the ones before it, with 64 lower-case digits. */
  ghost predicate Ascending(t: string, s: nat, line: nat, fs: seq<Found>) {
    && (forall i | 0 <= i < |fs| :: s <= fs[i].at && fs[i].at + 66 <= |t| && line < fs[i].line && LowerHex(fs[i].hex, 64))
    && (forall i, j | 0 <= i < j < |fs| :: fs[i].at + 66 < fs[j].at && fs[i].line < fs[j].line)
  }

  lemma LineAscends(k: Kind, t: string, s: nat, end: nat, line: nat, cid: Number)
    requires s <= end <= |t|
    ensures Ascending(t, s, line, OnLine(k, t, s, end, line, cid))
    ensures forall f | f in OnLine(k, t, s, end, line, cid) :: f.at + 66 <= end && f.line == line + 1
  {
    hide FirstAddress, Lower, LowerHex;
    var m := FirstAddress(k, t, s, end);
    if m.Some? { LowerDigits(t, m.value); }
  }

  lemma JoinAscends(t: string, s: nat, end: nat, line: nat, here: seq<Found>, later: seq<Found>)
    requires Ascending(t, s, line, here) && s <= end && forall f | f in here :: f.at + 66 <= end && f.line == line + 1
    requires Ascending(t, end + 1, line + 1, later)
    ensures Ascending(t, s, line, here + later)
  {
    hide LowerHex;
  }

  lemma {:induction false} FoundInOrder(k: Kind, t: string, s: nat, line: nat, current: Number)
    requires s <= |t|
    ensures Ascending(t, s, line, Extracted(k, t, s, line, current))
    decreases |t| - s
  {
    hide FirstCid, FirstAddress, Until, CurrentCid, OnLine, Following, Ascending;
    var end := Until(Newline, t, s, |t|);
    var cid := CurrentCid(t, s, end, current);
    var here := OnLine(k, t, s, end, line, cid);
    LineAscends(k, t, s, end, line, cid);
    if end < |t| {
      FoundInOrder(k, t, end + 1, line + 1, Following(k, here, cid));
      JoinAscends(t, s, end, line, here, Extracted(k, t, end + 1, line + 1, Following(k, here, cid)));
    }
  }

  predicate Carries(t: string, fs: seq<Found>) {
    forall f | f in fs :: f.at + 64 <= |t| && f.hex == Lower(t[f.at..f.at + 64])
  }

  /** Each address found carries the digits that stand at its place. */
  lemma {:induction false} ExtractedDigits(k: Kind, t: string, s: nat, line: nat, current: Number)
    requires s <= |t|
    ensures Carries(t, Extracted(k, t, s, line, current))
    decreases |t| - s
  {
    hide FirstAddress, Until, CurrentCid, Lower, Following;
    var end := Until(Newline, t, s, |t|);
    if end < |t| {
      var cid := CurrentCid(t, s, end, current);
      ExtractedDigits(k, t, end + 1, line + 1, Following(k, OnLine(k, t, s, end, line, cid), cid));
    }
  }
}
