/**
 The generated table of reserved addresses: digit strings are sorted as text, the runtime
 searches the bytes they denote. The two orders agree, so the search is exact.
 */
module ReservedTable {
  import opened Bytes
  import opened Text

  // ----- bytes and their digits -----

  function HexDigit(n: nat): (c: char)
    requires n < 16
    ensures IsLowerHex(c)
  {
    "0123456789abcdef"[n]
  }

  function DigitValue(c: char): (n: nat)
    requires IsLowerHex(c)
    ensures n < 16 && HexDigit(n) == c
  {
    if c <= '9' then c as int - '0' as int else c as int - 'a' as int + 10
  }

  /** Python's `bytes.hex`. */
  function Hex(b: seq<byte>): (s: string)
    ensures |s| == 2 * |b|
  {
    if b == [] then "" else [HexDigit(b[0] / 16), HexDigit(b[0] % 16)] + Hex(b[1..])
  }

  predicate HexText(s: string) { |s| % 2 == 0 && forall i | 0 <= i < |s| :: IsLowerHex(s[i]) }

  /** Rust's `hex!`. */
  function Unhex(s: string): (b: seq<byte>)
    requires HexText(s)
    ensures |b| == |s| / 2
  {
    if s == "" then [] else [DigitValue(s[0]) * 16 + DigitValue(s[1])] + Unhex(s[2..])
  }

  /** `hex!` of the digits gives back the bytes they were printed from, and the other way round. */
  lemma {:induction false} HexUndoesUnhex(s: string)
    requires HexText(s)
    ensures Hex(Unhex(s)) == s
  {
    if s != "" {
      HexUndoesUnhex(s[2..]);
      var x, y := DigitValue(s[0]), DigitValue(s[1]);
      var b := Unhex(s);
      assert b[0] == x * 16 + y && b[1..] == Unhex(s[2..]);
      assert b[0] / 16 == x && b[0] % 16 == y;
      hide Unhex, DigitValue, HexDigit;
      assert s == [s[0], s[1]] + s[2..];
    }
  }

  /** The order of byte arrays. */
  predicate Before(a: seq<byte>, b: seq<byte>) {
    b != [] && (a == [] || a[0] < b[0] || (a[0] == b[0] && Before(a[1..], b[1..])))
  }

  lemma DigitOrder(m: nat, n: nat)
    requires m < 16 && n < 16
    ensures HexDigit(m) < HexDigit(n) <==> m < n
    ensures HexDigit(m) == HexDigit(n) <==> m == n
  {}

  /** Text order of the digits is byte order of the arrays. */
  lemma {:induction false} HexKeepsOrder(a: seq<byte>, b: seq<byte>)
    ensures Less(Hex(a), Hex(b)) <==> Before(a, b)
  {
    if a != [] && b != [] {
      HexKeepsOrder(a[1..], b[1..]);
      DigitOrder(a[0] / 16, b[0] / 16);
      DigitOrder(a[0] % 16, b[0] % 16);
      var s, t := Hex(a), Hex(b);
      hide HexDigit;
      assert s[1..][0] == HexDigit(a[0] % 16) && t[1..][0] == HexDigit(b[0] % 16);
      assert s[1..][1..] == Hex(a[1..]) && t[1..][1..] == Hex(b[1..]);
      assert Less(s[1..], t[1..]) <==> s[1] < t[1] || (s[1] == t[1] && Less(Hex(a[1..]), Hex(b[1..])));
    }
  }

  lemma {:induction false} HexInjective(a: seq<byte>, b: seq<byte>)
    requires Hex(a) == Hex(b)
    ensures a == b
  {
    if a != [] && b != [] {
      var s, t := Hex(a), Hex(b);
      assert s[0] == t[0] && s[1] == t[1] && s[2..] == t[2..];
      DigitOrder(a[0] / 16, b[0] / 16);
      DigitOrder(a[0] % 16, b[0] % 16);
      HexInjective(a[1..], b[1..]);
      assert a == [a[0]] + a[1..] && b == [b[0]] + b[1..];
    }
  }

  // ----- `sorted(set(...))` -----

  predicate Ascending(xs: seq<string>) { |xs| > 1 ==> Less(xs[0], xs[1]) && Ascending(xs[1..]) }

  lemma {:induction false} AscendingAt(xs: seq<string>, i: nat, j: nat)
    requires Ascending(xs) && i < j < |xs|
    ensures Less(xs[i], xs[j])
  {
    if i > 0 {
      AscendingAt(xs[1..], i - 1, j - 1);
    } else if j > 1 {
      AscendingAt(xs[1..], 0, j - 1);
      LessTransitive(xs[0], xs[1], xs[j]);
    }
  }

  function Insert(x: string, xs: seq<string>): (ys: seq<string>)
    requires Ascending(xs)
    ensures Ascending(ys) && |ys| > 0 && (ys[0] == x || (|xs| > 0 && ys[0] == xs[0]))
  {
    if xs == [] || Less(x, xs[0]) then [x] + xs
    else if x == xs[0] then xs
    else
      LessTotal(x, xs[0]);
      [xs[0]] + Insert(x, xs[1..])
  }

  lemma {:induction false} InsertHolds(x: string, xs: seq<string>, y: string)
    requires Ascending(xs)
    ensures y in Insert(x, xs) <==> y == x || y in xs
  {
    if xs == [] || Less(x, xs[0]) {
    } else if x != xs[0] {
      InsertHolds(x, xs[1..], y);
      assert xs == [xs[0]] + xs[1..];
    }
  }

  function SortedSet(xs: seq<string>): (ys: seq<string>)
    ensures Ascending(ys)
  {
    if xs == [] then [] else Insert(xs[0], SortedSet(xs[1..]))
  }

  lemma {:induction false} SortedSetHolds(xs: seq<string>, y: string)
    ensures y in SortedSet(xs) <==> y in xs
  {
    if xs != [] {
      SortedSetHolds(xs[1..], y);
      InsertHolds(xs[0], SortedSet(xs[1..]), y);
      assert xs == [xs[0]] + xs[1..];
    }
  }

  /** The least of a listing comes first. */
  lemma FirstIsLeast(xs: seq<string>, y: string)
    requires Ascending(xs) && y in xs
    ensures y == xs[0] || Less(xs[0], y)
    ensures xs[0] !in xs[1..]
  {
    var i: nat :| i < |xs| && xs[i] == y;
    if i > 0 { AscendingAt(xs, 0, i); }
    if xs[0] in xs[1..] {
      var j: nat :| j < |xs| - 1 && xs[1..][j] == xs[0];
      LessIrreflexive(xs[0]);
      AscendingAt(xs, 0, j + 1);
    }
  }

  ghost predicate SameMembers(xs: seq<string>, ys: seq<string>) { forall y :: y in xs <==> y in ys }

  lemma NonEmptyTogether(xs: seq<string>, ys: seq<string>)
    requires SameMembers(xs, ys) || SameMembers(ys, xs)
    ensures |xs| > 0 ==> |ys| > 0
  {
    if |xs| > 0 { assert xs[0] in xs; }
  }

  /** Strict order leaves one listing: whatever sorts the set writes the same table. */
  lemma {:induction false} OneListing(xs: seq<string>, ys: seq<string>)
    requires Ascending(xs) && Ascending(ys) && SameMembers(xs, ys)
    ensures xs == ys
  {
    NonEmptyTogether(xs, ys);
    NonEmptyTogether(ys, xs);
    if |xs| > 0 {
      assert xs[0] in ys && ys[0] in xs;
      FirstIsLeast(xs, ys[0]);
      FirstIsLeast(ys, xs[0]);
      LessTotal(xs[0], ys[0]);
      assert xs == [xs[0]] + xs[1..] && ys == [ys[0]] + ys[1..];
      forall y ensures y in xs[1..] <==> y in ys[1..] {
        assert y in xs <==> y in ys;
        assert y in xs <==> y == xs[0] || y in xs[1..];
        assert y in ys <==> y == ys[0] || y in ys[1..];
      }
      assert Ascending(xs[1..]) && Ascending(ys[1..]);
      OneListing(xs[1..], ys[1..]);
    }
  }

  // ----- the generated table and its search -----

  predicate AllHex(xs: seq<string>) { forall x | x in xs :: LowerHex(x, 64) }

  predicate AllHexText(xs: seq<string>) { forall i | 0 <= i < |xs| :: HexText(xs[i]) && |xs[i]| == 64 }

  lemma SortedHex(addresses: seq<string>)
    requires AllHex(addresses)
    ensures AllHexText(SortedSet(addresses))
  {
    var uniq := SortedSet(addresses);
    forall i | 0 <= i < |uniq| ensures HexText(uniq[i]) && |uniq[i]| == 64 {
      assert uniq[i] in uniq;
      SortedSetHolds(addresses, uniq[i]);
      hide SortedSet;
      assert LowerHex(uniq[i], 64);
      assert forall j | 0 <= j < 64 :: uniq[i][j] in uniq[i];
    }
  }

  /** The array the generated file declares: the bytes of each line of digits. */
  function Decoded(lines: seq<string>): (t: seq<seq<byte>>)
    requires AllHexText(lines)
    ensures |t| == |lines|
  {
    seq(|lines|, i requires 0 <= i < |lines| => Unhex(lines[i]))
  }

  lemma DecodedAt(lines: seq<string>, i: nat)
    requires AllHexText(lines) && i < |lines|
    ensures |Decoded(lines)[i]| == 32 && Hex(Decoded(lines)[i]) == lines[i]
  {
    HexUndoesUnhex(lines[i]);
  }

  /** Strictly ascending as byte arrays, as a binary search requires. */
  ghost predicate Searchable(t: seq<seq<byte>>) { forall i, j | 0 <= i < j < |t| :: Before(t[i], t[j]) }

  lemma DecodedSearchable(lines: seq<string>)
    requires AllHexText(lines) && Ascending(lines)
    ensures Searchable(Decoded(lines))
  {
    var t := Decoded(lines);
    hide *;
    forall i: nat, j: nat | i < j < |t| ensures Before(t[i], t[j]) {
      DecodedAt(lines, i);
      DecodedAt(lines, j);
      AscendingAt(lines, i, j);
      HexKeepsOrder(t[i], t[j]);
    }
    assert Searchable(t) by { SearchableIf(t); }
  }

  lemma SearchableIf(t: seq<seq<byte>>)
    requires forall i: nat, j: nat | i < j < |t| :: Before(t[i], t[j])
    ensures Searchable(t)
  {}

  /** The generated array is searchable and holds exactly the addresses whose digits were listed. */
  lemma TableHoldsExactly(addresses: seq<string>, address: seq<byte>)
    requires AllHex(addresses)
    ensures AllHexText(SortedSet(addresses))
    ensures Searchable(Decoded(SortedSet(addresses)))
    ensures address in Decoded(SortedSet(addresses)) <==> Hex(address) in addresses
  {
    SortedHex(addresses);
    var uniq := SortedSet(addresses);
    DecodedSearchable(uniq);
    var t := Decoded(uniq);
    hide *;
    SortedSetHolds(addresses, Hex(address));
    if address in t {
      var i: nat :| i < |t| && t[i] == address;
      DecodedAt(uniq, i);
    }
    if Hex(address) in uniq {
      var i: nat :| i < |uniq| && uniq[i] == Hex(address);
      DecodedAt(uniq, i);
      HexInjective(t[i], address);
    }
  }

  lemma OrderTotal(a: seq<byte>, b: seq<byte>)
    ensures Before(a, b) || a == b || Before(b, a)
    ensures !(Before(a, b) && Before(b, a))
  {
    hide *;
    HexKeepsOrder(a, b);
    HexKeepsOrder(b, a);
    LessTotal(Hex(a), Hex(b));
    if Hex(a) == Hex(b) { HexInjective(a, b); }
  }

  /** The search of the generated function, on any strictly ascending array. */
  method Search(t: seq<seq<byte>>, address: seq<byte>) returns (found: bool)
    requires Searchable(t)
    ensures found <==> address in t
  {
    hide Before;
    var lo, hi := 0, |t|;
    while lo < hi
      invariant 0 <= lo <= hi <= |t|
      invariant forall i | 0 <= i < lo :: t[i] != address
      invariant forall i | hi <= i < |t| :: t[i] != address
    {
      var mid := (lo + hi) / 2;
      OrderTotal(t[mid], address);
      if t[mid] == address { return true; }
      if Before(t[mid], address) {
        forall i | 0 <= i < mid ensures t[i] != address { assert Before(t[i], t[mid]); }
        lo := mid + 1;
      } else {
        forall i | mid < i < |t| ensures t[i] != address { assert Before(t[mid], t[i]); }
        hi := mid;
      }
    }
    return false;
  }

  /** `is_reserved_main_account` of the generated file: true exactly for the addresses that were listed. */
  method IsReserved(addresses: seq<string>, address: seq<byte>) returns (reserved: bool)
    requires AllHex(addresses) && |address| == 32
    ensures reserved <==> Hex(address) in addresses
  {
    TableHoldsExactly(addresses, address);
    reserved := Search(Decoded(SortedSet(addresses)), address);
  }
}
