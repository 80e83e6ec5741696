/**
 Base64url (section 5 of RFC 4648) as the two ends use it: the contact service's check of
 ciphertext fields, and the application tags of hardware keys.
 */
module Base64 {
  import opened Bytes
  import opened Text

  type sextet = n: int | 0 <= n < 64

  // ----- groups of six bits -----

  function Six1(x: byte): (r: sextet) { x / 4 }
  function Six2(x: byte, y: byte): (r: sextet) { x % 4 * 16 + y / 16 }
  function Six3(y: byte, z: byte): (r: sextet) { y % 16 * 4 + z / 64 }
  function Six4(z: byte): (r: sextet) { z % 64 }

  function Split(b: seq<byte>): (s: seq<sextet>) {
    if b == [] then []
    else if |b| == 1 then [Six1(b[0]), Six2(b[0], 0)]
    else if |b| == 2 then [Six1(b[0]), Six2(b[0], b[1]), Six3(b[1], 0)]
    else [Six1(b[0]), Six2(b[0], b[1]), Six3(b[1], b[2]), Six4(b[2])] + Split(b[3..])
  }

  function Byte1(a: int, b: int): (r: byte) requires 0 <= a < 64 && 0 <= b < 64 { a * 4 + b / 16 }
  function Byte2(b: int, c: int): (r: byte) requires 0 <= b < 64 && 0 <= c < 64 { b % 16 * 16 + c / 4 }
  function Byte3(c: int, d: int): (r: byte) requires 0 <= c < 64 && 0 <= d < 64 { c % 4 * 64 + d }

  /** The bits of an incomplete last byte are dropped, as `atob` does. */
  function Join(s: seq<sextet>): (b: seq<byte>)
    requires |s| % 4 != 1
    ensures |b| == 3 * |s| / 4
  {
    if s == [] then []
    else if |s| == 2 then [Byte1(s[0], s[1])]
    else if |s| == 3 then [Byte1(s[0], s[1]), Byte2(s[1], s[2])]
    else [Byte1(s[0], s[1]), Byte2(s[1], s[2]), Byte3(s[2], s[3])] + Join(s[4..])
  }

  lemma GroupBits(x: byte, y: byte, z: byte)
    ensures Byte1(Six1(x), Six2(x, y)) == x
    ensures Byte2(Six2(x, y), Six3(y, z)) == y
    ensures Byte3(Six3(y, z), Six4(z)) == z
  {}

  lemma JoinGroup(a: sextet, b: sextet, c: sextet, d: sextet, rest: seq<sextet>)
    requires |rest| % 4 != 1
    ensures Join([a, b, c, d] + rest) == [Byte1(a, b), Byte2(b, c), Byte3(c, d)] + Join(rest)
  {
    hide Byte1, Byte2, Byte3;
    var s := [a, b, c, d] + rest;
    assert s[4..] == rest && s[0] == a && s[1] == b && s[2] == c && s[3] == d;
  }

  lemma SplitGroup(b: seq<byte>)
    requires |b| >= 3
    ensures Split(b) == [Six1(b[0]), Six2(b[0], b[1]), Six3(b[1], b[2]), Six4(b[2])] + Split(b[3..])
  {}

  lemma ShortGroup(b: seq<byte>)
    requires |b| < 3
    ensures |Split(b)| % 4 != 1 && Join(Split(b)) == b
  {
    hide Byte1, Byte2, Byte3, Six1, Six2, Six3, Six4;
    if |b| == 1 {
      GroupBits(b[0], 0, 0);
    } else if |b| == 2 {
      GroupBits(b[0], b[1], 0);
    }
  }

  lemma {:induction false} JoinUndoesSplit(b: seq<byte>)
    ensures |Split(b)| % 4 != 1 && Join(Split(b)) == b
  {
    hide Split, Join, Byte1, Byte2, Byte3, Six1, Six2, Six3, Six4;
    if |b| < 3 {
      ShortGroup(b);
    } else {
      var rest := Split(b[3..]);
      JoinUndoesSplit(b[3..]);
      SplitGroup(b);
      GroupBits(b[0], b[1], b[2]);
      JoinGroup(Six1(b[0]), Six2(b[0], b[1]), Six3(b[1], b[2]), Six4(b[2]), rest);
      assert b == [b[0], b[1], b[2]] + b[3..];
    }
  }

  // ----- the number the bits denote -----

  function Pow64(n: nat): (p: nat)
    ensures p > 0
  {
    if n == 0 then 1 else 64 * Pow64(n - 1)
  }

  /** The number in base 64, most significant sextet first. */
  function Number64(s: seq<sextet>): nat {
    if s == [] then 0 else s[0] * Pow64(|s| - 1) + Number64(s[1..])
  }

  /** What the missing bits of an incomplete last sextet multiply by. */
  function Unfilled(n: nat): nat { if n % 3 == 0 then 1 else if n % 3 == 1 then 16 else 4 }

  lemma GroupNumber(x: byte, y: byte, z: byte)
    ensures ((Six1(x) * 64 + Six2(x, y)) * 64 + Six3(y, z)) * 64 + Six4(z) == (x as int * 256 + y) * 256 + z
    ensures Six1(x) * 64 + Six2(x, 0) == x as int * 16
    ensures (Six1(x) * 64 + Six2(x, y)) * 64 + Six3(y, 0) == (x as int * 256 + y) * 4
  {}

  lemma ThreeBytes(b: seq<byte>)
    requires |b| >= 3
    ensures FromBE(b) == ((b[0] as int * 256 + b[1]) * 256 + b[2]) * Pow256(|b| - 3) + FromBE(b[3..])
  {
    hide *;
    assert b == b[..3] + b[3..];
    SplitBE(b[..3], b[3..]);
    SmallBE(b[..3]);
  }

  lemma SmallBE(s: seq<byte>)
    requires |s| <= 3
    ensures |s| == 1 ==> FromBE(s) == s[0]
    ensures |s| == 2 ==> FromBE(s) == s[0] as int * 256 + s[1]
    ensures |s| == 3 ==> FromBE(s) == (s[0] as int * 256 + s[1]) * 256 + s[2]
  {
    if |s| == 2 { assert s[..1][..0] == []; }
    if |s| == 3 { assert s[..2][..1] == s[..1] && s[..1][..0] == []; }
  }

  lemma FourSextets(a: sextet, b: sextet, c: sextet, d: sextet, rest: seq<sextet>)
    ensures Number64([a, b, c, d] + rest) == (((a * 64 + b) * 64 + c) * 64 + d) * Pow64(|rest|) + Number64(rest)
  {
    var n := |rest|;
    hide Number64;
    OneSextet(d, rest);
    OneSextet(c, [d] + rest);
    OneSextet(b, [c] + ([d] + rest));
    OneSextet(a, [b] + ([c] + ([d] + rest)));
    assert [a] + ([b] + ([c] + ([d] + rest))) == [a, b, c, d] + rest;
    Pow64Steps(n);
    hide Pow64;
    Distributed(a, b, c, d, Pow64(n), Pow64(n + 1), Pow64(n + 2), Pow64(n + 3), Number64(rest));
  }

  lemma Pow64Steps(n: nat)
    ensures Pow64(n + 1) == 64 * Pow64(n) && Pow64(n + 2) == 64 * Pow64(n + 1) && Pow64(n + 3) == 64 * Pow64(n + 2)
  {}

  lemma OneSextet(a: sextet, rest: seq<sextet>)
    ensures Number64([a] + rest) == a * Pow64(|rest|) + Number64(rest)
  {
    assert ([a] + rest)[1..] == rest;
  }

  lemma Distributed(a: int, b: int, c: int, d: int, p: int, p1: int, p2: int, p3: int, r: int)
    requires p1 == 64 * p && p2 == 64 * p1 && p3 == 64 * p2
    ensures a * p3 + (b * p2 + (c * p1 + (d * p + r))) == (((a * 64 + b) * 64 + c) * 64 + d) * p + r
  {
    assert a * p3 == (a * 262144) * p && b * p2 == (b * 4096) * p && c * p1 == (c * 64) * p;
  }

  lemma {:induction false} SplitPow(b: seq<byte>)
    ensures Pow64(|Split(b)|) == Pow256(|b|) * Unfilled(|b|)
  {
    hide *;
    if |b| < 3 {
      ShortPow(b);
    } else {
      SplitPow(b[3..]);
      SplitGroup(b);
      SameUnfilled(|b|);
      PowersOfGroup(|Split(b[3..])|, |b| - 3);
      assert 16777216 * (Pow256(|b| - 3) * Unfilled(|b|)) == (16777216 * Pow256(|b| - 3)) * Unfilled(|b|);
    }
  }

  lemma ShortPow(b: seq<byte>)
    requires |b| < 3
    ensures Pow64(|Split(b)|) == Pow256(|b|) * Unfilled(|b|)
  {
    hide Six1, Six2, Six3;
    assert Pow64(1) == 64 && Pow64(2) == 4096 && Pow64(3) == 262144 && Pow256(1) == 256 && Pow256(2) == 65536;
  }

  lemma PowersOfGroup(n: nat, m: nat)
    ensures Pow64(n + 4) == 16777216 * Pow64(n) && Pow256(m + 3) == 16777216 * Pow256(m)
  {
    assert Pow64(n + 1) == 64 * Pow64(n) && Pow64(n + 2) == 64 * Pow64(n + 1) && Pow64(n + 3) == 64 * Pow64(n + 2);
    assert Pow256(m + 1) == 256 * Pow256(m) && Pow256(m + 2) == 256 * Pow256(m + 1);
  }

  /** The sextets denote the number the bytes denote, moved up by the bits the last sextet lacks. */
  lemma {:induction false} SplitKeepsNumber(b: seq<byte>)
    ensures Number64(Split(b)) == FromBE(b) * Unfilled(|b|)
  {
    hide *;
    if |b| < 3 {
      ShortNumber(b);
    } else {
      SplitKeepsNumber(b[3..]);
      SplitPow(b[3..]);
      GroupAndRest(b);
      SameUnfilled(|b|);
      ThreeBytes(b);
      Combined(Number64(Split(b)), (b[0] as int * 256 + b[1]) * 256 + b[2], Pow64(|Split(b[3..])|), Number64(Split(b[3..])),
               Pow256(|b| - 3), Unfilled(|b|), FromBE(b[3..]), FromBE(b));
    }
  }

  lemma SameUnfilled(n: nat)
    requires n >= 3
    ensures Unfilled(n - 3) == Unfilled(n)
  {}

  lemma GroupAndRest(b: seq<byte>)
    requires |b| >= 3
    ensures Number64(Split(b))
         == ((b[0] as int * 256 + b[1]) * 256 + b[2]) * Pow64(|Split(b[3..])|) + Number64(Split(b[3..]))
  {
    hide *;
    SplitGroup(b);
    FourSextets(Six1(b[0]), Six2(b[0], b[1]), Six3(b[1], b[2]), Six4(b[2]), Split(b[3..]));
    GroupNumber(b[0], b[1], b[2]);
  }

  lemma Combined(x: int, g: int, q: int, r: int, p: int, u: int, f: int, w: int)
    requires x == g * q + r && q == p * u && r == f * u && w == g * p + f
    ensures x == w * u
  {
    assert g * (p * u) == (g * p) * u;
  }

  lemma ShortNumber(b: seq<byte>)
    requires |b| < 3
    ensures Number64(Split(b)) == FromBE(b) * Unfilled(|b|)
  {
    hide *;
    SmallBE(b);
    ShortSplit(b);
    if |b| == 1 {
      GroupNumber(b[0], 0, 0);
      ShortSextets(Split(b));
    } else if |b| == 2 {
      GroupNumber(b[0], b[1], 0);
      ShortSextets(Split(b));
    }
  }

  lemma ShortSplit(b: seq<byte>)
    requires |b| < 3
    ensures |b| == 0 ==> Number64(Split(b)) == 0 && FromBE(b) == 0
    ensures |b| == 1 ==> Split(b) == [Six1(b[0]), Six2(b[0], 0)] && Unfilled(|b|) == 16
    ensures |b| == 2 ==> Split(b) == [Six1(b[0]), Six2(b[0], b[1]), Six3(b[1], 0)] && Unfilled(|b|) == 4
  {
    hide Six1, Six2, Six3;
  }

  lemma ShortSextets(s: seq<sextet>)
    ensures |s| == 2 ==> Number64(s) == s[0] as int * 64 + s[1]
    ensures |s| == 3 ==> Number64(s) == (s[0] as int * 64 + s[1]) * 64 + s[2]
  {
    assert Pow64(1) == 64 && Pow64(2) == 4096;
    hide Pow64;
    if |s| == 2 {
      OneSextet(s[1], []);
      OneSextet(s[0], [s[1]]);
      assert [s[1]] + [] == [s[1]] && [s[0]] + [s[1]] == s;
    } else if |s| == 3 {
      ShortSextets(s[1..]);
      OneSextet(s[0], s[1..]);
      assert [s[0]] + s[1..] == s;
    }
  }

  // ----- alphabets -----

  function StdChar(n: sextet): (c: char) {
    if n < 26 then (65 + n) as char
    else if n < 52 then (71 + n) as char
    else if n < 62 then (n - 4) as char
    else if n == 62 then '+' else '/'
  }

  function StdValue(c: char): (v: Option<sextet>) {
    if 'A' <= c <= 'Z' then Some(c as int - 65)
    else if 'a' <= c <= 'z' then Some(c as int - 71)
    else if '0' <= c <= '9' then Some(c as int + 4)
    else if c == '+' then Some(62)
    else if c == '/' then Some(63)
    else None
  }

  lemma StdValueOfChar(n: sextet)
    ensures StdValue(StdChar(n)) == Some(n)
  {}

  /** The tables of sections 4 and 5 of RFC 4648: letters, digits, and the last two characters. */
  lemma AlphabetTable(n: sextet)
    ensures n < 26 ==> StdChar(n) == "ABCDEFGHIJKLMNOPQRSTUVWXYZ"[n]
    ensures 26 <= n < 52 ==> StdChar(n) == "abcdefghijklmnopqrstuvwxyz"[n - 26]
    ensures 52 <= n < 62 ==> StdChar(n) == "0123456789"[n - 52]
    ensures n < 62 ==> ToUrl(StdChar(n)) == StdChar(n)
    ensures StdChar(62) == '+' && StdChar(63) == '/' && ToUrl('+') == '-' && ToUrl('/') == '_'
  {}

  predicate IsUrlChar(c: char) {
    'A' <= c <= 'Z' || 'a' <= c <= 'z' || '0' <= c <= '9' || c == '-' || c == '_'
  }

  function ToStd(c: char): char { if c == '-' then '+' else if c == '_' then '/' else c }
  function ToUrl(c: char): char { if c == '+' then '-' else if c == '/' then '_' else c }

  function Map(f: char -> char, s: string): (r: string)
    ensures |r| == |s|
  {
    seq(|s|, i requires 0 <= i < |s| => f(s[i]))
  }

  function StdChars(s: seq<sextet>): (r: string)
    ensures |r| == |s|
  {
    seq(|s|, i requires 0 <= i < |s| => StdChar(s[i]))
  }

  // ----- decoding as the service does it -----

  predicate InAlphabet(s: string) { forall c | c in s :: StdValue(c).Some? }

  function Values(s: string): (v: seq<sextet>)
    requires InAlphabet(s)
    ensures |v| == |s|
  {
    if s == "" then [] else
      assert s[0] in s;
      [StdValue(s[0]).value] + Values(s[1..])
  }

  /** One trailing padding sign less, if there is one. */
  function DropPad(s: string): (r: string) {
    if s != "" && s[|s| - 1] == '=' then s[..|s| - 1] else s
  }

  /** `atob` on a string without white space. */
  function Atob(s: string): (r: Option<seq<byte>>) {
    var t := if |s| % 4 == 0 then DropPad(DropPad(s)) else s;
    if |t| % 4 == 1 || !InAlphabet(t) then None else Some(Join(Values(t)))
  }

  function DecodeUrl(value: string): (r: Option<seq<byte>>) {
    Atob(Map(ToStd, value) + Repeat('=', (4 - |value| % 4) % 4))
  }

  /** `parseBase64Url`: the value itself, or nothing. */
  function ParseBase64Url(value: string, minBytes: nat, maxBytes: nat): (r: Option<string>) {
    if value == "" || exists c | c in value :: !IsUrlChar(c) then None
    else match DecodeUrl(value)
      case None => None
      case Some(b) => if |b| < minBytes || |b| > maxBytes then None else Some(value)
  }

  lemma DropOnePad(s: string, t: string)
    requires s == t + "="
    ensures DropPad(s) == t
  {}

  lemma LastIsNoPad(t: string)
    requires InAlphabet(t)
    ensures DropPad(t) == t
  {
    if t != "" { assert t[|t| - 1] in t; }
  }

  lemma StdOfUrl(value: string)
    requires forall c | c in value :: IsUrlChar(c)
    ensures InAlphabet(Map(ToStd, value))
  {
    forall c | c in Map(ToStd, value) ensures StdValue(c).Some? {
      var i :| 0 <= i < |value| && Map(ToStd, value)[i] == c;
      assert value[i] in value && IsUrlChar(value[i]) && c == ToStd(value[i]);
    }
  }

  /** Padding is taken off again unless three signs were needed, which no decoder accepts. */
  lemma DecodeUrlExactly(value: string)
    requires forall c | c in value :: IsUrlChar(c)
    ensures InAlphabet(Map(ToStd, value))
    ensures DecodeUrl(value) == if |value| % 4 == 1 then None else Some(Join(Values(Map(ToStd, value))))
  {
    hide Map, ToStd, IsUrlChar, Join, Values, InAlphabet, DropPad, Atob, Repeat;
    StdOfUrl(value);
    var m := Map(ToStd, value);
    var n := |value| % 4;
    LastIsNoPad(m);
    var s := m + Repeat('=', (4 - n) % 4);
    if n == 0 {
      assert s == m;
      AtobIs(s, m);
    } else {
      PaddedAway(m, 4 - n);
      AtobIs(s, if n == 1 then m + "=" else m);
    }
  }

  lemma AtobIs(s: string, t: string)
    requires |s| % 4 == 0 && DropPad(DropPad(s)) == t
    ensures Atob(s) == if |t| % 4 == 1 || !InAlphabet(t) then None else Some(Join(Values(t)))
  {
    hide DropPad, InAlphabet, Join, Values;
  }

  /** Taking off two padding signs where there were one, two or three. */
  lemma PaddedAway(m: string, pads: nat)
    requires InAlphabet(m) && 1 <= pads <= 3
    ensures DropPad(DropPad(m + Repeat('=', pads))) == if pads == 3 then m + "=" else m
    ensures !InAlphabet(m + "=")
  {
    PadIsNoLetter(m);
    LastIsNoPad(m);
    hide InAlphabet, DropPad;
    var s := m + Repeat('=', pads);
    if pads == 1 {
      assert s == m + "=";
      DropOnePad(s, m);
    } else {
      var t := m + Repeat('=', pads - 1);
      assert s == t + "=";
      DropOnePad(s, t);
      var u := m + Repeat('=', pads - 2);
      assert t == u + "=";
      DropOnePad(t, u);
      assert pads == 2 ==> u == m;
      assert pads == 3 ==> u == m + "=";
    }
  }

  lemma PadIsNoLetter(m: string)
    ensures !InAlphabet(m + "=")
  {
    assert '=' in m + "=";
  }

  /**
   The check accepts exactly the non-empty strings over the URL alphabet whose length n is
   not 1 modulo 4 and whose 3n/4 bytes lie within the bounds.
   */
  lemma ParseBase64UrlExactly(value: string, minBytes: nat, maxBytes: nat)
    ensures ParseBase64Url(value, minBytes, maxBytes)
         == if value != "" && (forall c | c in value :: IsUrlChar(c)) && |value| % 4 != 1
               && minBytes <= 3 * |value| / 4 <= maxBytes
            then Some(value) else None
  {
    hide Map, ToStd, IsUrlChar, StdValue, Values;
    if forall c | c in value :: IsUrlChar(c) {
      DecodeUrlExactly(value);
    }
  }

  // ----- encoding as the app does it -----

  /** `base64EncodedString`: the standard alphabet, padded to a multiple of four. */
  function EncodeStd(b: seq<byte>): (s: string) {
    StdChars(Split(b)) + Repeat('=', (4 - |Split(b)| % 4) % 4)
  }

  /** The three replacements: + to -, / to _, = to nothing. */
  function UrlForm(s: string): (r: string) {
    if s == "" then "" else (if s[0] == '=' then "" else [ToUrl(s[0])]) + UrlForm(s[1..])
  }

  lemma {:induction false} UrlFormOfText(s: string, pads: nat)
    requires InAlphabet(s)
    ensures UrlForm(s + Repeat('=', pads)) == Map(ToUrl, s)
    decreases |s| + pads
  {
    var t := s + Repeat('=', pads);
    if s != "" {
      assert s[0] in s;
      assert t[1..] == s[1..] + Repeat('=', pads);
      UrlFormOfText(s[1..], pads);
      assert Map(ToUrl, s) == [ToUrl(s[0])] + Map(ToUrl, s[1..]);
    } else if pads > 0 {
      assert t[1..] == "" + Repeat('=', pads - 1);
      UrlFormOfText("", pads - 1);
    }
  }

  lemma StdCharsInAlphabet(s: seq<sextet>)
    ensures InAlphabet(StdChars(s))
  {
    forall c | c in StdChars(s) ensures StdValue(c).Some? {
      var i :| 0 <= i < |s| && StdChars(s)[i] == c;
      StdValueOfChar(s[i]);
    }
  }

  lemma {:induction false} ValuesOfStdChars(s: seq<sextet>)
    ensures InAlphabet(StdChars(s)) && Values(StdChars(s)) == s
  {
    StdCharsInAlphabet(s);
    if s != [] {
      assert StdChars(s)[1..] == StdChars(s[1..]);
      ValuesOfStdChars(s[1..]);
      StdValueOfChar(s[0]);
    }
  }

  lemma StdUndoesUrl(s: string)
    requires InAlphabet(s)
    ensures forall c | c in Map(ToUrl, s) :: IsUrlChar(c)
    ensures Map(ToStd, Map(ToUrl, s)) == s
  {
    forall i | 0 <= i < |s| ensures ToStd(ToUrl(s[i])) == s[i] && IsUrlChar(ToUrl(s[i])) {
      assert s[i] in s;
    }
  }

  /** What the app encodes, the service decodes: all byte strings. */
  lemma DecodeUndoesEncode(b: seq<byte>)
    ensures DecodeUrl(UrlForm(EncodeStd(b))) == Some(b)
    ensures forall c | c in UrlForm(EncodeStd(b)) :: IsUrlChar(c)
  {
    hide Split, Join, StdChars, IsUrlChar, DecodeUrl, UrlForm, InAlphabet, Map, Values;
    var s := Split(b);
    var text := StdChars(s);
    ValuesOfStdChars(s);
    UrlFormOfText(text, (4 - |s| % 4) % 4);
    StdUndoesUrl(text);
    DecodeUrlExactly(Map(ToUrl, text));
    JoinUndoesSplit(b);
  }

  // ----- application tags of hardware keys -----

  function WalletTag(ns: string, walletIndex: int): (t: Option<string>) {
    if walletIndex < 0 then None else Some("citizenapp." + ns + "." + Decimal(walletIndex))
  }

  function CidTag(ns: string, cid: seq<byte>): (t: Option<string>) {
    if cid == [] || |cid| > 32 then None
    else Some("citizenapp." + ns + ".cid." + UrlForm(EncodeStd(cid)))
  }

  /** Which arguments have a tag, and that the tag carries the whole argument. */
  lemma TagsExactly(ns: string, cid: seq<byte>, walletIndex: int)
    ensures CidTag(ns, cid).Some? <==> 1 <= |cid| <= 32
    ensures CidTag(ns, cid).Some? ==>
              exists x :: CidTag(ns, cid) == Some("citizenapp." + ns + ".cid." + x) && DecodeUrl(x) == Some(cid)
    ensures WalletTag(ns, walletIndex).Some? <==> walletIndex >= 0
    ensures WalletTag(ns, walletIndex).Some? ==>
              exists d :: Digits(d) && WalletTag(ns, walletIndex) == Some("citizenapp." + ns + "." + d)
                          && ParseDecimal(d) == walletIndex
  {
    hide UrlForm, EncodeStd, DecodeUrl, Decimal, ParseDecimal;
    if CidTag(ns, cid).Some? {
      DecodeUndoesEncode(cid);
      assert CidTag(ns, cid) == Some("citizenapp." + ns + ".cid." + UrlForm(EncodeStd(cid)));
    }
    if walletIndex >= 0 {
      DecimalRoundTrip(walletIndex);
      assert WalletTag(ns, walletIndex) == Some("citizenapp." + ns + "." + Decimal(walletIndex));
    }
  }

  lemma SameTail(head: string, a: string, b: string)
    requires head + a == head + b
    ensures a == b
  {
    assert (head + a)[|head|..] == a && (head + b)[|head|..] == b;
  }

  /** Within a namespace, different CIDs have different tags. */
  lemma CidTagsInjective(ns: string, a: seq<byte>, b: seq<byte>)
    requires CidTag(ns, a).Some? && CidTag(ns, a) == CidTag(ns, b)
    ensures a == b
  {
    hide UrlForm, EncodeStd, DecodeUrl;
    SameTail("citizenapp." + ns + ".cid.", UrlForm(EncodeStd(a)), UrlForm(EncodeStd(b)));
    DecodeUndoesEncode(a);
    DecodeUndoesEncode(b);
  }

  /** Within a namespace, no CID tag is a wallet tag, and wallet tags tell indexes apart. */
  lemma CidTagIsNoWalletTag(ns: string, cid: seq<byte>, i: nat, j: nat)
    ensures CidTag(ns, cid) != WalletTag(ns, i)
    ensures WalletTag(ns, i) == WalletTag(ns, j) ==> i == j
  {
    hide UrlForm, EncodeStd, Decimal;
    var head := "citizenapp." + ns + ".";
    assert Decimal(i)[0] in Decimal(i) && IsDigit(Decimal(i)[0]);
    assert WalletTag(ns, i).value[|head|] == Decimal(i)[0] != 'c';
    if CidTag(ns, cid).Some? {
      assert CidTag(ns, cid).value == head + ("cid." + UrlForm(EncodeStd(cid)));
      assert CidTag(ns, cid).value[|head|] == 'c';
    }
    if WalletTag(ns, i) == WalletTag(ns, j) {
      SameTail(head, Decimal(i), Decimal(j));
      DecimalRoundTrip(i);
      DecimalRoundTrip(j);
    }
  }

  /** The part behind the last dot is determined. */
  lemma LastDot(a: string, x: string, b: string, y: string)
    requires '.' !in x && '.' !in y && a + "." + x == b + "." + y
    ensures a == b && x == y
  {
    var s, t := a + "." + x, b + "." + y;
    DotPlace(a, x);
    DotPlace(b, y);
    assert |a| == |b|;
    assert s[..|a|] == a && t[..|b|] == b && s[|a| + 1..] == x && t[|b| + 1..] == y;
  }

  lemma DotPlace(a: string, x: string)
    requires '.' !in x
    ensures var s := a + "." + x; s[|a|] == '.' && forall k | |a| < k < |s| :: s[k] != '.'
  {
    var s := a + "." + x;
    forall k | |a| < k < |s| ensures s[k] != '.' { assert s[k] == x[k - |a| - 1] && x[k - |a| - 1] in x; }
  }

  /** A CID tag is a wallet tag exactly when the namespace and the encoded CID read as the other's. */
  lemma TagsMeetExactly(ns: string, cid: seq<byte>, ms: string, i: nat)
    requires CidTag(ns, cid).Some?
    ensures CidTag(ns, cid) == WalletTag(ms, i) <==> ms == ns + ".cid" && UrlForm(EncodeStd(cid)) == Decimal(i)
  {
    var x, y := UrlForm(EncodeStd(cid)), Decimal(i);
    DecodeUndoesEncode(cid);
    hide UrlForm, EncodeStd, DecodeUrl, Decimal;
    forall c | c in x ensures c != '.' { assert IsUrlChar(c); }
    forall c | c in y ensures c != '.' { assert IsDigit(c); }
    var a, b := "citizenapp." + ns + ".cid", "citizenapp." + ms;
    assert CidTag(ns, cid).value == a + "." + x;
    assert WalletTag(ms, i).value == b + "." + y;
    if CidTag(ns, cid) == WalletTag(ms, i) {
      LastDot(a, x, b, y);
      assert a == "citizenapp." + (ns + ".cid");
      SameTail("citizenapp.", ns + ".cid", ms);
    }
    if ms == ns + ".cid" { assert b == a; }
  }

  /** The namespaces the app's channels pass. */
  const NAMESPACES: set<string> := {"device_data_key", "device_subkey"}

  /** Among these namespaces no CID tag is a wallet tag. */
  lemma NamespacesApart(ns: string, cid: seq<byte>, ms: string, i: nat)
    requires ms in NAMESPACES
    ensures CidTag(ns, cid) != WalletTag(ms, i)
  {
    var s := ns + ".cid";
    assert s[|s| - 1] == 'd' && ms[|ms| - 1] == 'y';
    hide CidTag, Decimal;
    if CidTag(ns, cid).Some? { TagsMeetExactly(ns, cid, ms, i); }
  }

  /** An instance in which the two kinds meet. */
  lemma TagsMeetAcrossNamespaces()
    ensures CidTag("x", [215, 141]) == WalletTag("x.cid", 140) != None
  {
    hide EncodeStd, UrlForm, Decimal;
    ShortEncoding();
    ShortUrlForm();
    ShortDecimal();
    assert "citizenapp." + "x" + ".cid." + "140" == "citizenapp." + "x.cid" + "." + "140";
  }

  lemma ShortEncoding()
    ensures EncodeStd([215, 141]) == "140="
  {
    var s := Split([215, 141]);
    assert s == [53, 56, 52];
    assert StdChars(s) == "140" && Repeat('=', 1) == "=";
  }

  lemma ShortUrlForm()
    ensures UrlForm("140=") == "140"
  {
    assert "140="[1..] == "40=" && "40="[1..] == "0=" && "0="[1..] == "=" && "="[1..] == "";
    assert UrlForm("40=") == "40" && UrlForm("0=") == "0";
  }

  lemma ShortDecimal()
    ensures Decimal(140) == "140"
  {
    assert Decimal(14) == Decimal(1) + [Digit(4)] == "14";
  }
}
